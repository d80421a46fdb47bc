// UTF-8 as src/idna.c reads it: uv__utf8_decode1 decodes one character at a cursor.
module Utf8 {

  type Byte = x: int | 0 <= x < 256

  const UINT_MAX := 0xFFFF_FFFF

  datatype Option<T> = None | Some(value: T)

  // 0x80 == (0xC0 & (b ^ c ^ d)): of each of the two top bits, how many bytes have it set.
  predicate Marked(b: Byte, c: Byte, d: Byte) {
    (b / 128 + c / 128 + d / 128) % 2 == 1 && (b / 64 + c / 64 + d / 64) % 2 == 0
  }

  // uv__utf8_decode1 on the bytes s that are left: the code point, or UINT_MAX, and how many bytes it took.
  function Decode1(s: seq<Byte>): (r: (int, nat))
    requires s != []
    ensures 1 <= r.1 <= |s| && 0 <= r.0 <= UINT_MAX
    ensures r.0 != UINT_MAX ==> r.0 <= 0x10FFFF
  {
    if s[0] < 128 then (s[0], 1) else Decode1Slow(s)
  }

  // What the switch leaves in a, b, c, d and min, and how many bytes it took.
  datatype Fields = Fields(a: int, b: Byte, c: Byte, d: Byte, min: int, used: nat)

  // The switch falls through: a lead byte with too few bytes behind it is read as a shorter form.
  function Switch(s: seq<Byte>): (f: Option<Fields>)
    requires s != [] && s[0] >= 128
    ensures f.Some? ==> 2 <= f.value.used <= |s| && 0 <= f.value.a < 8 && f.value.min >= 0
  {
    var a := s[0];
    if a > 0xF7 then None
    else if |s| >= 4 && a > 0xEF then Some(Fields(a % 8, s[1], s[2], s[3], 0x10000, 4))
    else if |s| >= 3 && a > 0xDF then Some(Fields(0, 0x80 + a % 16, s[1], s[2], 0x800, 3))
    else if |s| >= 2 && a > 0xBF then Some(Fields(0, 0x80, 0x80 + a % 32, s[1], 0x80, 2))
    else None
  }

  function Decode1Slow(s: seq<Byte>): (r: (int, nat))
    requires s != [] && s[0] >= 128
    ensures 1 <= r.1 <= |s| && 0 <= r.0 <= UINT_MAX
    ensures r.0 != UINT_MAX ==> r.0 <= 0x10FFFF
  {
    match Switch(s)
    case None => (UINT_MAX, 1)
    case Some(f) => (Assemble(f.a, f.b, f.c, f.d, f.min), f.used)
  }

  function Assemble(a: int, b: Byte, c: Byte, d: Byte, min: int): (r: int)
    requires 0 <= a < 8 && min >= 0
    ensures r == UINT_MAX || min <= r <= 0x10FFFF
  {
    var v := a * 0x40000 + b % 64 * 0x1000 + c % 64 * 0x40 + d % 64;
    if !Marked(b, c, d) || v < min || v > 0x10FFFF || 0xD800 <= v <= 0xDFFF then UINT_MAX else v
  }

  // The code points of a text, if every character decodes.
  function DecodeAll(s: seq<Byte>): (r: Option<seq<nat>>)
    ensures r.Some? ==> |r.value| <= |s| && forall c :: c in r.value ==> c <= 0x10FFFF
  {
    if s == [] then Some([])
    else if Decode1(s).0 == UINT_MAX then None
    else
      var rest := DecodeAll(s[Decode1(s).1..]);
      if rest.None? then None else Some([Decode1(s).0] + rest.value)
  }

  // Section 3 of RFC 3629. Surrogates, which it forbids, get the three bytes that WTF-8 gives them.
  function Encode1(c: int): (s: seq<Byte>)
    requires 0 <= c <= 0x10FFFF
    ensures 1 <= |s| <= 4
  {
    if c < 0x80 then [c]
    else if c < 0x800 then [0xC0 + c / 64, 0x80 + c % 64]
    else if c < 0x10000 then [0xE0 + c / 0x1000, 0x80 + c / 64 % 64, 0x80 + c % 64]
    else [0xF0 + c / 0x40000, 0x80 + c / 0x1000 % 64, 0x80 + c / 64 % 64, 0x80 + c % 64]
  }

  predicate Scalar(c: int) {
    0 <= c <= 0x10FFFF && !(0xD800 <= c <= 0xDFFF)
  }

  function EncodeAll(cs: seq<nat>): seq<Byte>
    requires forall c :: c in cs ==> Scalar(c)
  {
    if cs == [] then [] else assert Scalar(cs[0]); Encode1(cs[0]) + EncodeAll(cs[1..])
  }

  lemma Assembled(a: int, b: Byte, c: Byte, d: Byte, x: int, y: int, z: int, min: int)
    requires 0 <= a < 8 && min >= 0 && 0 <= x < 64 && 0 <= y < 64 && 0 <= z < 64
    requires b % 64 == x && c % 64 == y && d % 64 == z
    requires d / 64 == 2 && b / 64 == c / 64
    requires min <= a * 0x40000 + x * 0x1000 + y * 0x40 + z && Scalar(a * 0x40000 + x * 0x1000 + y * 0x40 + z)
    ensures Assemble(a, b, c, d, min) == a * 0x40000 + x * 0x1000 + y * 0x40 + z
  {
    MarkedWhen(b, c, d);
  }

  lemma MarkedWhen(b: Byte, c: Byte, d: Byte)
    requires d / 64 == 2 && b / 64 == c / 64
    ensures Marked(b, c, d)
  {
    Halved(b);
    Halved(c);
    Halved(d);
    var t := b / 64;
    assert t / 2 + t / 2 + 1 == 2 * (t / 2) + 1;
    assert t + t + 2 == 2 * (t + 1);
  }

  lemma Halved(b: Byte)
    ensures b / 128 == b / 64 / 2
  {
  }

  // The six-bit groups of a code point.
  lemma Groups(c: int)
    requires 0 <= c
    ensures c == c / 0x40000 * 0x40000 + c / 0x1000 % 64 * 0x1000 + c / 64 % 64 * 0x40 + c % 64
    ensures c / 0x1000 == c / 0x40000 * 64 + c / 0x1000 % 64
    ensures c / 64 == c / 0x1000 * 64 + c / 64 % 64
  {
    var q1, r1 := c / 64, c % 64;
    var q2, r2 := q1 / 64, q1 % 64;
    var q3, r3 := q2 / 64, q2 % 64;
    Share(c, 0x1000, q2, r2 * 64 + r1);
    Share(c, 0x40000, q3, r3 * 0x1000 + r2 * 64 + r1);
  }

  lemma Share(c: int, d: int, q: int, r: int)
    requires (d == 0x1000 || d == 0x40000) && c == (if d == 0x1000 then q * 0x1000 else q * 0x40000) + r && 0 <= r < d
    ensures c / d == q
  {
    if d == 0x1000 {
      assert c / 0x1000 == q;
    } else {
      assert c / 0x40000 == q;
    }
  }

  lemma Continuation(x: int)
    requires 0 <= x < 64
    ensures (0x80 + x) % 64 == x && (0x80 + x) / 64 == 2
  {
  }

  lemma Lead(x: int)
    ensures 0 <= x < 32 ==> (0xC0 + x) % 32 == x
    ensures 0 <= x < 16 ==> (0xE0 + x) % 16 == x
    ensures 0 <= x < 8 ==> (0xF0 + x) % 8 == x
  {
  }

  lemma Decode1Two(y: int, z: int, s: seq<Byte>)
    requires 2 <= y < 32 && 0 <= z < 64 && |s| >= 2 && s[0] == 0xC0 + y && s[1] == 0x80 + z
    ensures Decode1(s) == (y * 64 + z, 2)
  {
    Lead(y);
    assert Switch(s) == Some(Fields(0, 0x80, 0x80 + y, s[1], 0x80, 2));
    Continuation(0);
    Continuation(y);
    Continuation(z);
    Assembled(0, 0x80, 0x80 + y, s[1], 0, y, z, 0x80);
  }

  lemma Decode1Three(x: int, y: int, z: int, s: seq<Byte>)
    requires 0 <= x < 16 && 0 <= y < 64 && 0 <= z < 64 && |s| >= 3
    requires x * 0x1000 + y * 64 + z >= 0x800 && Scalar(x * 0x1000 + y * 64 + z)
    requires s[0] == 0xE0 + x && s[1] == 0x80 + y && s[2] == 0x80 + z
    ensures Decode1(s) == (x * 0x1000 + y * 64 + z, 3)
  {
    Lead(x);
    assert Switch(s) == Some(Fields(0, 0x80 + x, s[1], s[2], 0x800, 3));
    Continuation(x);
    Continuation(y);
    Continuation(z);
    Assembled(0, 0x80 + x, s[1], s[2], x, y, z, 0x800);
  }

  lemma Decode1Four(w: int, x: int, y: int, z: int, s: seq<Byte>)
    requires 0 <= w < 8 && 0 <= x < 64 && 0 <= y < 64 && 0 <= z < 64 && |s| >= 4
    requires w * 0x40000 + x * 0x1000 + y * 64 + z >= 0x10000 && Scalar(w * 0x40000 + x * 0x1000 + y * 64 + z)
    requires s[0] == 0xF0 + w && s[1] == 0x80 + x && s[2] == 0x80 + y && s[3] == 0x80 + z
    ensures Decode1(s) == (w * 0x40000 + x * 0x1000 + y * 64 + z, 4)
  {
    Lead(w);
    assert Switch(s) == Some(Fields(w, s[1], s[2], s[3], 0x10000, 4));
    Continuation(x);
    Continuation(y);
    Continuation(z);
    Assembled(w, s[1], s[2], s[3], x, y, z, 0x10000);
  }

  // Decoding undoes encoding, whatever follows.
  lemma Decode1Encode1(c: int, rest: seq<Byte>)
    requires Scalar(c)
    ensures Decode1(Encode1(c) + rest) == (c, |Encode1(c)|)
  {
    var e, s := Encode1(c), Encode1(c) + rest;
    assert forall i :: 0 <= i < |e| ==> s[i] == e[i];
    if c < 0x80 {
    } else if c < 0x800 {
      Decode1Two(c / 64, c % 64, s);
    } else if c < 0x10000 {
      Groups(c);
      Decode1Three(c / 0x1000, c / 64 % 64, c % 64, s);
    } else {
      Groups(c);
      Decode1Four(c / 0x40000, c / 0x1000 % 64, c / 64 % 64, c % 64, s);
    }
  }

  // Every well-formed UTF-8 text decodes to its code points.
  lemma {:induction false} DecodeEncode(cs: seq<nat>)
    requires forall c :: c in cs ==> Scalar(c)
    ensures DecodeAll(EncodeAll(cs)) == Some(cs)
  {
    if cs != [] {
      var s := EncodeAll(cs);
      Decode1Encode1(cs[0], EncodeAll(cs[1..]));
      DecodeEncode(cs[1..]);
      assert s[|Encode1(cs[0])|..] == EncodeAll(cs[1..]);
      assert [cs[0]] + cs[1..] == cs;
    }
  }

  // ---------------------------------------------------------------------------------------
  // What is accepted, and what of it is well formed
  // ---------------------------------------------------------------------------------------

  // How many bytes a character that begins with this byte has (section 3 of RFC 3629).
  function Called(lead: Byte): (k: nat)
    ensures 1 <= k <= 4
  {
    if lead < 0x80 then 1 else if lead < 0xE0 then 2 else if lead < 0xF0 then 3 else 4
  }

  // 10xxxxxx
  predicate Tail(b: Byte) {
    b / 64 == 2
  }

  // The first k bytes are as many as the first of them calls for, and the others are marked.
  predicate Formed(s: seq<Byte>, k: nat)
    requires 1 <= k <= |s|
  {
    k == Called(s[0]) && forall i :: 1 <= i < k ==> Tail(s[i])
  }

  lemma TailByte(b: Byte, z: int)
    requires z == b % 64
    ensures Tail(b) <==> b == 0x80 + z
  {
  }

  lemma Share64(c: int, q: int, r: int)
    requires c == q * 64 + r && 0 <= r < 64
    ensures c / 64 == q && c % 64 == r
  {
  }

  // What the sum of Assemble is, of groups that come from bytes with the marks 10 or without.
  lemma Assembles(a: int, b: Byte, c: Byte, d: Byte, min: int, x: int, y: int, z: int)
    requires 0 <= a < 8 && min >= 0 && x == b % 64 && y == c % 64 && z == d % 64
    requires Assemble(a, b, c, d, min) != UINT_MAX
    ensures Assemble(a, b, c, d, min) == a * 0x40000 + x * 0x1000 + y * 64 + z
  {
  }

  lemma TwoExactly(s: seq<Byte>, c: int, y: int, z: int)
    requires |s| >= 2 && Decode1(s) == (c, 2) && c != UINT_MAX && y == s[0] % 32 && z == s[1] % 64
    ensures s[..2] == Encode1(c) <==> Formed(s, 2)
  {
    Continuation(0);
    Continuation(y);
    Assembles(0, 0x80, 0x80 + y, s[1], 0x80, 0, y, z);
    Share64(c, y, z);
    TailByte(s[1], z);
    assert s[..2] == [s[0], s[1]];
    assert Formed(s, 2) <==> Called(s[0]) == 2 && Tail(s[1]);
  }

  lemma ThreeGroups(c: int, x: int, y: int, z: int)
    requires c == x * 0x1000 + y * 64 + z && x >= 0 && 0 <= y < 64 && 0 <= z < 64
    ensures c / 0x1000 == x && c / 64 % 64 == y && c % 64 == z
  {
    Share(c, 0x1000, x, y * 64 + z);
    Share64(c, x * 64 + y, z);
    Share64(x * 64 + y, x, y);
  }

  lemma ThreeRead(s: seq<Byte>, c: int, x: int, y: int, z: int)
    requires |s| >= 3 && Decode1(s) == (c, 3) && c != UINT_MAX && x == s[0] % 16 && y == s[1] % 64 && z == s[2] % 64
    ensures 0xE0 <= s[0] && 0x800 <= c < 0x10000 && c == x * 0x1000 + y * 64 + z
  {
    Continuation(x);
    Assembles(0, 0x80 + x, s[1], s[2], 0x800, x, y, z);
  }

  lemma ThreeMatch(s: seq<Byte>, c: int, x: int, y: int, z: int)
    requires |s| >= 3 && 0xE0 <= s[0] && 0x800 <= c < 0x10000 && x == s[0] % 16
    requires c / 0x1000 == x && c / 64 % 64 == y && c % 64 == z
    ensures s[..3] == Encode1(c) <==> Called(s[0]) == 3 && s[1] == 0x80 + y && s[2] == 0x80 + z
  {
    assert s[..3] == [s[0], s[1], s[2]];
    assert s[0] < 0xF0 <==> s[0] == 0xE0 + x;
  }

  lemma ThreeExactly(s: seq<Byte>, c: int, x: int, y: int, z: int)
    requires |s| >= 3 && Decode1(s) == (c, 3) && c != UINT_MAX && x == s[0] % 16 && y == s[1] % 64 && z == s[2] % 64
    ensures s[..3] == Encode1(c) <==> Formed(s, 3)
  {
    ThreeRead(s, c, x, y, z);
    ThreeGroups(c, x, y, z);
    ThreeMatch(s, c, x, y, z);
    TailByte(s[1], y);
    TailByte(s[2], z);
    assert Formed(s, 3) <==> Called(s[0]) == 3 && Tail(s[1]) && Tail(s[2]);
  }

  lemma FourRead(s: seq<Byte>, c: int, w: int, x: int, y: int, z: int)
    requires |s| >= 4 && Decode1(s) == (c, 4) && c != UINT_MAX
    requires w == s[0] % 8 && x == s[1] % 64 && y == s[2] % 64 && z == s[3] % 64
    ensures 0xF0 <= s[0] <= 0xF7 && 0x10000 <= c <= 0x10FFFF && c == w * 0x40000 + x * 0x1000 + y * 64 + z
  {
    Assembles(w, s[1], s[2], s[3], 0x10000, x, y, z);
  }

  lemma FourGroups(c: int, w: int, x: int, y: int, z: int)
    requires c == w * 0x40000 + x * 0x1000 + y * 64 + z && w >= 0 && 0 <= x < 64 && 0 <= y < 64 && 0 <= z < 64
    ensures c / 0x40000 == w && c / 0x1000 % 64 == x && c / 64 % 64 == y && c % 64 == z
  {
    ThreeGroups(c, w * 64 + x, y, z);
    Share(c, 0x40000, w, x * 0x1000 + y * 64 + z);
    Share64(w * 64 + x, w, x);
  }

  lemma FourMatch(s: seq<Byte>, c: int, w: int, x: int, y: int, z: int)
    requires |s| >= 4 && 0xF0 <= s[0] <= 0xF7 && 0x10000 <= c <= 0x10FFFF && w == s[0] % 8
    requires c / 0x40000 == w && c / 0x1000 % 64 == x && c / 64 % 64 == y && c % 64 == z
    ensures s[..4] == Encode1(c) <==> s[1] == 0x80 + x && s[2] == 0x80 + y && s[3] == 0x80 + z
  {
    assert s[..4] == [s[0], s[1], s[2], s[3]];
    assert s[0] == 0xF0 + w;
  }

  lemma FourExactly(s: seq<Byte>, c: int, w: int, x: int, y: int, z: int)
    requires |s| >= 4 && Decode1(s) == (c, 4) && c != UINT_MAX
    requires w == s[0] % 8 && x == s[1] % 64 && y == s[2] % 64 && z == s[3] % 64
    ensures s[..4] == Encode1(c) <==> Formed(s, 4)
  {
    FourRead(s, c, w, x, y, z);
    FourGroups(c, w, x, y, z);
    FourMatch(s, c, w, x, y, z);
    TailByte(s[1], x);
    TailByte(s[2], y);
    TailByte(s[3], z);
    assert Formed(s, 4) <==> Called(s[0]) == 4 && Tail(s[1]) && Tail(s[2]) && Tail(s[3]);
  }

  // An accepted character is the UTF-8 form of its code point if and only if it has the length
  // that its first byte calls for and every further byte carries its mark.
  lemma Decode1Exactly(s: seq<Byte>, c: int, k: nat)
    requires s != [] && Decode1(s) == (c, k) && c != UINT_MAX
    ensures s[..k] == Encode1(c) <==> Formed(s, k)
  {
    if k == 1 {
      assert s[..1] == [s[0]];
    } else if k == 2 {
      TwoExactly(s, c, s[0] % 32, s[1] % 64);
    } else if k == 3 {
      ThreeExactly(s, c, s[0] % 16, s[1] % 64, s[2] % 64);
    } else {
      FourExactly(s, c, s[0] % 8, s[1] % 64, s[2] % 64, s[3] % 64);
    }
  }

  // Bytes without a mark pass the test of the exclusive or.
  lemma UnmarkedAccepted(s: seq<Byte>)
    requires s == [0xE2, 0x41, 0x41]
    ensures Decode1(s) == (0x2041, 3) && Encode1(0x2041) != s
  {
    assert Switch(s) == Some(Fields(0, 0x82, 0x41, 0x41, 0x800, 3));
    assert Marked(0x82, 0x41, 0x41);
    assert Encode1(0x2041)[1] == 0x81;
  }

  lemma ShortSum()
    ensures Assemble(0, 0x80, 0x82, 0x80, 0x80) == 0x80
  {
    Assembled(0, 0x80, 0x82, 0x80, 0, 2, 0, 0x80);
  }

  lemma ShortSwitch(s: seq<Byte>)
    requires |s| == 2 && s[0] == 0xE2 && s[1] == 0x80
    ensures Switch(s) == Some(Fields(0, 0x80, 0x82, 0x80, 0x80, 2))
  {
  }

  lemma ShortRead(s: seq<Byte>)
    requires |s| == 2 && s[0] == 0xE2 && s[1] == 0x80
    ensures Decode1(s) == (0x80, 2)
  {
    ShortSwitch(s);
    ShortSum();
  }

  // The switch falls through, and a character that the text breaks off is read as a shorter one.
  lemma TruncatedThree(s: seq<Byte>)
    requires s == [0xE2, 0x80]
    ensures Decode1(s) == (0x80, 2) && Encode1(0x80) != s
  {
    ShortRead(s);
    assert Encode1(0x80)[0] == 0xC2;
  }

  lemma TruncatedFour(s: seq<Byte>)
    requires s == [0xF1, 0x80, 0x80]
    ensures Decode1(s) == (0x1000, 3) && Encode1(0x1000) != s
  {
    assert Switch(s) == Some(Fields(0, 0x81, 0x80, 0x80, 0x800, 3));
    Assembled(0, 0x81, 0x80, 0x80, 1, 0, 0, 0x800);
    assert Encode1(0x1000)[0] == 0xE1;
  }

  // The same test along a whole text.
  predicate WellShaped(s: seq<Byte>) {
    s == [] || (Called(s[0]) <= |s| && Formed(s, Called(s[0])) && WellShaped(s[Called(s[0])..]))
  }

  lemma {:induction false} DecodedScalars(s: seq<Byte>)
    requires DecodeAll(s).Some?
    ensures forall c :: c in DecodeAll(s).value ==> Scalar(c)
  {
    if s != [] {
      DecodedScalars(s[Decode1(s).1..]);
    }
  }

  // A text that decodes is the UTF-8 form of what it decodes to if and only if it is well shaped.
  lemma {:induction false} DecodeExactly(s: seq<Byte>)
    requires DecodeAll(s).Some?
    ensures forall c :: c in DecodeAll(s).value ==> Scalar(c)
    ensures EncodeAll(DecodeAll(s).value) == s <==> WellShaped(s)
  {
    DecodedScalars(s);
    if s != [] {
      var (c, k) := Decode1(s);
      var cs := DecodeAll(s[k..]).value;
      DecodeExactly(s[k..]);
      TextStep(s, c, k, cs);
      ShapeStep(s, c, k);
    }
  }

  lemma TextStep(s: seq<Byte>, c: int, k: nat, cs: seq<nat>)
    requires s != [] && Decode1(s) == (c, k) && c != UINT_MAX && Scalar(c) && forall x :: x in cs ==> Scalar(x)
    ensures EncodeAll([c] + cs) == s <==> s[..k] == Encode1(c) && EncodeAll(cs) == s[k..]
  {
    var e, t := Encode1(c), EncodeAll(cs);
    assert ([c] + cs)[1..] == cs && EncodeAll([c] + cs) == e + t;
    if e + t == s {
      Decode1Encode1(c, t);
      assert (e + t)[..|e|] == e && (e + t)[|e|..] == t;
    }
    assert s == s[..k] + s[k..];
  }

  lemma ShapeStep(s: seq<Byte>, c: int, k: nat)
    requires s != [] && Decode1(s) == (c, k) && c != UINT_MAX
    ensures WellShaped(s) <==> s[..k] == Encode1(c) && WellShaped(s[k..])
  {
    Decode1Exactly(s, c, k);
    assert Called(s[0]) <= |s| ==> k == Called(s[0]);
  }

  // s is the UTF-8 form of some code points.
  ghost predicate Utf8Text(s: seq<Byte>) {
    exists cs: seq<nat> :: (forall c :: c in cs ==> Scalar(c)) && EncodeAll(cs) == s
  }

  // Among all byte sequences, the well-formed ones are those that decode and are well shaped.
  lemma WellFormedExactly(s: seq<Byte>)
    ensures Utf8Text(s) <==> DecodeAll(s).Some? && WellShaped(s)
  {
    if cs: seq<nat> :| (forall c :: c in cs ==> Scalar(c)) && EncodeAll(cs) == s {
      DecodeEncode(cs);
    }
    if DecodeAll(s).Some? {
      DecodeExactly(s);
    }
  }

  // A character is decoded alike when the text is cut off behind it.
  lemma Decode1Cut(s: seq<Byte>, k: nat)
    requires s != [] && Decode1(s).0 != UINT_MAX && Decode1(s).1 <= k <= |s|
    ensures Decode1(s[..k]) == Decode1(s)
  {
  }

  lemma DecodeStep(s: seq<Byte>, k: nat, c: int, rest: seq<Byte>)
    requires s != [] && Decode1(s) == (c, k) && c != UINT_MAX && s[k..] == rest
    ensures DecodeAll(s) == if DecodeAll(rest).None? then None else Some([c] + DecodeAll(rest).value)
  {
  }

  // The characters of a text and where each of them starts.
  ghost predicate Tiled(s: seq<Byte>, cs: seq<nat>, off: seq<nat>) {
    TiledFront(s, cs, off) && off[|cs|] == |s|
  }

  // The same of the front of a text, as far as it goes.
  ghost predicate TiledFront(s: seq<Byte>, cs: seq<nat>, off: seq<nat>) {
    && |off| == |cs| + 1 && off[0] == 0 && off[|cs|] <= |s|
    && (forall i :: 0 <= i < |cs| ==> Tile(s, cs, off, i))
  }

  ghost predicate Tile(s: seq<Byte>, cs: seq<nat>, off: seq<nat>, i: nat)
    requires i < |cs| && |off| == |cs| + 1
  {
    off[i] < |s| && Decode1(s[off[i]..]).0 == cs[i] <= 0x10FFFF && off[i] + Decode1(s[off[i]..]).1 == off[i + 1]
  }

  lemma Tiles(s: seq<Byte>) returns (off: seq<nat>)
    requires DecodeAll(s).Some?
    ensures Tiled(s, DecodeAll(s).value, off)
  {
    off := Fronts(s);
  }

  // The code points in front of the first bytes that do not decode.
  function DecodeFront(s: seq<Byte>): seq<nat> {
    if s == [] || Decode1(s).0 == UINT_MAX then [] else [Decode1(s).0] + DecodeFront(s[Decode1(s).1..])
  }

  // The front of a text ends where it does not decode, or at its end.
  ghost predicate Stops(s: seq<Byte>, at: nat)
    requires at <= |s|
  {
    (at == |s| <==> DecodeAll(s).Some?) && (at < |s| ==> Decode1(s[at..]).0 == UINT_MAX)
  }

  lemma {:induction false} Fronts(s: seq<Byte>) returns (off: seq<nat>)
    ensures TiledFront(s, DecodeFront(s), off) && Stops(s, off[|DecodeFront(s)|])
    ensures DecodeAll(s).Some? ==> DecodeAll(s).value == DecodeFront(s)
  {
    if s == [] || Decode1(s).0 == UINT_MAX {
      off := [0];
      assert s[0..] == s;
    } else {
      var r := Decode1(s);
      var rest := Fronts(s[r.1..]);
      off := Prepend(s, r.0, r.1, DecodeFront(s[r.1..]), rest);
    }
  }

  lemma Prepend(s: seq<Byte>, c: nat, k: nat, cs: seq<nat>, rest: seq<nat>) returns (off: seq<nat>)
    requires s != [] && Decode1(s) == (c, k) && c <= 0x10FFFF && TiledFront(s[k..], cs, rest)
    ensures TiledFront(s, [c] + cs, off) && off[|cs| + 1] == k + rest[|cs|]
    ensures Stops(s[k..], rest[|cs|]) ==> Stops(s, off[|cs| + 1])
  {
    PrependStops(s, c, k, rest[|cs|]);
    off := Moved(rest, k);
    PrependFirst(s, c, k, cs, off);
    forall i | 0 <= i < |cs| + 1 ensures Tile(s, [c] + cs, off, i) {
      if i > 0 {
        assert Tile(s[k..], cs, rest, i - 1);
        PrependTile(s, c, k, cs, rest, off, i);
      }
    }
  }

  // The offsets of a text with k bytes in front.
  function Moved(rest: seq<nat>, k: nat): (off: seq<nat>)
    ensures |off| == |rest| + 1 && off[0] == 0 && forall i :: 0 < i < |off| ==> off[i] == k + rest[i - 1]
  {
    [0] + seq(|rest|, i requires 0 <= i < |rest| => k + rest[i])
  }

  lemma PrependFirst(s: seq<Byte>, c: nat, k: nat, cs: seq<nat>, off: seq<nat>)
    requires s != [] && Decode1(s) == (c, k) && c <= 0x10FFFF && |off| == |cs| + 2 && off[0] == 0 && off[1] == k
    ensures Tile(s, [c] + cs, off, 0)
  {
    assert s[0..] == s;
  }

  lemma PrependTile(s: seq<Byte>, c: nat, k: nat, cs: seq<nat>, rest: seq<nat>, off: seq<nat>, i: nat)
    requires k <= |s| && 0 < i <= |cs| && |rest| == |cs| + 1 && |off| == |cs| + 2 && Tile(s[k..], cs, rest, i - 1)
    requires off[i] == k + rest[i - 1] && off[i + 1] == k + rest[i]
    ensures Tile(s, [c] + cs, off, i)
  {
    assert ([c] + cs)[i] == cs[i - 1];
    Shifted(s, k, rest[i - 1]);
  }

  lemma PrependStops(s: seq<Byte>, c: nat, k: nat, at: nat)
    requires s != [] && Decode1(s) == (c, k) && c <= 0x10FFFF && at <= |s| - k
    ensures Stops(s[k..], at) ==> Stops(s, k + at)
  {
    if at < |s| - k {
      Shifted(s, k, at);
    }
  }

  lemma Shifted(s: seq<Byte>, k: nat, a: nat)
    requires k <= |s| && a < |s| - k
    ensures s[k..][a..] == s[k + a..]
  {
  }

  // The bytes of characters a to b decode to just these characters.
  lemma {:induction false} TiledSlice(s: seq<Byte>, cs: seq<nat>, off: seq<nat>, a: nat, b: nat)
    requires TiledFront(s, cs, off) && a <= b <= |cs|
    ensures off[a] <= off[b] <= |s| && DecodeAll(s[off[a]..off[b]]) == Some(cs[a..b])
    decreases b - a
  {
    if a < b {
      assert Tile(s, cs, off, a);
      TiledSlice(s, cs, off, a + 1, b);
      SliceStep(s, cs, off, a, b);
    } else {
      TiledWithin(s, cs, off, a);
      assert s[off[a]..off[a]] == [] && cs[a..a] == [];
    }
  }

  lemma {:induction false} TiledWithin(s: seq<Byte>, cs: seq<nat>, off: seq<nat>, a: nat)
    requires TiledFront(s, cs, off) && a <= |cs|
    ensures off[a] <= |s|
  {
    assert a < |cs| ==> Tile(s, cs, off, a);
  }

  lemma SliceStep(s: seq<Byte>, cs: seq<nat>, off: seq<nat>, a: nat, b: nat)
    requires a < b <= |cs| && |off| == |cs| + 1 && Tile(s, cs, off, a)
    requires off[a + 1] <= off[b] <= |s| && DecodeAll(s[off[a + 1]..off[b]]) == Some(cs[a + 1..b])
    ensures DecodeAll(s[off[a]..off[b]]) == Some(cs[a..b])
  {
    var t, k := s[off[a]..], off[a + 1] - off[a];
    Decode1Cut(t, off[b] - off[a]);
    assert t[..off[b] - off[a]] == s[off[a]..off[b]];
    assert s[off[a]..off[b]][k..] == s[off[a + 1]..off[b]];
    DecodeStep(s[off[a]..off[b]], k, cs[a], s[off[a + 1]..off[b]]);
    assert cs[a..b] == [cs[a]] + cs[a + 1..b];
  }
}
