// The conversion from UTF-16 to WTF-8 in src/idna.c.
module Wtf8 {
  import opened Utf8

  type CodePoint = c: int | 0 <= c <= 0x10FFFF

  type Unit = x: int | 0 <= x < 0x10000

  // ---------------------------------------------------------------------------------------
  // The source as code points
  // ---------------------------------------------------------------------------------------

  predicate IsPair(w: seq<Unit>) {
    |w| >= 2 && 0xD800 <= w[0] <= 0xDBFF && 0xDC00 <= w[1] <= 0xDFFF
  }

  function Combine(high: Unit, low: Unit): int {
    0x10000 + (high - 0xD800) * 0x400 + (low - 0xDC00)
  }

  // Surrogate pairs become one code point; lone surrogates stay.
  function CodePoints(w: seq<Unit>): seq<CodePoint>
  {
    if w == [] then []
    else if IsPair(w) then [Combine(w[0], w[1])] + CodePoints(w[2..])
    else [w[0]] + CodePoints(w[1..])
  }

  function FirstNul(w: seq<Unit>): (k: nat)
    requires 0 in w
    ensures k < |w| && w[k] == 0 && forall j :: 0 <= j < k ==> w[j] != 0
  {
    if w[0] == 0 then 0 else 1 + FirstNul(w[1..])
  }

  // The memory behind the source pointer holds len units, or a NUL if len is negative.
  predicate Readable(w: seq<Unit>, len: int) {
    if len >= 0 then len <= |w| else 0 in w
  }

  // The units to convert.
  function Source(w: seq<Unit>, len: int): seq<Unit>
    requires Readable(w, len)
  {
    if len >= 0 then w[..len] else w[..FirstNul(w)]
  }

  // ---------------------------------------------------------------------------------------
  // The target
  // ---------------------------------------------------------------------------------------

  function EncodeEach(cs: seq<CodePoint>): seq<Byte>
  {
    if cs == [] then [] else Encode1(cs[0]) + EncodeEach(cs[1..])
  }

  function Wtf8Text(w: seq<Unit>): seq<Byte> {
    EncodeEach(CodePoints(w))
  }

  // A byte of a NUL-terminated text.
  function At(s: seq<Byte>, i: nat): Byte {
    if i < |s| then s[i] else 0
  }

  predicate Continues(b: Byte) {
    b / 64 == 2
  }

  // uv__wtf8_decode1: the code point, or -1, and how many bytes it takes.
  function Decode1(s: seq<Byte>): (r: (int, nat))
    ensures r.1 >= 1
  {
    var b1 := At(s, 0);
    if b1 <= 0x7F then (b1, 1)
    else if b1 < 0xC2 || !Continues(At(s, 1)) then (-1, 1)
    else if b1 <= 0xDF then ((b1 * 64 + At(s, 1) % 64) % 0x800, 2)
    else if !Continues(At(s, 2)) then (-1, 1)
    else if b1 <= 0xEF then ((b1 * 0x1000 + At(s, 1) % 64 * 64 + At(s, 2) % 64) % 0x10000, 3)
    else if !Continues(At(s, 3)) then (-1, 1)
    else
      var c := (b1 * 0x40000 + At(s, 1) % 64 * 0x1000 + At(s, 2) % 64 * 64 + At(s, 3) % 64) % 0x200000;
      if b1 <= 0xF4 && c <= 0x10FFFF then (c, 4) else (-1, 1)
  }

  // The code points of a text, read one by one.
  function DecodeEach(s: seq<Byte>): Option<seq<int>> {
    if s == [] then Some([])
    else if Decode1(s).0 < 0 || Decode1(s).1 > |s| then None
    else
      var rest := DecodeEach(s[Decode1(s).1..]);
      if rest.None? then None else Some([Decode1(s).0] + rest.value)
  }

  lemma Decode1Two(y: int, z: int, s: seq<Byte>)
    requires 2 <= y < 32 && 0 <= z < 64 && |s| >= 2 && s[0] == 0xC0 + y && s[1] == 0x80 + z
    ensures Decode1(s) == (y * 64 + z, 2)
  {
    Continuation(z);
    assert (s[0] * 64 + z) % 0x800 == y * 64 + z;
  }

  lemma Decode1Three(x: int, y: int, z: int, s: seq<Byte>)
    requires 0 <= x < 16 && 0 <= y < 64 && 0 <= z < 64 && |s| >= 3
    requires s[0] == 0xE0 + x && s[1] == 0x80 + y && s[2] == 0x80 + z
    ensures Decode1(s) == (x * 0x1000 + y * 64 + z, 3)
  {
    Continuation(y);
    Continuation(z);
    assert (s[0] * 0x1000 + y * 64 + z) % 0x10000 == x * 0x1000 + y * 64 + z;
  }

  lemma Decode1Four(v: int, x: int, y: int, z: int, s: seq<Byte>)
    requires 0 <= v < 5 && 0 <= x < 64 && 0 <= y < 64 && 0 <= z < 64 && |s| >= 4
    requires v * 0x40000 + x * 0x1000 + y * 64 + z <= 0x10FFFF
    requires s[0] == 0xF0 + v && s[1] == 0x80 + x && s[2] == 0x80 + y && s[3] == 0x80 + z
    ensures Decode1(s) == (v * 0x40000 + x * 0x1000 + y * 64 + z, 4)
  {
    Continuation(x);
    Continuation(y);
    Continuation(z);
    assert (s[0] * 0x40000 + x * 0x1000 + y * 64 + z) % 0x200000 == v * 0x40000 + x * 0x1000 + y * 64 + z;
  }

  lemma Decode1Encode1(c: int, rest: seq<Byte>)
    requires 0 <= c <= 0x10FFFF
    ensures Decode1(Encode1(c) + rest) == (c, |Encode1(c)|)
  {
    var e, s := Encode1(c), Encode1(c) + rest;
    assert forall i :: 0 <= i < |e| ==> s[i] == e[i];
    if c < 0x80 {
    } else if c < 0x800 {
      Decode1Two(c / 64, c % 64, s);
    } else if c < 0x10000 {
      Groups(c);
      Decode1Three(c / 0x1000, c / 64 % 64, c % 64, s);
    } else {
      Groups(c);
      Decode1Four(c / 0x40000, c / 0x1000 % 64, c / 64 % 64, c % 64, s);
    }
  }

  lemma {:induction false} DecodeEncodeEach(cs: seq<CodePoint>)
    ensures DecodeEach(EncodeEach(cs)) == Some(cs)
  {
    if cs != [] {
      var s, tail := EncodeEach(cs), EncodeEach(cs[1..]);
      Decode1Encode1(cs[0], tail);
      DecodeEncodeEach(cs[1..]);
      DecodeEachStep(s, cs[0], |Encode1(cs[0])|, tail, cs[1..]);
      assert [cs[0]] + cs[1..] == cs;
    }
  }

  lemma DecodeEachStep(s: seq<Byte>, c: nat, k: nat, tail: seq<Byte>, cs: seq<int>)
    requires Decode1(s) == (c, k) && s != [] && k <= |s| && s[k..] == tail && DecodeEach(tail) == Some(cs)
    ensures DecodeEach(s) == Some([c] + cs)
  {
  }

  // Every text of UTF-16 units comes back, lone surrogates and all.
  lemma RoundTrip(w: seq<Unit>)
    ensures DecodeEach(Wtf8Text(w)) == Some(CodePoints(w))
  {
    DecodeEncodeEach(CodePoints(w));
  }

  // ---------------------------------------------------------------------------------------
  // The source pointer
  // ---------------------------------------------------------------------------------------

  // uv__get_surrogate_value
  function SurrogateValue(w: seq<Unit>, len: int): CodePoint
    requires Readable(w, len) && len != 0
  {
    if 0xD800 <= w[0] <= 0xDBFF && len != 1 && 0xDC00 <= w[1] <= 0xDFFF then Combine(w[0], w[1]) else w[0]
  }

  function Units(c: CodePoint): nat {
    if c < 0x10000 then 1 else 2
  }

  // w_source_len behind a code point.
  function Remaining(len: int, c: CodePoint): int {
    if len > 0 then len - Units(c) else len
  }

  // One code point is taken off the source.
  lemma Advance(w: seq<Unit>, len: int, c: CodePoint)
    requires Readable(w, len) && len != 0 && c == SurrogateValue(w, len)
    ensures len < 0 && c == 0 ==> Source(w, len) == []
    ensures len > 0 || c != 0 ==> Taken(w, len, c)
  {
    var src := Source(w, len);
    if len > 0 || c != 0 {
      var k := Units(c);
      assert IsPair(src) <==> k == 2;
      assert src[k..] == Source(w[k..], Remaining(len, c));
    }
  }

  ghost predicate Taken(w: seq<Unit>, len: int, c: CodePoint)
    requires Readable(w, len)
  {
    var k := Units(c);
    && k <= |w| && Readable(w[k..], Remaining(len, c)) && Source(w, len) != []
    && CodePoints(Source(w, len)) == [c] + CodePoints(Source(w[k..], Remaining(len, c)))
    && Wtf8Text(Source(w, len)) == Encode1(c) + Wtf8Text(Source(w[k..], Remaining(len, c)))
  }

  // uv_utf16_length_as_wtf8
  method Length(w: seq<Unit>, len0: int) returns (n: nat)
    requires Readable(w, len0)
    ensures n == |Wtf8Text(Source(w, len0))|
  {
    var p: nat, len := 0, len0;
    n := 0;
    assert w[0..] == w;
    while len != 0
      invariant p <= |w| && Readable(w[p..], len)
      invariant n + |Wtf8Text(Source(w[p..], len))| == |Wtf8Text(Source(w, len0))|
      decreases |w| - p
    {
      var c := SurrogateValue(w[p..], len);
      Advance(w[p..], len, c);
      if len < 0 && c == 0 {
        break;
      }
      assert w[p..][Units(c)..] == w[p + Units(c)..];
      if c < 0x80 {
        n := n + 1;
      } else if c < 0x800 {
        n := n + 2;
      } else if c < 0x10000 {
        n := n + 3;
      } else {
        n := n + 4;
        p := p + 1;
        if len > 0 {
          len := len - 1;
        }
      }
      p := p + 1;
      if len > 0 {
        len := len - 1;
      }
    }
  }

  // ---------------------------------------------------------------------------------------
  // The target buffer
  // ---------------------------------------------------------------------------------------

  const UV_ENOBUFS := -105

  function Min(a: nat, b: nat): nat {
    if a < b then a else b
  }

  // *target++ = b, where b is byte k of a character behind the bytes base.
  method Store(target: array<Byte>, t0: nat, b: Byte, ghost base: seq<Byte>, ghost e: seq<Byte>, ghost k: nat) returns (t: nat)
    requires t0 < target.Length && k < |e| && b == e[k] && target[..t0] == base + e[..k]
    modifies target
    ensures t == t0 + 1 && target[..t] == base + e[..k + 1]
  {
    target[t0] := b;
    t := t0 + 1;
  }

  // Writes the bytes of c at t until they or the space end; whole tells whether they all fitted.
  method PutCode(target: array<Byte>, t0: nat, end: nat, c: CodePoint) returns (t: nat, whole: bool)
    requires t0 < end < target.Length
    modifies target
    ensures t == Min(t0 + |Encode1(c)|, end) && (whole <==> t0 + |Encode1(c)| <= end)
    ensures target[..t] == old(target[..t0]) + Encode1(c)[..t - t0]
  {
    if c < 0x80 {
      t := Store(target, t0, c, old(target[..t0]), Encode1(c), 0);
    } else if c < 0x800 {
      t := Store(target, t0, 0xC0 + c / 64, old(target[..t0]), Encode1(c), 0);
      if t == end {
        return t, false;
      }
      t := Store(target, t, 0x80 + c % 64, old(target[..t0]), Encode1(c), 1);
    } else if c < 0x10000 {
      t := Store(target, t0, 0xE0 + c / 0x1000, old(target[..t0]), Encode1(c), 0);
      if t == end {
        return t, false;
      }
      t := Store(target, t, 0x80 + c / 64 % 64, old(target[..t0]), Encode1(c), 1);
      if t == end {
        return t, false;
      }
      t := Store(target, t, 0x80 + c % 64, old(target[..t0]), Encode1(c), 2);
    } else {
      t := Store(target, t0, 0xF0 + c / 0x40000, old(target[..t0]), Encode1(c), 0);
      if t == end {
        return t, false;
      }
      t := Store(target, t, 0x80 + c / 0x1000 % 64, old(target[..t0]), Encode1(c), 1);
      if t == end {
        return t, false;
      }
      t := Store(target, t, 0x80 + c / 64 % 64, old(target[..t0]), Encode1(c), 2);
      if t == end {
        return t, false;
      }
      t := Store(target, t, 0x80 + c % 64, old(target[..t0]), Encode1(c), 3);
    }
    whole := true;
  }

  // How far the conversion has come: the units from p on are still to be converted.
  ghost predicate Midway(w: seq<Unit>, p: nat, len: int, text: seq<Byte>, full: seq<Byte>) {
    p <= |w| && Readable(w[p..], len) && text + Wtf8Text(Source(w[p..], len)) == full
  }

  // One iteration: ok is false where the loop breaks.
  method Convert1(w: seq<Unit>, p0: nat, len0: int, target: array<Byte>, t0: nat, end: nat, ghost full: seq<Byte>)
    returns (ok: bool, p: nat, len: int, t: nat)
    requires t0 < end < target.Length && len0 != 0 && Midway(w, p0, len0, target[..t0], full)
    modifies target
    ensures t0 <= t <= end && p <= |w|
    ensures ok ==> Midway(w, p, len, target[..t], full) && p > p0 && t > t0 && t0 + FirstLength(w[p0..], len0) <= end
    ensures !ok && len == 0 ==> target[..t] == full
    ensures !ok && len != 0 ==> p == p0 && len == len0 && t == end < |full| && target[..t] == full[..t]
    ensures !ok && len != 0 ==> t0 + FirstLength(w[p..], len) > end && (len < 0 ==> w[p] != 0)
    ensures !ok && len != 0 ==> |full| == t0 + |Wtf8Text(Source(w[p..], len))|
  {
    p, len, t := p0, len0, t0;
    var c := SurrogateValue(w[p..], len);
    Advance(w[p..], len, c);
    if len < 0 && c == 0 {
      return false, p, 0, t;
    }
    t, ok := PutCode(target, t0, end, c);
    if ok {
      assert w[p..][Units(c)..] == w[p + Units(c)..];
      p, len := p + Units(c), Remaining(len, c);
    }
  }

  // The loop. left is the number of bytes of whole characters written.
  method FillLoop(w: seq<Unit>, len0: int, target: array<Byte>, end: nat, ghost full: seq<Byte>)
    returns (p: nat, len: int, t: nat, whole: nat, ghost left: nat)
    requires Readable(w, len0) && end < target.Length && full == Wtf8Text(Source(w, len0))
    modifies target
    ensures p <= |w| && left <= t <= end && Readable(w[p..], len) && whole == if left == 0 then end else left
    ensures len == 0 ==> target[..t] == full
    ensures len != 0 ==> t == end && |full| == left + |Wtf8Text(Source(w[p..], len))|
    ensures len != 0 ==> ((left == t && target[..t] + Wtf8Text(Source(w[p..], len)) == full)
                          || (|full| > t && target[..t] == full[..t] && (len < 0 ==> w[p] != 0)))
    ensures len != 0 && left == 0 ==> p == 0 && len == len0 && (end > 0 ==> FirstLength(w, len0) > end)
    ensures len != 0 && left > 0 ==> FirstLength(w, len0) <= end
  {
    p, len, t, whole, left := 0, len0, 0, end, 0;
    assert w[0..] == w && target[..0] == [];
    while t != end && len != 0
      invariant t == left <= end && Midway(w, p, len, target[..t], full)
      invariant if t == 0 then p == 0 && len == len0 else FirstLength(w, len0) <= end
      invariant whole == if t == 0 then end else t
      decreases |w| - p
    {
      var ok;
      ok, p, len, t := Convert1(w, p, len, target, t, end, full);
      if !ok {
        return;
      }
      whole, left := t, t;
    }
  }

  // The conversion into a buffer with room for end bytes and a NUL. used is what *target_len_ptr
  // holds afterwards: the bytes written, or on UV_ENOBUFS the size it asks for.
  method Fill(w: seq<Unit>, len0: int, target: array<Byte>, end: nat) returns (status: int, used: nat)
    requires Readable(w, len0) && end < target.Length
    modifies target
    ensures Filled(Wtf8Text(Source(w, len0)), target[..], end) && status == if |Wtf8Text(Source(w, len0))| <= end then 0 else UV_ENOBUFS
    ensures status == 0 ==> used == |Wtf8Text(Source(w, len0))|
    ensures status != 0 ==> used == Asked(Wtf8Text(Source(w, len0)), FirstLength(w, len0), end)
  {
    ghost var full := Wtf8Text(Source(w, len0));
    var p, len, t, whole, left := FillLoop(w, len0, target, end, full);
    used := if t != end then t else end;
    if len < 0 && t == end && w[p..][0] == 0 {
      len := 0;
    }
    target[t] := 0;
    status := 0;
    if len != 0 {
      var n := Length(w[p..], len);
      used := whole + n;
      status := UV_ENOBUFS;
    }
  }

  // The buffer holds the text, or as much of it as fits, and a NUL behind it.
  ghost predicate Filled(full: seq<Byte>, target: seq<Byte>, end: nat)
    requires end < |target|
  {
    var n := Min(|full|, end);
    target[..n] == full[..n] && target[n] == 0
  }

  // What UV_ENOBUFS asks for: the right length, unless not even the first character fitted.
  function Asked(full: seq<Byte>, first: nat, end: nat): nat {
    if first <= end then |full| else end + |full|
  }

  function FirstLength(w: seq<Unit>, len: int): nat
    requires Readable(w, len)
  {
    var cs := CodePoints(Source(w, len));
    if cs == [] then 0 else |Encode1(cs[0])|
  }

  // uv_utf16_to_wtf8 with nowhere to write: a buffer of the right size is made, and it always fits.
  method Utf16ToWtf8(w: seq<Unit>, len: int) returns (status: int, target: array<Byte>, used: nat)
    requires Readable(w, len)
    ensures status == 0 && used == |Wtf8Text(Source(w, len))|
    ensures target.Length == used + 1 && target[..used] == Wtf8Text(Source(w, len)) && target[used] == 0
  {
    var n := Length(w, len);
    target := new Byte[n + 1];
    status, used := Fill(w, len, target, n);
  }

  // The size that UV_ENOBUFS asks for is the size of the text exactly if the buffer had no room at
  // all or room for the first character.
  lemma AskedExactly(w: seq<Unit>, len: int, end: nat)
    requires Readable(w, len) && |Wtf8Text(Source(w, len))| > end
    ensures Asked(Wtf8Text(Source(w, len)), FirstLength(w, len), end) == |Wtf8Text(Source(w, len))|
      <==> end == 0 || FirstLength(w, len) <= end
  {
  }

  // One euro sign, three bytes long, and a buffer of one: four bytes are asked for.
  lemma AskedTooMuch(w: seq<Unit>)
    requires w == [0x20AC]
    ensures Readable(w, 1) && |Wtf8Text(Source(w, 1))| == 3 && Asked(Wtf8Text(Source(w, 1)), FirstLength(w, 1), 1) == 4
  {
    assert Source(w, 1) == w;
    assert w[1..] == [];
    assert CodePoints(w) == [0x20AC];
    assert EncodeEach([0x20AC]) == Encode1(0x20AC) + [];
  }
}
