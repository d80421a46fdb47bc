// uv__idna_toascii and uv__idna_toascii_label of src/idna.c: 32-bit arithmetic, a walking cursor
// over the UTF-8 input and an output buffer that drops what no longer fits.
module Idna {
  import opened Utf8
  import opened Punycode

  const UV_E2BIG := -7
  const UV_EINVAL := -22

  // An unsigned result, reduced as C reduces it.
  function Wrap(x: int): (r: nat)
    ensures 0 <= x <= UINT_MAX ==> r == x
  {
    x % (UINT_MAX + 1)
  }

  // An unsigned value returned as an int.
  function ToInt(x: nat): int {
    if x <= 0x7FFF_FFFF then x else x - (UINT_MAX + 1)
  }

  // ---------------------------------------------------------------------------------------
  // The output buffer: d and de
  // ---------------------------------------------------------------------------------------

  function Clip(s: seq<Byte>, cap: nat): seq<Byte> {
    if |s| <= cap then s else s[..cap]
  }

  class Output {
    const data: array<Byte>
    var pos: nat
    // Everything offered so far, whether it fitted or not.
    ghost var text: seq<Byte>

    ghost predicate Valid()
      reads this, data
    {
      pos <= data.Length && data[..pos] == Clip(text, data.Length)
    }

    constructor (buffer: array<Byte>)
      ensures Valid() && data == buffer && text == []
    {
      data, pos, text := buffer, 0, [];
    }

    // if (*d < de) *(*d)++ = b;
    method Put(b: Byte)
      requires Valid()
      modifies this, data
      ensures Valid() && text == old(text) + [b]
    {
      ghost var before := data[..pos];
      if pos < data.Length {
        data[pos] := b;
        pos := pos + 1;
        assert data[..pos] == before + [b];
      }
      text := text + [b];
    }
  }

  // ---------------------------------------------------------------------------------------
  // The cursor
  // ---------------------------------------------------------------------------------------

  // c = uv__utf8_decode1(&s, se) at character i of a text that decodes.
  method Fetch(s: seq<Byte>, p: nat, ghost cs: seq<nat>, ghost off: seq<nat>, ghost i: nat) returns (c: nat, p': nat)
    requires Tiled(s, cs, off) && i < |cs| && p == off[i]
    ensures c == cs[i] <= 0x10FFFF && p' == off[i + 1]
    ensures p < |s| && p < p' && (i + 1 < |cs| <==> p' < |s|)
  {
    assert Tile(s, cs, off, i);
    assert i + 1 < |cs| ==> Tile(s, cs, off, i + 1);
    var r := Decode1(s[p..]);
    c, p' := r.0, p + r.1;
  }

  lemma Start(s: seq<Byte>, cs: seq<nat>, off: seq<nat>)
    requires Tiled(s, cs, off)
    ensures 0 < |s| <==> 0 < |cs|
  {
    assert 0 < |cs| ==> Tile(s, cs, off, 0);
  }

  // The first pass: how many characters are ASCII and how many are not, if they all decode.
  method Count(s: seq<Byte>) returns (ok: bool, h: nat, todo: nat)
    requires |s| <= UINT_MAX
    ensures ok <==> DecodeAll(s).Some?
    ensures ok ==> h == Below(DecodeAll(s).value, 128) && h + todo == |DecodeAll(s).value|
  {
    var p := 0;
    h, todo := 0, 0;
    assert s[0..] == s;
    while p < |s|
      invariant p <= |s| && h + todo <= p
      invariant DecodeAll(s).Some? <==> DecodeAll(s[p..]).Some?
      invariant DecodeAll(s).Some? ==> h + Below(DecodeAll(s[p..]).value, 128) == Below(DecodeAll(s).value, 128)
      invariant DecodeAll(s).Some? ==> h + todo + |DecodeAll(s[p..]).value| == |DecodeAll(s).value|
    {
      var c;
      c, p := Probe(s, p);
      if c == UINT_MAX {
        return false, h, todo;
      }
      if c < 128 {
        h := Wrap(h + 1);
      } else {
        todo := Wrap(todo + 1);
      }
    }
    ok := true;
  }

  // The same at byte p of any text.
  method Probe(s: seq<Byte>, p: nat) returns (c: nat, p': nat)
    requires p < |s|
    ensures p < p' <= |s| && c <= UINT_MAX
    ensures c == UINT_MAX ==> DecodeAll(s[p..]).None?
    ensures c != UINT_MAX ==> DecodeAll(s[p..]) == if DecodeAll(s[p'..]).None? then None else Some([c] + DecodeAll(s[p'..]).value)
    ensures Decode1(s[p..]) == (c, p' - p) && (c != UINT_MAX ==> c <= 0x10FFFF)
  {
    var r := Decode1(s[p..]);
    c, p' := r.0, p + r.1;
    if c != UINT_MAX {
      assert s[p..][r.1..] == s[p'..];
      Utf8.DecodeStep(s[p..], r.1, c, s[p'..]);
    }
  }

  lemma KeepNone(cs: seq<nat>, n: int)
    requires Below(cs, n) == 0
    ensures Keep(cs, n) == []
  {
  }

  lemma KeepTail(cs: seq<nat>, i: nat, n: int)
    requires i < |cs|
    ensures Keep(cs[i..], n) == (if cs[i] < n then [cs[i]] else []) + Keep(cs[i + 1..], n)
    ensures Below(cs[i..], n) == (if cs[i] < n then 1 else 0) + Below(cs[i + 1..], n)
  {
    assert cs[i..][1..] == cs[i + 1..];
  }

  // Put of the first of the characters that are still to come.
  method PutAhead(b: Byte, out: Output, ghost rest: seq<nat>)
    requires out.Valid()
    modifies out, out.data
    ensures out.Valid() && out.text + rest == old(out.text) + ([b] + rest)
  {
    out.Put(b);
  }

  method PutBasics(s: seq<Byte>, h: nat, out: Output, ghost cs: seq<nat>, ghost off: seq<nat>)
    requires Tiled(s, cs, off) && |cs| <= UINT_MAX && h == Below(cs, 128) && out.Valid()
    modifies out, out.data
    ensures out.Valid() && out.text == old(out.text) + Keep(cs, 128)
  {
    var p: nat, x: nat := 0, 0;
    ghost var i := 0;
    Start(s, cs, off);
    assert cs[0..] == cs;
    while p < |s|
      invariant i <= |cs| && p == off[i] && (p < |s| <==> i < |cs|)
      invariant out.Valid() && x <= i
      invariant x + Below(cs[i..], 128) == h
      invariant out.text + Keep(cs[i..], 128) == old(out.text) + Keep(cs, 128)
      decreases |cs| - i
    {
      KeepTail(cs, i, 128);
      var c;
      c, p := Fetch(s, p, cs, off, i);
      i := i + 1;
      assert p == off[i];
      if c > 127 {
        continue;
      }
      PutAhead(c, out, Keep(cs[i..], 128));
      x := Wrap(x + 1);
      if x == h {
        break;
      }
    }
    KeepNone(cs[i..], 128);
  }

  // The least code point that is at least n.
  method FindNext(s: seq<Byte>, n: nat, ghost cs: seq<nat>, ghost off: seq<nat>) returns (m: nat)
    requires Tiled(s, cs, off)
    ensures m == Lesser(UINT_MAX, Next(cs, n))
  {
    m := UINT_MAX;
    var p := 0;
    ghost var i := 0;
    Start(s, cs, off);
    assert cs[0..] == cs;
    while p < |s|
      invariant i <= |cs| && p == off[i] && (p < |s| <==> i < |cs|)
      invariant Lesser(m, Next(cs[i..], n)) == Lesser(UINT_MAX, Next(cs, n))
      decreases |cs| - i
    {
      assert cs[i..][1..] == cs[i + 1..];
      var c;
      c, p := Fetch(s, p, cs, off, i);
      i := i + 1;
      if c >= n {
        if c < m {
          m := c;
        }
      }
    }
  }

  function Lesser(m: nat, o: Option<nat>): nat {
    if o.Some? && o.value < m then o.value else m
  }

  // ---------------------------------------------------------------------------------------
  // Digits and bias
  // ---------------------------------------------------------------------------------------

  function Ten(j: nat): (t: nat)
    ensures t > 0
  {
    if j == 0 then 1 else 10 * Ten(j - 1)
  }

  lemma CarryTenth(q: nat, t: nat)
    requires 1 <= t <= 26 && q >= t
    ensures Carry(q, t) * 10 <= q
  {
    var y := 36 - t;
    DivMod(q - t, y);
    Tenth(Carry(q, t), y, q);
  }

  lemma Tenth(z: nat, y: nat, q: nat)
    requires z * y <= q && y >= 10
    ensures z * 10 <= q
  {
    assert z * y == z * 10 + z * (y - 10);
    assert z * (y - 10) >= 0;
  }

  lemma TenTimes(z: nat, q: nat, ten: nat)
    requires z * 10 <= q && q * ten <= UINT_MAX
    ensures z * (10 * ten) <= UINT_MAX
  {
    assert (q - z * 10) * ten >= 0;
    assert (q - z * 10) * ten == q * ten - z * 10 * ten;
    assert z * (10 * ten) == z * 10 * ten;
  }

  lemma TenTable()
    ensures Ten(10) == 10000000000
  {
    assert Ten(5) == 100000;
    assert Ten(8) == 1000 * Ten(5);
  }

  lemma FewDigits(q: nat, j: nat)
    requires q >= 1 && q * Ten(j) <= UINT_MAX && j <= 10
    ensures j < 10
  {
    TenTable();
    Product(Ten(j), q);
    assert q * Ten(j) == Ten(j) * q;
  }

  lemma NextDigit(q: nat, t: nat, j: nat)
    requires 1 <= t <= 26 && q >= t && q * Ten(j) <= UINT_MAX && j <= 10
    ensures j < 10 && Carry(q, t) * Ten(j + 1) <= UINT_MAX
  {
    FewDigits(q, j);
    CarryTenth(q, t);
    TenTimes(Carry(q, t), q, Ten(j));
  }

  // The loop over k: delta as a variable-length integer.
  method PutInteger(delta: nat, bias: nat, out: Output)
    requires delta <= UINT_MAX && out.Valid()
    modifies out, out.data
    ensures out.Valid() && out.text == old(out.text) + EncodeInteger(delta, 36, bias)
  {
    var k: nat, q: nat := 36, delta;
    ghost var j := 0;
    while true
      invariant out.Valid() && j <= 10 && k == 36 * (j + 1) && q * Ten(j) <= UINT_MAX && q <= delta
      invariant out.text + EncodeInteger(q, k, bias) == old(out.text) + EncodeInteger(delta, 36, bias)
      decreases q
    {
      var t := Limit(k, bias);
      if q < t {
        break;
      }
      NextDigit(q, t, j);
      q := PutDigit(q, k, t, bias, out, old(out.text) + EncodeInteger(delta, 36, bias));
      k := Wrap(k + 36);
      j := j + 1;
    }
    out.Put(Alphabet(q));
  }

  // One digit; whole is the text with all digits.
  method PutDigit(q: nat, k: nat, t: nat, bias: nat, out: Output, ghost whole: seq<Byte>) returns (carry: nat)
    requires t == Threshold(k, bias) && t <= q <= UINT_MAX && out.Valid() && out.text + EncodeInteger(q, k, bias) == whole
    modifies out, out.data
    ensures out.Valid() && carry == Carry(q, t) < q && out.text + EncodeInteger(carry, k + 36, bias) == whole
  {
    var digit;
    digit, carry := Divide(q, t);
    EncodeStep1(q, k, bias, digit, carry);
    out.Put(Alphabet(digit));
  }

  lemma EncodeStep1(q: nat, k: nat, bias: nat, digit: nat, carry: nat)
    requires q >= Threshold(k, bias) && digit == Digit(q, Threshold(k, bias)) && carry == Carry(q, Threshold(k, bias))
    ensures EncodeInteger(q, k, bias) == [Alphabet(digit)] + EncodeInteger(carry, k + 36, bias)
  {
  }

  method Limit(k: nat, bias: nat) returns (t: nat)
    requires k <= UINT_MAX
    ensures t == Threshold(k, bias)
  {
    t := 1;
    if k > bias {
      t := Wrap(k - bias);
    }
    if t > 26 {
      t := 26;
    }
  }

  method Divide(q: nat, t: nat) returns (digit: nat, carry: nat)
    requires 1 <= t <= 26 && t <= q <= UINT_MAX
    ensures digit == Digit(q, t) < 36 && carry == Carry(q, t) < q
  {
    var x := Wrap(q - t);
    var y := 36 - t;
    DivIs(x, y);
    carry := x / y;
    digit := t + x % y;
  }

  lemma Halves(delta: nat)
    ensures delta / 2 / 350 == delta / 700
  {
  }

  // The adaptation behind a digit string; numpoints is h after h++.
  method AdaptBias(delta0: nat, numpoints: nat, first: bool) returns (bias: nat)
    requires delta0 <= UINT_MAX && numpoints > 0
    ensures bias == Adapt(delta0, numpoints, first)
  {
    var delta := delta0 / 2;
    Halves(delta0);
    if first {
      delta := delta / 350;
    }
    DivIs(delta, numpoints);
    delta := Wrap(delta + delta / numpoints);
    delta, bias := AdaptDown(delta);
    LastShare(delta);
    bias := Wrap(bias + Wrap(36 * delta) / Wrap(delta + 38));
  }

  method AdaptDown(delta0: nat) returns (delta: nat, bias: nat)
    requires delta0 <= UINT_MAX
    ensures (delta, bias) == AdaptLoop(delta0, 0) && bias <= UINT_MAX - 100
  {
    delta, bias := delta0, 0;
    while delta > 455
      invariant (bias == 0 && delta <= delta0) || bias + delta <= delta0 - 400
      invariant AdaptLoop(delta, bias) == AdaptLoop(delta0, 0)
    {
      delta := delta / 35;
      bias := Wrap(bias + 36);
    }
  }

  lemma LastShare(delta: nat)
    requires delta <= 455
    ensures 0 <= 36 * delta / (delta + 38) <= 36
  {
  }

  // ---------------------------------------------------------------------------------------
  // Overflow
  // ---------------------------------------------------------------------------------------

  // Some delta does not fit an unsigned int (section 6.4).
  ghost predicate TooBig(ds: seq<nat>) {
    exists d :: d in ds && d > UINT_MAX
  }

  lemma TooBigFirst(d: nat, ds: seq<nat>)
    ensures TooBig([d] + ds) <==> d > UINT_MAX || TooBig(ds)
  {
    assert d in [d] + ds && forall x :: x in [d] + ds <==> x == d || x in ds;
  }

  lemma TooBigEither(a: seq<nat>, b: seq<nat>)
    ensures TooBig(a + b) <==> TooBig(a) || TooBig(b)
  {
    assert forall x :: x in a + b <==> x in a || x in b;
  }

  lemma {:induction false} ScanGrows(cs: seq<nat>, n: nat, delta: nat)
    requires n in cs
    ensures delta > UINT_MAX ==> TooBig(Scan(cs, n, delta).deltas)
  {
    assert cs == [cs[0]] + cs[1..];
    if cs[0] == n {
      ScanHit(cs, n, delta, []);
      assert delta in Scan(cs, n, delta).deltas;
    } else {
      ScanGrows(cs[1..], n, if cs[0] < n then delta + 1 else delta);
    }
  }

  // The guard before delta is raised to the next code point: exact, and nothing wraps in it.
  lemma GuardIsExact(delta: nat, x: nat, y: nat)
    requires delta <= UINT_MAX && y > 0
    ensures x > (UINT_MAX - delta) / y <==> delta + x * y > UINT_MAX
  {
    var room := UINT_MAX - delta;
    var z := room / y;
    assert room == z * y + room % y;
    if x > z {
      Multiples(z + 1, x, y);
      assert (z + 1) * y == z * y + y;
    } else {
      Multiples(x, z, y);
    }
  }

  lemma Multiples(a: nat, b: nat, y: nat)
    requires a <= b
    ensures a * y <= b * y
  {
    assert b * y == a * y + (b - a) * y;
  }

  // ---------------------------------------------------------------------------------------
  // The walk for one code point
  // ---------------------------------------------------------------------------------------

  method Emit(delta: nat, bias0: nat, h0: nat, first: bool, out: Output) returns (bias: nat, h: nat)
    requires delta <= UINT_MAX && h0 < UINT_MAX && out.Valid()
    modifies out, out.data
    ensures out.Valid() && out.text == old(out.text) + EncodeInteger(delta, 36, bias0)
    ensures h == h0 + 1 && bias == Adapt(delta, h, first)
  {
    PutInteger(delta, bias0, out);
    h := Wrap(h0 + 1);
    bias := AdaptBias(delta, h, first);
  }

  // What one more digit string leaves to be written.
  lemma Emitted(a: seq<Byte>, d: nat, ds: seq<nat>, h: nat, bias: nat, first: bool, bias': nat)
    requires bias' == Adapt(d, h + 1, first)
    ensures a + EncodeInteger(d, 36, bias) + EncodeDeltas(ds, h + 1, bias', false) == a + EncodeDeltas([d] + ds, h, bias, first)
  {
    Punycode.EncodeStep([d] + ds, h, bias, first, bias');
    assert ([d] + ds)[1..] == ds;
  }

  // The code behind the decoding of c: ok is false on overflow.
  method Visit(c: nat, n: nat, delta0: nat, bias0: nat, h0: nat, todo0: nat, first0: bool, out: Output,
               ghost rest: seq<nat>, ghost future: seq<nat>)
    returns (ok: bool, delta: nat, bias: nat, h: nat, todo: nat, first: bool)
    requires delta0 <= UINT_MAX && out.Valid() && (c == n ==> h0 < UINT_MAX && 0 < todo0 <= UINT_MAX)
    modifies out, out.data
    ensures out.Valid()
    ensures !ok <==> c < n && delta0 == UINT_MAX
    ensures ok ==> Carried(c, n, delta0, delta, rest) && h == (if c == n then h0 + 1 else h0) && todo + h == todo0 + h0
    ensures ok ==> (Ahead(out, Scan(rest, n, delta).deltas + future, h, bias, first)
      == old(Ahead(out, Scan([c] + rest, n, delta0).deltas + future, h0, bias0, first0)))
  {
    ok, delta, bias, h, todo, first := true, delta0, bias0, h0, todo0, first0;
    assert ([c] + rest)[1..] == rest;
    if c < n {
      delta := Wrap(delta + 1);
      if delta == 0 {
        ok := false;
      }
    } else if c == n {
      bias, h := Emit(delta, bias, h, first, out);
      first := false;
      delta := 0;
      todo := Wrap(todo - 1);
      ghost var ds := Scan(rest, n, 0).deltas;
      Emitted(old(out.text), delta0, ds + future, h0, bias0, first0, bias);
      ScanHit([c] + rest, n, delta0, []);
      assert [delta0] + ds + future == [delta0] + (ds + future);
    }
  }

  // delta before and behind one character.
  ghost predicate Carried(c: nat, n: nat, delta0: nat, delta: nat, rest: seq<nat>) {
    && delta == (if c < n then delta0 + 1 else if c == n then 0 else delta0) && delta <= UINT_MAX
    && Scan([c] + rest, n, delta0) == (var w := Scan(rest, n, delta); if c == n then Walk([delta0] + w.deltas, w.delta) else w)
  }

  // In the walk over cs for code point n that began with delta0, i characters are done.
  ghost predicate Midway(cs: seq<nat>, i: nat, n: nat, delta0: nat, delta: nat, h: nat, todo: nat) {
    && i <= |cs| && delta <= UINT_MAX && (n in cs[i..] || delta < i)
    && h + Below(cs[i..], n + 1) == Below(cs, n + 1) + Below(cs[i..], n) && todo + h == |cs|
    && (TooBig(Scan(cs[i..], n, delta).deltas) <==> TooBig(Scan(cs, n, delta0).deltas))
    && Scan(cs[i..], n, delta).delta == Scan(cs, n, delta0).delta
  }

  // What has been written and what is still to be written.
  ghost function Ahead(out: Output, ds: seq<nat>, h: nat, bias: nat, first: bool): seq<Byte>
    reads out
  {
    out.text + EncodeDeltas(ds, h, bias, first)
  }

  // One iteration of the inner loop.
  method Step(s: seq<Byte>, p0: nat, n: nat, delta0: nat, bias0: nat, h0: nat, todo0: nat, first0: bool, out: Output,
              ghost cs: seq<nat>, ghost off: seq<nat>, ghost i: nat, ghost deltaStart: nat, ghost future: seq<nat>)
    returns (ok: bool, p: nat, delta: nat, bias: nat, h: nat, todo: nat, first: bool)
    requires Tiled(s, cs, off) && i < |cs| <= UINT_MAX && p0 == off[i] && out.Valid()
    requires Midway(cs, i, n, deltaStart, delta0, h0, todo0)
    modifies out, out.data
    ensures out.Valid()
    ensures !ok ==> TooBig(Scan(cs, n, deltaStart).deltas)
    ensures ok ==> Midway(cs, i + 1, n, deltaStart, delta, h, todo) && p == off[i + 1] && (p < |s| <==> i + 1 < |cs|)
    ensures ok ==> (Ahead(out, Scan(cs[i + 1..], n, delta).deltas + future, h, bias, first)
      == old(Ahead(out, Scan(cs[i..], n, delta0).deltas + future, h0, bias0, first0)))
  {
    BeforeVisit(cs, i, n, h0, delta0);
    var c;
    c, p := Fetch(s, p0, cs, off, i);
    ok, delta, bias, h, todo, first := Visit(c, n, delta0, bias0, h0, todo0, first0, out, cs[i + 1..], future);
    if ok {
      AfterVisit(cs, i, n, delta0, delta);
    }
  }

  // The inner loop over the characters.
  method Round(s: seq<Byte>, n: nat, delta0: nat, bias0: nat, h0: nat, todo0: nat, first0: bool, out: Output,
               ghost cs: seq<nat>, ghost off: seq<nat>, ghost future: seq<nat>)
    returns (ok: bool, delta: nat, bias: nat, h: nat, todo: nat, first: bool)
    requires Tiled(s, cs, off) && |cs| <= UINT_MAX && n in cs && delta0 <= UINT_MAX && out.Valid()
    requires h0 == Below(cs, n) && todo0 + h0 == |cs|
    modifies out, out.data
    ensures out.Valid()
    ensures !ok <==> TooBig(Scan(cs, n, delta0).deltas)
    ensures ok ==> delta == Scan(cs, n, delta0).delta < |cs| && h == Below(cs, n + 1) && todo + h == |cs|
    ensures ok ==> (Ahead(out, future, h, bias, first)
      == old(Ahead(out, Scan(cs, n, delta0).deltas + future, h0, bias0, first0)))
  {
    ok, delta, bias, h, todo, first := true, delta0, bias0, h0, todo0, first0;
    var p := 0;
    ghost var i := 0;
    Start(s, cs, off);
    assert cs[0..] == cs;
    while p < |s|
      invariant i <= |cs| && p == off[i] && (p < |s| <==> i < |cs|)
      invariant out.Valid() && Midway(cs, i, n, delta0, delta, h, todo)
      invariant Ahead(out, Scan(cs[i..], n, delta).deltas + future, h, bias, first)
        == old(Ahead(out, Scan(cs, n, delta0).deltas + future, h0, bias0, first0))
      decreases |cs| - i
    {
      ok, p, delta, bias, h, todo, first := Step(s, p, n, delta, bias, h, todo, first, out, cs, off, i, delta0, future);
      if !ok {
        return;
      }
      i := i + 1;
    }
    assert [] + future == future;
  }

  lemma BeforeVisit(cs: seq<nat>, i: nat, n: nat, h: nat, delta: nat)
    requires i < |cs| && h + Below(cs[i..], n + 1) == Below(cs, n + 1) + Below(cs[i..], n)
    requires |cs| <= UINT_MAX && (n in cs[i..] || delta < i)
    ensures cs[i..] == [cs[i]] + cs[i + 1..]
    ensures h <= |cs| && (cs[i] == n ==> h < |cs|)
    ensures (if cs[i] == n then h + 1 else h) + Below(cs[i + 1..], n + 1) == Below(cs, n + 1) + Below(cs[i + 1..], n)
    ensures cs[i] < n && delta == UINT_MAX ==> TooBig(Scan(cs[i..], n, delta).deltas)
  {
    BelowMonotone(cs[i + 1..], n, n + 1);
    BelowMonotone(cs[i..], n, n + 1);
    if cs[i] < n && delta == UINT_MAX {
      ScanGrows(cs[i + 1..], n, delta + 1);
    }
  }

  lemma AfterVisit(cs: seq<nat>, i: nat, n: nat, delta0: nat, delta: nat)
    requires i < |cs| && cs[i..] == [cs[i]] + cs[i + 1..] && Carried(cs[i], n, delta0, delta, cs[i + 1..])
    requires delta0 <= UINT_MAX && (n in cs[i..] || delta0 < i)
    ensures TooBig(Scan(cs[i + 1..], n, delta).deltas) <==> TooBig(Scan(cs[i..], n, delta0).deltas)
    ensures Scan(cs[i + 1..], n, delta).delta == Scan(cs[i..], n, delta0).delta
    ensures n in cs[i + 1..] || delta < i + 1
  {
    TooBigFirst(delta0, Scan(cs[i + 1..], n, delta).deltas);
  }

  // ---------------------------------------------------------------------------------------
  // The rounds, from one code point to the next
  // ---------------------------------------------------------------------------------------

  lemma {:induction false} BelowAll(cs: seq<nat>, n: int)
    ensures Next(cs, n).None? <==> Below(cs, n) == |cs|
  {
    if cs != [] {
      BelowAll(cs[1..], n);
    }
  }

  // if (x > ~delta / y) return UV_E2BIG; delta += x * y;
  method Raise(delta0: nat, n: nat, m: nat, h: nat) returns (ok: bool, delta: nat)
    requires delta0 <= UINT_MAX && n <= m <= UINT_MAX && h < UINT_MAX
    ensures ok <==> delta0 + Times(m - n, h + 1) <= UINT_MAX
    ensures ok ==> delta == delta0 + Times(m - n, h + 1)
  {
    var x, y := Wrap(m - n), Wrap(h + 1);
    TimesIsProduct(m - n, h + 1);
    GuardIsExact(delta0, x, y);
    if x > (UINT_MAX - delta0) / y {
      return false, delta0;
    }
    ok, delta := true, RaiseBy(delta0, x, y);
  }

  function RaiseBy(delta: nat, x: nat, y: nat): (r: nat)
    ensures delta + x * y <= UINT_MAX ==> r == delta + x * y
  {
    assert x * y >= 0;
    Wrap(delta + Wrap(x * y))
  }

  lemma TooBigRound(cs: seq<nat>, n: nat, delta: nat, m: nat, delta': nat)
    requires Next(cs, n) == Some(m) && delta' == delta + Times(m - n, Below(cs, n) + 1)
    ensures Rounds(cs, n, delta) == Scan(cs, m, delta').deltas + Rounds(cs, m + 1, Scan(cs, m, delta').delta + 1)
    ensures TooBig(Rounds(cs, n, delta)) <==>
      TooBig(Scan(cs, m, delta').deltas) || TooBig(Rounds(cs, m + 1, Scan(cs, m, delta').delta + 1))
    ensures delta' > UINT_MAX ==> TooBig(Rounds(cs, n, delta))
    ensures Below(cs, n) == Below(cs, m) < Below(cs, m + 1)
  {
    RoundsStep(cs, n, delta, m, delta');
    TooBigEither(Scan(cs, m, delta').deltas, Rounds(cs, m + 1, Scan(cs, m, delta').delta + 1));
    ScanGrows(cs, m, delta');
    KeepGap(cs, n, m);
    BelowGrows(cs, m, m);
  }

  // Between two rounds every code point below n is done.
  ghost predicate Between(cs: seq<nat>, n: nat, delta: nat, h: nat, todo: nat) {
    && h == Below(cs, n) && todo + h == |cs| && delta <= |cs| && n <= 0x110000
    && (TooBig(Rounds(cs, n, delta)) <==> TooBig(Deltas(cs)))
  }

  // The search for the next code point and the rise of delta to it.
  method Leap(s: seq<Byte>, n: nat, delta0: nat, h: nat, ghost cs: seq<nat>, ghost off: seq<nat>)
    returns (ok: bool, m: nat, delta: nat)
    requires Tiled(s, cs, off) && |cs| <= UINT_MAX && (forall c :: c in cs ==> c <= 0x10FFFF)
    requires h == Below(cs, n) < |cs| && delta0 <= |cs|
    ensures m in cs && m <= 0x10FFFF && h == Below(cs, m) && Below(cs, n) < Below(cs, m + 1)
    ensures !ok ==> TooBig(Rounds(cs, n, delta0))
    ensures ok ==> delta <= UINT_MAX && Splits(cs, n, delta0, m, delta)
  {
    BelowAll(cs, n);
    m := FindNext(s, n, cs, off);
    ok, delta := Raise(delta0, n, m, h);
    TooBigRound(cs, n, delta0, m, delta0 + Times(m - n, h + 1));
  }

  // The deltas from n on are those of the walk for m and those from m + 1 on.
  ghost predicate Splits(cs: seq<nat>, n: nat, delta0: nat, m: nat, delta: nat) {
    var w := Scan(cs, m, delta);
    var rest := Rounds(cs, m + 1, w.delta + 1);
    Rounds(cs, n, delta0) == w.deltas + rest && (TooBig(Rounds(cs, n, delta0)) <==> TooBig(w.deltas) || TooBig(rest))
  }

  // One iteration of the outer loop.
  method NextRound(s: seq<Byte>, n0: nat, delta0: nat, bias0: nat, h0: nat, todo0: nat, first0: bool, out: Output,
                   ghost cs: seq<nat>, ghost off: seq<nat>)
    returns (ok: bool, n: nat, delta: nat, bias: nat, h: nat, todo: nat, first: bool)
    requires Tiled(s, cs, off) && |cs| <= UINT_MAX && out.Valid() && (forall c :: c in cs ==> c <= 0x10FFFF)
    requires Between(cs, n0, delta0, h0, todo0) && todo0 > 0
    modifies out, out.data
    ensures out.Valid()
    ensures !ok ==> TooBig(Deltas(cs))
    ensures ok ==> Between(cs, n, delta, h, todo) && Below(cs, n0) < Below(cs, n)
    ensures ok ==> (Ahead(out, Rounds(cs, n, delta), h, bias, first)
                    == old(Ahead(out, Rounds(cs, n0, delta0), h0, bias0, first0)))
  {
    bias, h, todo, first := bias0, h0, todo0, first0;
    ok, n, delta := Leap(s, n0, delta0, h0, cs, off);
    if ok {
      ghost var m, rest := n, Rounds(cs, n + 1, Scan(cs, n, delta).delta + 1);
      ok, delta, bias, h, todo, first := Round(s, n, delta, bias, h, todo, first, out, cs, off, rest);
      if ok {
        delta := Wrap(delta + 1);
        n := Wrap(n + 1);
        assert n == m + 1 && Rounds(cs, n, delta) == rest;
      }
    }
  }

  // The outer loop: 0, or UV_E2BIG exactly if some delta does not fit.
  method PutExtended(s: seq<Byte>, h0: nat, todo0: nat, out: Output, ghost cs: seq<nat>, ghost off: seq<nat>) returns (rc: int)
    requires Tiled(s, cs, off) && |cs| <= UINT_MAX && out.Valid() && (forall c :: c in cs ==> c <= 0x10FFFF)
    requires h0 == Below(cs, 128) && todo0 + h0 == |cs|
    modifies out, out.data
    ensures out.Valid()
    ensures rc == if TooBig(Deltas(cs)) then UV_E2BIG else 0
    ensures rc == 0 ==> out.text == old(out.text) + EncodeDeltas(Deltas(cs), h0, 72, true)
  {
    var n: nat, bias: nat, delta: nat, first, h, todo := 128, 72, 0, true, h0, todo0;
    while todo > 0
      invariant out.Valid() && Between(cs, n, delta, h, todo)
      invariant Ahead(out, Rounds(cs, n, delta), h, bias, first) == old(Ahead(out, Deltas(cs), h0, 72, true))
      decreases |cs| - Below(cs, n)
    {
      var ok;
      ok, n, delta, bias, h, todo, first := NextRound(s, n, delta, bias, h, todo, first, out, cs, off);
      if !ok {
        return UV_E2BIG;
      }
    }
    BelowAll(cs, n);
    assert !TooBig([]);
    rc := 0;
  }

  // ---------------------------------------------------------------------------------------
  // One label
  // ---------------------------------------------------------------------------------------

  predicate Ascii(cs: seq<nat>) {
    Below(cs, 128) == |cs|
  }

  // "xn--" and the Punycode, or the label itself.
  function LabelText(cs: seq<nat>): seq<Byte> {
    if Ascii(cs) then Basics(cs) else [120, 110, 45, 45] + Encode(cs)
  }

  // "xn--" stands in front.
  predicate Prefixed(t: seq<nat>) {
    |t| >= 4 && t[..4] == [120, 110, 45, 45]
  }

  // Whoever reads a label decodes what is behind the prefix, if it is there.
  function ReadLabel(t: seq<Byte>): Option<seq<nat>> {
    if Prefixed(t) then Decode(t[4..]) else Some(t)
  }

  // The reader gets the label back exactly if it is not an ASCII label with the prefix already.
  lemma LabelRoundTrip(cs: seq<nat>)
    ensures ReadLabel(LabelText(cs)) == Some(cs) <==> !(Ascii(cs) && Prefixed(cs))
  {
    LabelParted(cs);
    if Ascii(cs) && Prefixed(cs) {
      DecodeShort(LabelText(cs)[4..]);
    }
  }

  lemma LabelParted(cs: seq<nat>)
    ensures if Ascii(cs) then LabelText(cs) == cs
            else Prefixed(LabelText(cs)) && Decode(LabelText(cs)[4..]) == Some(cs)
  {
    if Ascii(cs) {
      BelowAll(cs, 128);
      KeepAll(cs, 128);
    } else {
      RoundTrip(cs);
      assert LabelText(cs)[4..] == Encode(cs);
    }
  }

  ghost function LabelStatus(cs: seq<nat>): int {
    if Ascii(cs) then ToInt(|cs|) else if TooBig(Deltas(cs)) then UV_E2BIG else 0
  }

  method PutPrefix(out: Output)
    requires out.Valid()
    modifies out, out.data
    ensures out.Valid() && out.text == old(out.text) + [120, 110, 45, 45]
  {
    out.Put(120);
    out.Put(110);
    out.Put(45);
    out.Put(45);
  }

  // uv__idna_toascii_label
  method ToAsciiLabel(s: seq<Byte>, out: Output) returns (rc: int)
    requires |s| <= UINT_MAX && out.Valid()
    modifies out, out.data
    ensures out.Valid()
    ensures DecodeAll(s).None? ==> rc == UV_EINVAL
    ensures DecodeAll(s).Some? ==> rc == LabelStatus(DecodeAll(s).value)
    ensures DecodeAll(s).Some? && rc >= 0 ==> out.text == old(out.text) + LabelText(DecodeAll(s).value)
  {
    var ok, h, todo := Count(s);
    if !ok {
      return UV_EINVAL;
    }
    ghost var off := Tiles(s);
    ghost var cs := DecodeAll(s).value;
    rc := PutLabel(s, h, todo, out, cs, off);
  }

  lemma LabelParts(a: seq<Byte>, cs: seq<nat>)
    requires !Ascii(cs)
    ensures a + [120, 110, 45, 45] + Basics(cs) + (if Below(cs, 128) > 0 then [DELIMITER] else [])
            + EncodeDeltas(Deltas(cs), Below(cs, 128), 72, true) == a + LabelText(cs)
  {
    LabelJoin(a, [120, 110, 45, 45], Basics(cs), EncodeDeltas(Deltas(cs), Below(cs, 128), 72, true));
  }

  lemma LabelJoin(a: seq<Byte>, prefix: seq<Byte>, basics: seq<Byte>, digits: seq<Byte>)
    ensures a + prefix + basics + (if |basics| > 0 then [DELIMITER] else []) + digits == a + (prefix + Join(basics, digits))
  {
  }

  method PutLabel(s: seq<Byte>, h: nat, todo: nat, out: Output, ghost cs: seq<nat>, ghost off: seq<nat>) returns (rc: int)
    requires Tiled(s, cs, off) && |cs| <= UINT_MAX && (forall c :: c in cs ==> c <= 0x10FFFF) && out.Valid()
    requires h == Below(cs, 128) && todo + h == |cs|
    modifies out, out.data
    ensures out.Valid() && rc == LabelStatus(cs)
    ensures rc >= 0 ==> out.text == old(out.text) + LabelText(cs)
  {
    if todo > 0 {
      PutPrefix(out);
    }
    PutBasics(s, h, out, cs, off);
    if todo == 0 {
      return ToInt(h);
    }
    ghost var delimiter: seq<Byte> := if h > 0 then [DELIMITER] else [];
    if h > 0 {
      out.Put(DELIMITER);
    }
    assert out.text == old(out.text) + [120, 110, 45, 45] + Basics(cs) + delimiter;
    rc := PutExtended(s, h, todo, out, cs, off);
    LabelParts(old(out.text), cs);
  }

  // ---------------------------------------------------------------------------------------
  // The domain name
  // ---------------------------------------------------------------------------------------

  // The full stop and its three ideographic, fullwidth and halfwidth forms.
  predicate IsDot(c: nat) {
    c == 46 || c == 0x3002 || c == 0xFF0E || c == 0xFF61
  }

  function FirstDot(cs: seq<nat>): (k: nat)
    ensures k <= |cs|
  {
    if cs == [] || IsDot(cs[0]) then 0 else 1 + FirstDot(cs[1..])
  }

  // The encoded labels, with full stops between them.
  function DomainText(cs: seq<nat>): seq<Byte>
    decreases |cs|
  {
    var k := FirstDot(cs);
    if k == |cs| then LabelText(cs) else LabelText(cs[..k]) + [46] + DomainText(cs[k + 1..])
  }

  // ---------------------------------------------------------------------------------------
  // The name is read back
  // ---------------------------------------------------------------------------------------

  function Labels(cs: seq<nat>): (ls: seq<seq<nat>>)
    ensures ls != []
    decreases |cs|
  {
    var k := FirstDot(cs);
    if k == |cs| then [cs] else [cs[..k]] + Labels(cs[k + 1..])
  }

  function FirstStop(t: seq<Byte>): (k: nat)
    ensures k <= |t|
  {
    if t == [] || t[0] == 46 then 0 else 1 + FirstStop(t[1..])
  }

  // The reader takes the name apart at its full stops.
  function ReadLabels(t: seq<Byte>): (ls: seq<Option<seq<nat>>>)
    ensures ls != []
    decreases |t|
  {
    var k := FirstStop(t);
    if k == |t| then [ReadLabel(t)] else [ReadLabel(t[..k])] + ReadLabels(t[k + 1..])
  }

  lemma {:induction false} FirstStopAt(a: seq<Byte>, rest: seq<Byte>)
    requires 46 !in a && (rest == [] || rest[0] == 46)
    ensures FirstStop(a + rest) == |a|
  {
    if a != [] {
      assert (a + rest)[1..] == a[1..] + rest;
      FirstStopAt(a[1..], rest);
    } else {
      assert a + rest == rest;
    }
  }

  lemma NoStopInside(cs: seq<nat>)
    requires forall c :: c in cs ==> !IsDot(c)
    ensures 46 !in LabelText(cs)
  {
    DigitsOnly(Deltas(cs), Below(cs, 128), 72, true);
    assert 46 !in EncodeDeltas(Deltas(cs), Below(cs, 128), 72, true);
    assert forall b :: b in Basics(cs) ==> b in cs;
    assert 46 !in Join(Basics(cs), EncodeDeltas(Deltas(cs), Below(cs, 128), 72, true));
  }

  lemma {:induction false} BeforeFirstDot(cs: seq<nat>)
    ensures forall c :: c in cs[..FirstDot(cs)] ==> !IsDot(c)
  {
    if cs != [] && !IsDot(cs[0]) {
      BeforeFirstDot(cs[1..]);
      assert cs[..FirstDot(cs)] == [cs[0]] + cs[1..][..FirstDot(cs[1..])];
    }
  }

  // What the reader makes of each label.
  function ReadEach(ls: seq<seq<nat>>): (rs: seq<Option<seq<nat>>>)
    ensures |rs| == |ls| && forall i :: 0 <= i < |ls| ==> rs[i] == ReadLabel(LabelText(ls[i]))
  {
    if ls == [] then [] else [ReadLabel(LabelText(ls[0]))] + ReadEach(ls[1..])
  }

  // The stops in the text are those between the labels.
  lemma {:induction false} LabelsApart(cs: seq<nat>)
    ensures ReadLabels(DomainText(cs)) == ReadEach(Labels(cs))
    decreases |cs|
  {
    var k := FirstDot(cs);
    BeforeFirstDot(cs);
    NoStopInside(cs[..k]);
    DomainAt(cs, k);
    LabelsAt(cs, k);
    if k == |cs| {
      assert cs[..k] == cs;
      ReadLast(LabelText(cs));
    } else {
      LabelsApart(cs[k + 1..]);
      ReadStep(LabelText(cs[..k]), DomainText(cs[k + 1..]));
    }
  }

  lemma LabelsAt(cs: seq<nat>, k: nat)
    requires FirstDot(cs) == k
    ensures k == |cs| ==> ReadEach(Labels(cs)) == [ReadLabel(LabelText(cs))]
    ensures k < |cs| ==> ReadEach(Labels(cs)) == [ReadLabel(LabelText(cs[..k]))] + ReadEach(Labels(cs[k + 1..]))
  {
    LabelsUnfold(cs, k);
    if k < |cs| {
      ReadEachMore(cs[..k], Labels(cs[k + 1..]));
    } else {
      ReadEachOne(cs);
    }
  }

  lemma LabelsUnfold(cs: seq<nat>, k: nat)
    requires FirstDot(cs) == k
    ensures Labels(cs) == if k == |cs| then [cs] else [cs[..k]] + Labels(cs[k + 1..])
  {
  }

  lemma ReadEachOne(a: seq<nat>)
    ensures ReadEach([a]) == [ReadLabel(LabelText(a))]
  {
  }

  lemma ReadEachMore(a: seq<nat>, ls: seq<seq<nat>>)
    ensures ReadEach([a] + ls) == [ReadLabel(LabelText(a))] + ReadEach(ls)
  {
    assert ([a] + ls)[1..] == ls;
  }

  lemma ReadLast(a: seq<Byte>)
    requires 46 !in a
    ensures ReadLabels(a) == [ReadLabel(a)]
  {
    FirstStopAt(a, []);
    assert a + [] == a;
  }

  lemma ReadStep(a: seq<Byte>, rest: seq<Byte>)
    requires 46 !in a
    ensures ReadLabels(a + ([46] + rest)) == [ReadLabel(a)] + ReadLabels(rest)
  {
    var t := a + ([46] + rest);
    FirstStopAt(a, [46] + rest);
    assert t[..|a|] == a && t[|a| + 1..] == rest;
  }

  // The labels of the name come back, all of them, exactly if none is an ASCII label with the
  // prefix already.
  lemma DomainRoundTrip(cs: seq<nat>)
    ensures |ReadLabels(DomainText(cs))| == |Labels(cs)|
    ensures (forall i :: 0 <= i < |Labels(cs)| ==> ReadLabels(DomainText(cs))[i] == Some(Labels(cs)[i]))
      <==> (forall i :: 0 <= i < |Labels(cs)| ==> !(Ascii(Labels(cs)[i]) && Prefixed(Labels(cs)[i])))
  {
    LabelsApart(cs);
    forall i | 0 <= i < |Labels(cs)|
      ensures ReadLabel(LabelText(Labels(cs)[i])) == Some(Labels(cs)[i]) <==> !(Ascii(Labels(cs)[i]) && Prefixed(Labels(cs)[i])) {
      LabelRoundTrip(Labels(cs)[i]);
    }
  }

  // A label that has the prefix already is read as something else.
  lemma PrefixedLost(cs: seq<nat>)
    requires cs == [120, 110, 45, 45, 97]
    ensures LabelText(cs) == cs && ReadLabel(LabelText(cs)) != Some(cs)
  {
    LabelParted(cs);
    assert Ascii(cs) && Prefixed(cs);
    LabelRoundTrip(cs);
  }

  // The error of the first label that has one, or 0.
  ghost function DomainError(cs: seq<nat>): (e: int)
    ensures e <= 0
    decreases |cs|
  {
    var k := FirstDot(cs);
    var rc := LabelStatus(cs[..k]);
    if rc < 0 then rc else if k == |cs| then 0 else DomainError(cs[k + 1..])
  }

  // The same of the labels with a dot behind them.
  ghost function DottedError(cs: seq<nat>): (e: int)
    ensures e <= 0
    decreases |cs|
  {
    var k := FirstDot(cs);
    if k == |cs| then 0
    else if LabelStatus(cs[..k]) < 0 then LabelStatus(cs[..k])
    else DottedError(cs[k + 1..])
  }

  lemma {:induction false} DottedFirst(cs: seq<nat>)
    ensures DottedError(cs) < 0 ==> DomainError(cs) == DottedError(cs)
    decreases |cs|
  {
    var k := FirstDot(cs);
    if k < |cs| {
      DottedFirst(cs[k + 1..]);
    }
  }

  lemma {:induction false} FirstDotAt(cs: seq<nat>, k: nat)
    requires k <= |cs| && (forall j :: 0 <= j < k ==> !IsDot(cs[j])) && (k < |cs| ==> IsDot(cs[k]))
    ensures FirstDot(cs) == k
  {
    if k > 0 {
      FirstDotAt(cs[1..], k - 1);
    }
  }

  // The label that starts at a reaches to i, at least.
  ghost predicate InLabel(cs: seq<nat>, a: nat, i: nat) {
    a <= i <= |cs| && forall j :: a <= j < i ==> !IsDot(cs[j])
  }

  lemma DomainAt(cs: seq<nat>, k: nat)
    requires FirstDot(cs) == k
    ensures k == |cs| ==> DomainText(cs) == LabelText(cs)
    ensures k < |cs| ==> DomainText(cs) == LabelText(cs[..k]) + ([46] + DomainText(cs[k + 1..]))
  {
    if k < |cs| {
      DotJoins(LabelText(cs[..k]), DomainText(cs[k + 1..]));
    }
  }

  lemma DotJoins(a: seq<Byte>, b: seq<Byte>)
    ensures a + [46] + b == a + ([46] + b)
  {
  }

  lemma ErrorsAt(cs: seq<nat>, k: nat)
    requires FirstDot(cs) == k
    ensures DomainError(cs) == if LabelStatus(cs[..k]) < 0 then LabelStatus(cs[..k]) else if k < |cs| then DomainError(cs[k + 1..]) else 0
    ensures DottedError(cs) == if k == |cs| then 0 else if LabelStatus(cs[..k]) < 0 then LabelStatus(cs[..k]) else DottedError(cs[k + 1..])
  {
  }

  lemma Rest(cs: seq<nat>, a: nat, i: nat)
    requires a <= i <= |cs|
    ensures cs[a..][..i - a] == cs[a..i]
    ensures i < |cs| ==> cs[a..][i - a + 1..] == cs[i + 1..]
    ensures i == |cs| ==> cs[a..] == cs[a..i]
  {
  }

  lemma LabelEnds(cs: seq<nat>, a: nat, i: nat)
    requires InLabel(cs, a, i) && (i < |cs| ==> IsDot(cs[i]))
    ensures DomainText(cs[a..]) == LabelText(cs[a..i]) + TextAfter(cs, i)
    ensures DomainError(cs[a..]) == if LabelStatus(cs[a..i]) < 0 then LabelStatus(cs[a..i])
                                    else if i < |cs| then DomainError(cs[i + 1..]) else 0
    ensures DottedError(cs[a..]) == if i == |cs| then 0
                                    else if LabelStatus(cs[a..i]) < 0 then LabelStatus(cs[a..i]) else DottedError(cs[i + 1..])
  {
    FirstDotAt(cs[a..], i - a);
    Rest(cs, a, i);
    DomainAt(cs[a..], i - a);
    ErrorsAt(cs[a..], i - a);
  }

  // What is left behind the label that ends at i.
  function TextAfter(cs: seq<nat>, i: nat): seq<Byte>
    requires i <= |cs|
  {
    if i < |cs| then [46] + DomainText(cs[i + 1..]) else []
  }

  // Character i comes next and the current label starts at a; the labels before are written.
  ghost predicate Along(s: seq<Byte>, si: nat, start: nat, text: seq<Byte>, cs: seq<nat>, off: seq<nat>, i: nat, a: nat) {
    && TiledFront(s, cs, off) && InLabel(cs, a, i) && si == off[i] && start == off[a]
    && text + DomainText(cs[a..]) == DomainText(cs)
    && SameErrors(cs, a)
  }

  // No label before a has an error.
  ghost predicate SameErrors(cs: seq<nat>, a: nat)
    requires a <= |cs|
  {
    DomainError(cs[a..]) == DomainError(cs) && DottedError(cs[a..]) == DottedError(cs)
  }

  // The errors are those behind i, if anything is there.
  ghost predicate ErrorsAfter(cs: seq<nat>, i: nat)
    requires i <= |cs|
  {
    if i < |cs| then SameErrors(cs, i + 1) else DomainError(cs) == 0
  }

  lemma Appended(before: seq<Byte>, mid: seq<Byte>, rest: seq<Byte>, tail: seq<Byte>, whole: seq<Byte>)
    requires before + tail == whole && tail == mid + rest
    ensures before + mid + rest == whole
  {
  }

  // The label between two dots, or behind the last one, has been written.
  lemma LabelDone(before: seq<Byte>, rc: int, text: seq<Byte>, cs: seq<nat>, i: nat, a: nat)
    requires InLabel(cs, a, i) && (i < |cs| ==> IsDot(cs[i]))
    requires before + DomainText(cs[a..]) == DomainText(cs) && SameErrors(cs, a)
    requires rc == LabelStatus(cs[a..i]) && (rc >= 0 ==> text == before + LabelText(cs[a..i]))
    ensures rc < 0 ==> rc == DomainError(cs) && (i < |cs| ==> rc == DottedError(cs))
    ensures rc >= 0 ==> text + TextAfter(cs, i) == DomainText(cs) && ErrorsAfter(cs, i)
  {
    LabelEnds(cs, a, i);
    Appended(before, LabelText(cs[a..i]), TextAfter(cs, i), DomainText(cs[a..]), DomainText(cs));
  }

  lemma PartDone(s: seq<Byte>, st: nat, start: nat, before: seq<Byte>, rc: int, text: seq<Byte>,
                 cs: seq<nat>, off: seq<nat>, i: nat, a: nat)
    requires Along(s, st, start, before, cs, off, i, a) && (i < |cs| ==> IsDot(cs[i]))
    requires start <= st <= |s| && Labelled(s[start..st], before, rc, text)
    ensures rc < 0 ==> rc == DomainError(cs) && (i < |cs| ==> rc == DottedError(cs))
    ensures rc >= 0 ==> text + TextAfter(cs, i) == DomainText(cs) && ErrorsAfter(cs, i)
  {
    TiledSlice(s, cs, off, a, i);
    LabelDone(before, rc, text, cs, i, a);
  }

  // What uv__idna_toascii_label promises of a label that decodes.
  ghost predicate Labelled(s: seq<Byte>, before: seq<Byte>, rc: int, text: seq<Byte>) {
    DecodeAll(s).Some? ==>
      rc == LabelStatus(DecodeAll(s).value) && (rc >= 0 ==> text == before + LabelText(DecodeAll(s).value))
  }

  lemma AlongDot(s: seq<Byte>, si: nat, text: seq<Byte>, cs: seq<nat>, off: seq<nat>, i: nat)
    requires TiledFront(s, cs, off) && i < |cs| && si == off[i + 1]
    requires text + TextAfter(cs, i) == DomainText(cs) && ErrorsAfter(cs, i)
    ensures Along(s, si, si, text + [46], cs, off, i + 1, i + 1)
  {
    assert text + ([46] + DomainText(cs[i + 1..])) == text + [46] + DomainText(cs[i + 1..]);
  }

  lemma AlongPlain(s: seq<Byte>, st: nat, start: nat, text: seq<Byte>, cs: seq<nat>, off: seq<nat>, i: nat, a: nat, si: nat)
    requires Along(s, st, start, text, cs, off, i, a) && i < |cs| && !IsDot(cs[i]) && si == off[i + 1]
    ensures Along(s, si, start, text, cs, off, i + 1, a)
  {
  }

  // A character that is read is the next one, and it ends where the one behind it begins; if
  // none is left, the bytes do not decode.
  lemma CharacterAt(s: seq<Byte>, st: nat, start: nat, text: seq<Byte>, cs: seq<nat>, off: seq<nat>, i: nat, a: nat, c: nat, si: nat)
    requires Along(s, st, start, text, cs, off, i, a) && Stops(s, off[|cs|]) && st < |s| && Decode1(s[st..]) == (c, si - st)
    ensures if i < |cs| then c == cs[i] != UINT_MAX && si == off[i + 1] else c == UINT_MAX && DottedError(cs) == 0
  {
    if i < |cs| {
      assert Tile(s, cs, off, i);
    } else {
      LabelEnds(cs, a, i);
    }
  }

  // One iteration: a character is read and, at a dot, the label before it is written.
  method NextCharacter(s: seq<Byte>, si0: nat, start0: nat, out: Output, ghost cs: seq<nat>, ghost off: seq<nat>, ghost i: nat, ghost a0: nat)
    returns (rc: int, si: nat, start: nat, ghost a: nat)
    requires start0 <= si0 < |s| <= UINT_MAX && out.Valid()
    requires Along(s, si0, start0, out.text, cs, off, i, a0) && Stops(s, off[|cs|])
    modifies out, out.data
    ensures out.Valid() && start <= si <= |s| && si0 < si
    ensures rc < 0 ==> rc == Blocked(cs, i)
    ensures rc >= 0 ==> i < |cs| && Along(s, si, start, out.text, cs, off, i + 1, a)
  {
    var c;
    rc, start, a := 0, start0, a0;
    c, si := Probe(s, si0);
    CharacterAt(s, si0, start, out.text, cs, off, i, a, c, si);
    if c == UINT_MAX {
      return UV_EINVAL, si, start, a;
    }
    if !IsDot(c) {
      AlongPlain(s, si0, start0, out.text, cs, off, i, a0, si);
      return;
    }
    rc := PutDotted(s, si0, si, start, out, cs, off, i, a);
    if rc >= 0 {
      start, a := si, i + 1;
    }
  }

  // The loop ends early at character i: at a dot, with the error of the label before it, or at
  // bytes that do not decode, with no error before them.
  ghost function Blocked(cs: seq<nat>, i: nat): int {
    if i < |cs| then DottedError(cs) else if DottedError(cs) < 0 then DottedError(cs) else UV_EINVAL
  }

  // At a dot the label before it is written, and then the dot.
  method PutDotted(s: seq<Byte>, si0: nat, si: nat, start: nat, out: Output, ghost cs: seq<nat>, ghost off: seq<nat>, ghost i: nat, ghost a: nat)
    returns (rc: int)
    requires start <= si0 <= |s| <= UINT_MAX && out.Valid()
    requires Along(s, si0, start, out.text, cs, off, i, a) && i < |cs| && IsDot(cs[i]) && si == off[i + 1]
    modifies out, out.data
    ensures out.Valid()
    ensures rc < 0 ==> rc == DottedError(cs)
    ensures rc >= 0 ==> Along(s, si, si, out.text, cs, off, i + 1, i + 1)
  {
    ghost var before := out.text;
    rc := ToAsciiLabel(s[start..si0], out);
    PartDone(s, si0, start, before, rc, out.text, cs, off, i, a);
    if rc < 0 {
      return;
    }
    AlongDot(s, si, out.text, cs, off, i);
    out.Put(46);
  }

  // The error of a label, UV_EINVAL for lack of space, or the length with the closing NUL.
  ghost function Answer(cs: seq<nat>, cap: nat): int {
    if DomainError(cs) < 0 then DomainError(cs)
    else if |DomainText(cs)| >= cap then UV_EINVAL
    else |DomainText(cs)| + 1
  }

  // The same for any bytes: what does not decode is UV_EINVAL, unless a label that ends before it
  // has an error.
  ghost function Outcome(s: seq<Byte>, cap: nat): int {
    if s == [] then UV_EINVAL
    else if DecodeAll(s).Some? then Answer(DecodeAll(s).value, cap)
    else if DottedError(DecodeFront(s)) < 0 then DottedError(DecodeFront(s))
    else UV_EINVAL
  }

  lemma NothingLeft(s: seq<Byte>, cs: seq<nat>, off: seq<nat>, a: nat)
    requires Tiled(s, cs, off) && a <= |cs|
    ensures off[a] < |s| <==> a < |cs|
    ensures DomainText([]) == [] && DomainError([]) == 0
  {
    assert a < |cs| ==> Tile(s, cs, off, a);
  }

  // What follows the loop: the last label and the NUL.
  method PutLast(s: seq<Byte>, start: nat, out: Output, ghost cs: seq<nat>, ghost off: seq<nat>, ghost a: nat) returns (rc: int)
    requires start <= |s| <= UINT_MAX && out.Valid()
    requires Along(s, |s|, start, out.text, cs, off, |cs|, a)
    modifies out, out.data
    ensures rc == Answer(cs, out.data.Length)
    ensures rc >= 0 ==> rc <= out.data.Length && out.data[..rc] == DomainText(cs) + [0]
  {
    NothingLeft(s, cs, off, a);
    rc := 0;
    if start < |s| {
      ghost var before := out.text;
      rc := ToAsciiLabel(s[start..], out);
      assert s[start..] == s[start..|s|];
      PartDone(s, |s|, start, before, rc, out.text, cs, off, |cs|, a);
    }
    if rc < 0 {
      return;
    }
    assert out.text == DomainText(cs);
    rc := Close(out);
  }

  // if (d >= de) return UV_EINVAL; *d++ = '\0'; return d - ds;
  method Close(out: Output) returns (rc: int)
    requires out.Valid()
    modifies out, out.data
    ensures rc == if |old(out.text)| >= out.data.Length then UV_EINVAL else |old(out.text)| + 1
    ensures rc >= 0 ==> rc <= out.data.Length && out.data[..rc] == old(out.text) + [0]
  {
    var pos := out.pos;
    if pos >= out.data.Length {
      return UV_EINVAL;
    }
    out.data[pos] := 0;
    rc := pos + 1;
  }

  // At the start every character is still to come.
  lemma Begin(s: seq<Byte>) returns (off: seq<nat>)
    ensures Along(s, 0, 0, [], DecodeFront(s), off, 0, 0) && Stops(s, off[|DecodeFront(s)|])
    ensures DecodeAll(s).Some? ==> DecodeAll(s).value == DecodeFront(s)
  {
    off := Fronts(s);
    var cs := DecodeFront(s);
    assert cs[0..] == cs;
    assert [] + DomainText(cs) == DomainText(cs);
  }

  // At the end of the text every character has been read.
  lemma AllRead(s: seq<Byte>, start: nat, text: seq<Byte>, cs: seq<nat>, off: seq<nat>, i: nat, a: nat)
    requires Along(s, |s|, start, text, cs, off, i, a)
    ensures i == |cs|
  {
    assert i < |cs| ==> Tile(s, cs, off, i);
  }

  lemma BlockedAt(s: seq<Byte>, si: nat, start: nat, text: seq<Byte>, cs: seq<nat>, off: seq<nat>, i: nat, a: nat)
    requires Along(s, si, start, text, cs, off, i, a) && Stops(s, off[|cs|]) && si < |s| && Blocked(cs, i) < 0
    ensures DecodeAll(s).None? ==> Blocked(cs, i) == if DottedError(cs) < 0 then DottedError(cs) else UV_EINVAL
    ensures DecodeAll(s).Some? ==> Blocked(cs, i) == DomainError(cs)
  {
    DottedFirst(cs);
  }

  // The loop over the characters: all labels with a dot behind them are written, or rc says why not.
  method PutDottedLabels(s: seq<Byte>, out: Output, ghost cs: seq<nat>, ghost off: seq<nat>) returns (rc: int, start: nat, ghost a: nat)
    requires |s| <= UINT_MAX && out.Valid() && out.text == []
    requires Along(s, 0, 0, [], cs, off, 0, 0) && Stops(s, off[|cs|])
    modifies out, out.data
    ensures out.Valid()
    ensures rc < 0 && DecodeAll(s).None? ==> rc == if DottedError(cs) < 0 then DottedError(cs) else UV_EINVAL
    ensures rc < 0 && DecodeAll(s).Some? ==> rc == DomainError(cs) < 0
    ensures rc >= 0 ==> start <= |s| && Along(s, |s|, start, out.text, cs, off, |cs|, a)
  {
    ghost var i := 0;
    var si: nat := 0;
    rc, start, a := 0, 0, 0;
    while si < |s|
      invariant start <= si <= |s| && out.Valid() && rc >= 0
      invariant i <= |cs| && Along(s, si, start, out.text, cs, off, i, a)
    {
      if Blocked(cs, i) < 0 {
        BlockedAt(s, si, start, out.text, cs, off, i, a);
      }
      rc, si, start, a := NextCharacter(s, si, start, out, cs, off, i, a);
      if rc < 0 {
        return;
      }
      i := i + 1;
    }
    AllRead(s, start, out.text, cs, off, i, a);
  }

  method PutDomain(s: seq<Byte>, out: Output, ghost cs: seq<nat>, ghost off: seq<nat>) returns (rc: int)
    requires |s| <= UINT_MAX && out.Valid() && out.text == []
    requires Along(s, 0, 0, [], cs, off, 0, 0) && Stops(s, off[|cs|])
    modifies out, out.data
    ensures DecodeAll(s).None? ==> rc == if DottedError(cs) < 0 then DottedError(cs) else UV_EINVAL
    ensures DecodeAll(s).Some? ==> rc == Answer(cs, out.data.Length)
    ensures rc >= 0 ==> rc <= out.data.Length && out.data[..rc] == DomainText(cs) + [0]
  {
    var start;
    ghost var a;
    rc, start, a := PutDottedLabels(s, out, cs, off);
    if rc < 0 {
      return;
    }
    rc := PutLast(s, start, out, cs, off, a);
  }

  // uv__idna_toascii: the number of bytes written, the closing NUL among them, or an error.
  method ToAscii(s: seq<Byte>, d: array<Byte>) returns (rc: int)
    requires |s| <= UINT_MAX
    modifies d
    ensures rc == Outcome(s, d.Length)
    ensures rc >= 0 ==> DecodeAll(s).Some? && rc <= d.Length && d[..rc] == DomainText(DecodeAll(s).value) + [0]
  {
    if s == [] {
      return UV_EINVAL;
    }
    var out := new Output(d);
    ghost var off := Begin(s);
    rc := PutDomain(s, out, DecodeFront(s), off);
  }
}
