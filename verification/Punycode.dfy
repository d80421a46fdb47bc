// Punycode over unbounded integers: the encoding of section 6.3 of RFC 3492, its decoding of
// section 6.2, and the proof that the second undoes the first.
module Punycode {
  import opened Utf8

  const DELIMITER: Byte := 45

  // ---------------------------------------------------------------------------------------
  // Division by repeated subtraction
  // ---------------------------------------------------------------------------------------

  function Div(x: nat, y: nat): (q: nat)
    requires y > 0
    ensures q <= x
  {
    if x < y then 0 else 1 + Div(x - y, y)
  }

  function Mod(x: nat, y: nat): (r: nat)
    requires y > 0
    ensures r < y
  {
    if x < y then x else Mod(x - y, y)
  }

  lemma {:induction false} DivMod(x: nat, y: nat)
    requires y > 0
    ensures x == Div(x, y) * y + Mod(x, y)
  {
    if x >= y {
      DivMod(x - y, y);
      assert Div(x, y) * y == Div(x - y, y) * y + y;
    }
  }

  lemma {:induction false} DivModOf(q: nat, y: nat, r: nat)
    requires y > 0 && r < y
    ensures Div(Times(q, y) + r, y) == q && Mod(Times(q, y) + r, y) == r
  {
    if q > 0 {
      DivModOf(q - 1, y, r);
    }
  }

  // n * points.
  function Times(n: nat, points: nat): nat {
    if n == 0 then 0 else Times(n - 1, points) + points
  }

  lemma {:induction false} TimesIsProduct(n: nat, points: nat)
    ensures Times(n, points) == n * points
  {
    if n > 0 {
      TimesIsProduct(n - 1, points);
      assert n * points == (n - 1) * points + points;
    }
  }

  // It is the division that C and the RFC mean.
  lemma DivIs(x: nat, y: nat)
    requires y > 0
    ensures Div(x, y) == x / y && Mod(x, y) == x % y
  {
    DivMod(x, y);
    Quotient(x, Div(x, y), y, Mod(x, y));
  }

  // ---------------------------------------------------------------------------------------
  // Digits and generalized variable-length integers (sections 3.3 and 5)
  // ---------------------------------------------------------------------------------------

  function Alphabet(digit: int): Byte
    requires 0 <= digit < 36
  {
    if digit < 26 then 97 + digit else 48 + digit - 26
  }

  // The value of a digit, or 36 for a character that is none.
  function DigitValue(b: int): (v: nat)
  {
    if 97 <= b <= 122 then b - 97 else if 65 <= b <= 90 then b - 65 else if 48 <= b <= 57 then b - 48 + 26 else 36
  }

  function Threshold(k: nat, bias: nat): (t: nat)
    ensures 1 <= t <= 26
  {
    if k <= bias then 1 else if k >= bias + 26 then 26 else k - bias
  }

  // The digit that stands for q where the threshold is t, and what is left of q.
  function Digit(q: nat, t: nat): (d: nat)
    requires 1 <= t <= 26 && q >= t
    ensures t <= d < 36
  {
    t + Mod(q - t, 36 - t)
  }

  function Carry(q: nat, t: nat): (r: nat)
    requires 1 <= t <= 26 && q >= t
    ensures r < q
  {
    Div(q - t, 36 - t)
  }

  lemma Product(z: nat, y: nat)
    requires y > 0
    ensures z * y >= z
  {
    assert z * y == z * (y - 1) + z;
  }

  function EncodeInteger(q: nat, k: nat, bias: nat): (s: seq<Byte>)
    ensures s != [] && forall b :: b in s ==> DigitValue(b) < 36 && b != DELIMITER
    decreases q
  {
    var t := Threshold(k, bias);
    if q < t then [Alphabet(q)] else [Alphabet(Digit(q, t))] + EncodeInteger(Carry(q, t), k + 36, bias)
  }

  datatype Integer = Integer(value: nat, rest: seq<Byte>) | Bad

  lemma NonNegative(a: nat, b: nat)
    ensures a * b >= 0
  {
  }

  function DecodeInteger(s: seq<Byte>, i: nat, w: nat, k: nat, bias: nat): (r: Integer)
    ensures r.Integer? ==> |r.rest| < |s| && r.value >= i
  {
    if s == [] || DigitValue(s[0]) >= 36 then Bad
    else
      var digit, t := DigitValue(s[0]), Threshold(k, bias);
      NonNegative(digit, w);
      NonNegative(w, 36 - t);
      if digit < t then Integer(i + digit * w, s[1..])
      else DecodeInteger(s[1..], i + digit * w, w * (36 - t), k + 36, bias)
  }

  lemma Horner(i: nat, q: nat, t: nat, w: nat)
    requires 1 <= t <= 26 && q >= t
    ensures i + Digit(q, t) * w + Carry(q, t) * (w * (36 - t)) == i + q * w
  {
    var x, y := q - t, 36 - t;
    var z, r := Div(x, y), Mod(x, y);
    DivMod(x, y);
    Distribute(q, t, z, y, r, w);
  }

  lemma Distribute(q: int, t: int, z: int, y: int, r: int, w: int)
    requires q - t == z * y + r
    ensures (t + r) * w + z * (w * y) == q * w
  {
    assert z * (w * y) == z * y * w;
    assert q * w == (t + r + z * y) * w;
  }

  lemma DecodeDigit(s: seq<Byte>, digit: nat, i: nat, w: nat, k: nat, bias: nat, i': nat, w': nat)
    requires s != [] && DigitValue(s[0]) == digit < 36
    requires i' == i + digit * w && w' == w * (36 - Threshold(k, bias))
    ensures DecodeInteger(s, i, w, k, bias)
         == if digit < Threshold(k, bias) then Integer(i', s[1..]) else DecodeInteger(s[1..], i', w', k + 36, bias)
  {
  }

  lemma {:induction false} IntegerRoundTrip(q: nat, i: nat, w: nat, v: nat, k: nat, bias: nat, rest: seq<Byte>)
    requires v == i + q * w
    ensures DecodeInteger(EncodeInteger(q, k, bias) + rest, i, w, k, bias) == Integer(v, rest)
    decreases q
  {
    var t, s := Threshold(k, bias), EncodeInteger(q, k, bias) + rest;
    var digit := if q < t then q else Digit(q, t);
    var i', w' := NextPlace(i, digit, w, t);
    if q < t {
      assert s[1..] == rest;
      DecodeDigit(s, digit, i, w, k, bias, i', w');
    } else {
      Horner(i, q, t, w);
      assert s[1..] == EncodeInteger(Carry(q, t), k + 36, bias) + rest;
      IntegerRoundTrip(Carry(q, t), i', w', v, k + 36, bias, rest);
      DecodeDigit(s, digit, i, w, k, bias, i', w');
    }
  }

  lemma NextPlace(i: nat, digit: nat, w: nat, t: nat) returns (i': nat, w': nat)
    requires t <= 36
    ensures i' == i + digit * w && w' == w * (36 - t)
  {
    i', w' := i + digit * w, w * (36 - t);
  }

  // ---------------------------------------------------------------------------------------
  // Bias adaptation (section 6.1)
  // ---------------------------------------------------------------------------------------

  // The delta and the bias that the divisions by 35 leave.
  function AdaptLoop(delta: nat, k: nat): (r: (nat, nat))
    ensures r.0 <= 455
  {
    if delta > 455 then AdaptLoop(delta / 35, k + 36) else (delta, k)
  }

  function Adapt(delta: nat, numpoints: nat, firsttime: bool): nat
    requires numpoints > 0
  {
    var d := if firsttime then delta / 700 else delta / 2;
    var r := AdaptLoop(d + Div(d, numpoints), 0);
    r.1 + 36 * r.0 / (r.0 + 38)
  }

  // ---------------------------------------------------------------------------------------
  // Encoding (section 6.3)
  // ---------------------------------------------------------------------------------------

  // The code points below n, in order.
  function Keep(cs: seq<nat>, n: int): (s: seq<nat>)
    ensures |s| == Below(cs, n) && forall c :: c in s ==> c in cs && c < n
  {
    if cs == [] then [] else (if cs[0] < n then [cs[0]] else []) + Keep(cs[1..], n)
  }

  // How many code points are below n.
  function Below(cs: seq<nat>, n: int): (k: nat)
    ensures k <= |cs|
  {
    if cs == [] then 0 else (if cs[0] < n then 1 else 0) + Below(cs[1..], n)
  }

  // The least code point that is at least n, or none.
  function Next(cs: seq<nat>, n: int): (m: Option<nat>)
    ensures m.Some? ==> m.value in cs && m.value >= n && forall c :: c in cs && c >= n ==> c >= m.value
    ensures m.None? ==> forall c :: c in cs ==> c < n
  {
    if cs == [] then None
    else
      assert cs == [cs[0]] + cs[1..];
      var m := Next(cs[1..], n);
      if cs[0] >= n && (m.None? || cs[0] < m.value) then Some(cs[0]) else m
  }

  // One walk over the label for code point n: the deltas it emits, and the delta it ends with.
  datatype Walk = Walk(deltas: seq<nat>, delta: nat)

  function Scan(cs: seq<nat>, n: int, delta: nat): Walk {
    if cs == [] then Walk([], delta)
    else if cs[0] < n then Scan(cs[1..], n, delta + 1)
    else if cs[0] == n then var w := Scan(cs[1..], n, 0); Walk([delta] + w.deltas, w.delta)
    else Scan(cs[1..], n, delta)
  }

  function Rounds(cs: seq<nat>, n: nat, delta: nat): seq<nat>
    decreases |cs| - Below(cs, n)
  {
    match Next(cs, n)
    case None => []
    case Some(m) =>
      var w := Scan(cs, m, delta + Times(m - n, Below(cs, n) + 1));
      BelowGrows(cs, n, m);
      w.deltas + Rounds(cs, m + 1, w.delta + 1)
  }

  lemma {:induction false} BelowMonotone(cs: seq<nat>, n: int, m: int)
    requires n <= m
    ensures Below(cs, n) <= Below(cs, m)
  {
    if cs != [] {
      BelowMonotone(cs[1..], n, m);
    }
  }

  lemma {:induction false} BelowGrows(cs: seq<nat>, n: int, m: int)
    requires m in cs && n <= m
    ensures Below(cs, n) < Below(cs, m + 1)
  {
    BelowMonotone(cs[1..], n, m + 1);
    if cs[0] != m {
      BelowGrows(cs[1..], n, m);
    }
  }

  // Every delta the encoding emits.
  function Deltas(cs: seq<nat>): seq<nat> {
    Rounds(cs, 128, 0)
  }

  function EncodeDeltas(ds: seq<nat>, h: nat, bias: nat, first: bool): seq<Byte> {
    if ds == [] then [] else EncodeInteger(ds[0], 36, bias) + EncodeDeltas(ds[1..], h + 1, Adapt(ds[0], h + 1, first), false)
  }

  // Three parts: the basic code points, a delimiter if there are any, and the digits.
  function Join(basics: seq<Byte>, digits: seq<Byte>): seq<Byte> {
    if basics == [] then digits else basics + [DELIMITER] + digits
  }

  // The ASCII characters of a label.
  function Basics(cs: seq<nat>): (s: seq<Byte>)
    ensures s == Keep(cs, 128)
  {
    var s := Keep(cs, 128);
    assert forall i :: 0 <= i < |s| ==> s[i] in s;
    s
  }

  function Encode(cs: seq<nat>): seq<Byte> {
    Join(Basics(cs), EncodeDeltas(Deltas(cs), Below(cs, 128), 72, true))
  }

  // ---------------------------------------------------------------------------------------
  // Decoding (section 6.2)
  // ---------------------------------------------------------------------------------------

  datatype State = State(n: nat, i: nat, out: seq<nat>)

  // What the decoder does once it has read a delta: i is the new insertion counter.
  function Place(st: State, i: nat): (r: State)
    ensures r.n >= st.n && r.i > 0 && |r.out| == |st.out| + 1
  {
    var points := |st.out| + 1;
    var j := Mod(i, points);
    State(st.n + Div(i, points), j + 1, st.out[..j] + [st.n + Div(i, points)] + st.out[j..])
  }

  function DecodeDeltas(s: seq<Byte>, st: State, bias: nat): Option<seq<nat>>
    decreases |s|
  {
    if s == [] then Some(st.out)
    else
      match DecodeInteger(s, st.i, 1, 36, bias)
      case Bad => None
      case Integer(i, rest) =>
        if Place(st, i).n < 128 then None
        else DecodeDeltas(rest, Place(st, i), Adapt(i - st.i, |st.out| + 1, st.i == 0))
  }

  // The index of the last delimiter, or 0.
  function LastDelimiter(s: seq<Byte>): (d: nat)
    ensures d == 0 || d < |s|
  {
    if s == [] then 0 else if s[|s| - 1] == DELIMITER then |s| - 1 else LastDelimiter(s[..|s| - 1])
  }

  function Decode(s: seq<Byte>): Option<seq<nat>> {
    var d := LastDelimiter(s);
    if exists c :: c in s[..d] && c >= 128 then None
    else DecodeDeltas(if d > 0 then s[d + 1..] else s, State(128, 0, s[..d]), 72)
  }

  // Every code point takes a byte at least.
  lemma {:induction false} DecodeDeltasShort(s: seq<Byte>, st: State, bias: nat)
    ensures DecodeDeltas(s, st, bias).Some? ==> |DecodeDeltas(s, st, bias).value| <= |st.out| + |s|
    decreases |s|
  {
    if s != [] {
      var r := DecodeInteger(s, st.i, 1, 36, bias);
      if r.Integer? {
        DecodeDeltasShort(r.rest, Place(st, r.value), Adapt(r.value - st.i, |st.out| + 1, st.i == 0));
      }
    }
  }

  lemma DecodeShort(s: seq<Byte>)
    ensures Decode(s).Some? ==> |Decode(s).value| <= |s|
  {
    var d := LastDelimiter(s);
    DecodeDeltasShort(if d > 0 then s[d + 1..] else s, State(128, 0, s[..d]), 72);
  }

  // ---------------------------------------------------------------------------------------
  // Decoding undoes encoding
  // ---------------------------------------------------------------------------------------

  // The deltas without their digits.
  function Replay(ds: seq<nat>, st: State): State {
    if ds == [] then st else Replay(ds[1..], Place(st, st.i + ds[0]))
  }

  lemma DecodeStep(s: seq<Byte>, st: State, bias: nat, i: nat, rest: seq<Byte>, bias': nat)
    requires s != [] && DecodeInteger(s, st.i, 1, 36, bias) == Integer(i, rest) && st.n >= 128
    requires i >= st.i && bias' == Adapt(i - st.i, |st.out| + 1, st.i == 0)
    ensures DecodeDeltas(s, st, bias) == DecodeDeltas(rest, Place(st, i), bias')
  {
  }

  lemma EncodeStep(ds: seq<nat>, h: nat, bias: nat, first: bool, bias': nat)
    requires ds != [] && bias' == Adapt(ds[0], h + 1, first)
    ensures EncodeDeltas(ds, h, bias, first) == EncodeInteger(ds[0], 36, bias) + EncodeDeltas(ds[1..], h + 1, bias', false)
  {
  }

  lemma ReplayUnfold(ds: seq<nat>, st: State)
    requires ds != []
    ensures Replay(ds, st) == Replay(ds[1..], Place(st, st.i + ds[0]))
  {
  }

  lemma {:induction false} DecodeReplays(ds: seq<nat>, st: State, bias: nat)
    requires st.n >= 128
    ensures DecodeDeltas(EncodeDeltas(ds, |st.out|, bias, st.i == 0), st, bias) == Some(Replay(ds, st).out)
    decreases |ds|
  {
    if ds != [] {
      ReplayUnfold(ds, st);
      var bias' := DeltaBack(ds, st, bias);
      DecodeReplays(ds[1..], Place(st, st.i + ds[0]), bias');
    }
  }

  // The decoder takes back one delta.
  lemma DeltaBack(ds: seq<nat>, st: State, bias: nat) returns (bias': nat)
    requires ds != [] && st.n >= 128
    ensures var st' := Place(st, st.i + ds[0]);
      && st'.n >= 128 && |st'.out| == |st.out| + 1 && st'.i > 0
      && DecodeDeltas(EncodeDeltas(ds, |st.out|, bias, st.i == 0), st, bias)
         == DecodeDeltas(EncodeDeltas(ds[1..], |st'.out|, bias', false), st', bias')
  {
    bias' := Adapt(ds[0], |st.out| + 1, st.i == 0);
    var rest := EncodeDeltas(ds[1..], |st.out| + 1, bias', false);
    EncodeStep(ds, |st.out|, bias, st.i == 0, bias');
    IntegerRoundTrip(ds[0], st.i, 1, st.i + ds[0], 36, bias, rest);
    DecodeStep(EncodeInteger(ds[0], 36, bias) + rest, st, bias, st.i + ds[0], rest, bias');
  }

  // Where the encoder is: in its walk for code point n it has pos handled code points behind it,
  // and its delta leads there from the decoder's state.
  predicate At(st: State, delta: nat, n: nat, pos: nat) {
    pos <= |st.out| && Times(st.n, |st.out| + 1) + st.i + delta == Times(n, |st.out| + 1) + pos
  }

  lemma PlaceAt(st: State, delta: nat, n: nat, pos: nat)
    requires At(st, delta, n, pos)
    ensures Place(st, st.i + delta) == State(n, pos + 1, st.out[..pos] + [n] + st.out[pos..])
  {
    var points := |st.out| + 1;
    TimesGap(st.n, n, points, st.i + delta, pos);
    DivModOf(n - st.n, points, pos);
  }

  lemma TimesGap(a: nat, b: nat, points: nat, i: nat, pos: nat)
    requires Times(a, points) + i == Times(b, points) + pos && pos < points
    ensures a <= b && i == Times(b - a, points) + pos
    decreases a
  {
    if a > 0 && b > 0 {
      TimesGap(a - 1, b - 1, points, i, pos);
    }
  }

  lemma Bound(x: int, d: nat)
    ensures x >= 1 ==> x * d >= d
    ensures x <= -1 ==> x * d + d <= 0
  {
    if x >= 1 {
      Product(d, x);
    } else if x <= -1 {
      var y: nat := -x;
      Product(d, y);
      assert x * d + y * d == 0;
    }
  }

  lemma Quotient(i: nat, q: int, d: nat, r: nat)
    requires i == q * d + r && r < d
    ensures i / d == q && i % d == r
  {
    var q', r' := i / d, i % d;
    assert i == q' * d + r';
    assert (q - q') * d == q * d - q' * d;
    Bound(q - q', d);
  }

  lemma ReplayStep(d: nat, ds: seq<nat>, rest: seq<nat>, st: State)
    ensures Replay([d] + ds + rest, st) == Replay(ds + rest, Place(st, st.i + d))
  {
    ReplayFirst([d] + ds + rest, d, ds + rest, st);
  }

  lemma ReplayFirst(all: seq<nat>, d: nat, ds: seq<nat>, st: State)
    requires all == [d] + ds
    ensures Replay(all, st) == Replay(ds, Place(st, st.i + d))
  {
    assert all[1..] == ds;
  }

  lemma ScanHit(t: seq<nat>, n: int, delta: nat, rest: seq<nat>)
    requires t != [] && t[0] == n
    ensures Scan(t, n, delta).deltas == [delta] + Scan(t[1..], n, 0).deltas
    ensures Scan(t, n, delta).delta == Scan(t[1..], n, 0).delta
  {
  }

  lemma KeepFirst(p: seq<nat>, t: seq<nat>, n: int)
    requires t != []
    ensures p + Keep(t, n) == if t[0] < n then p + [t[0]] + Keep(t[1..], n) else p + Keep(t[1..], n)
  {
    KeepStep(t, n);
    Prepend(p, t[0], Keep(t[1..], n));
  }

  lemma KeepStep(t: seq<nat>, n: int)
    requires t != []
    ensures Keep(t, n) == if t[0] < n then [t[0]] + Keep(t[1..], n) else Keep(t[1..], n)
  {
  }

  lemma Prepend(p: seq<nat>, c: nat, t: seq<nat>)
    ensures p + ([c] + t) == p + [c] + t
  {
  }

  // One walk of the encoder, over t behind the handled code points p.
  lemma {:induction false} ScanReplays(p: seq<nat>, t: seq<nat>, n: nat, delta: nat, st: State, rest: seq<nat>) returns (st': State)
    requires st.out == p + Keep(t, n) && At(st, delta, n, |p|) && st.n >= 128 && n >= 128
    ensures Replay(Scan(t, n, delta).deltas + rest, st) == Replay(rest, st')
    ensures st'.out == p + Keep(t, n + 1) && At(st', Scan(t, n, delta).delta, n, |st'.out|) && st'.n >= 128
    decreases |t|
  {
    if t == [] {
      st' := st;
      assert Scan(t, n, delta).deltas + rest == rest;
    } else {
      KeepFirst(p, t, n);
      KeepFirst(p, t, n + 1);
      if t[0] < n {
        ScanMiss(t, n, delta);
        st' := ScanReplays(p + [t[0]], t[1..], n, delta + 1, st, rest);
      } else if t[0] == n {
        var mid := HitPlaces(p, t, n, delta, st);
        HitReplays(t, n, delta, st, rest);
        st' := ScanReplays(p + [n], t[1..], n, 0, mid, rest);
      } else {
        ScanMiss(t, n, delta);
        st' := ScanReplays(p, t[1..], n, delta, st, rest);
      }
    }
  }

  lemma ScanMiss(t: seq<nat>, n: nat, delta: nat)
    requires t != [] && t[0] != n
    ensures Scan(t, n, delta) == Scan(t[1..], n, if t[0] < n then delta + 1 else delta)
  {
  }

  lemma HitPlaces(p: seq<nat>, t: seq<nat>, n: nat, delta: nat, st: State) returns (mid: State)
    requires t != [] && t[0] == n && st.out == p + Keep(t[1..], n) && At(st, delta, n, |p|) && st.n >= 128
    ensures mid == Place(st, st.i + delta) && mid.out == p + [n] + Keep(t[1..], n)
    ensures At(mid, 0, n, |p| + 1) && mid.n == n
  {
    PlaceAt(st, delta, n, |p|);
    mid := Place(st, st.i + delta);
    assert st.out[..|p|] == p && st.out[|p|..] == Keep(t[1..], n);
  }

  lemma HitReplays(t: seq<nat>, n: nat, delta: nat, st: State, rest: seq<nat>)
    requires t != [] && t[0] == n
    ensures Replay(Scan(t, n, delta).deltas + rest, st) == Replay(Scan(t[1..], n, 0).deltas + rest, Place(st, st.i + delta))
    ensures Scan(t, n, delta).delta == Scan(t[1..], n, 0).delta
  {
    ScanHit(t, n, delta, rest);
    ReplayStep(delta, Scan(t[1..], n, 0).deltas, rest, st);
  }

  lemma {:induction false} KeepGap(cs: seq<nat>, n: int, m: int)
    requires n <= m && forall c :: c in cs && c >= n ==> c >= m
    ensures Keep(cs, n) == Keep(cs, m)
  {
    if cs != [] {
      assert cs[0] in cs && forall c :: c in cs[1..] ==> c in cs;
      KeepGap(cs[1..], n, m);
    }
  }

  lemma {:induction false} KeepAll(cs: seq<nat>, n: int)
    requires forall c :: c in cs ==> c < n
    ensures Keep(cs, n) == cs
  {
    if cs != [] {
      assert cs[0] in cs && forall c :: c in cs[1..] ==> c in cs;
      KeepAll(cs[1..], n);
    }
  }

  lemma AtSkip(st: State, delta: nat, n: nat, m: nat)
    requires At(st, delta, n, 0) && n <= m
    ensures At(st, delta + Times(m - n, |st.out| + 1), m, 0)
  {
    var points := |st.out| + 1;
    TimesIsProduct(n, points);
    TimesIsProduct(m, points);
    TimesIsProduct(m - n, points);
    assert (m - n) * points == m * points - n * points;
  }

  lemma AtNext(st: State, delta: nat, n: nat)
    requires At(st, delta, n, |st.out|)
    ensures At(st, delta + 1, n + 1, 0)
  {
  }

  lemma RoundsStep(cs: seq<nat>, n: nat, delta: nat, m: nat, delta': nat)
    requires Next(cs, n) == Some(m) && delta' == delta + Times(m - n, Below(cs, n) + 1)
    ensures Rounds(cs, n, delta) == Scan(cs, m, delta').deltas + Rounds(cs, m + 1, Scan(cs, m, delta').delta + 1)
  {
  }

  lemma {:induction false} RoundsReplay(cs: seq<nat>, n: nat, delta: nat, st: State)
    requires st.out == Keep(cs, n) && At(st, delta, n, 0) && st.n >= 128 && n >= 128
    ensures Replay(Rounds(cs, n, delta), st).out == cs
    decreases |cs| - Below(cs, n)
  {
    match Next(cs, n)
    case None =>
      KeepAll(cs, n);
    case Some(m) =>
      var delta', st' := RoundReplays(cs, n, delta, m, st);
      RoundsReplay(cs, m + 1, delta', st');
  }

  // The deltas of one round lead to the state in which the next one starts.
  lemma RoundReplays(cs: seq<nat>, n: nat, delta: nat, m: nat, st: State) returns (delta': nat, st': State)
    requires st.out == Keep(cs, n) && At(st, delta, n, 0) && st.n >= 128 && n >= 128 && Next(cs, n) == Some(m)
    ensures st'.out == Keep(cs, m + 1) && At(st', delta', m + 1, 0) && st'.n >= 128 && m >= n
    ensures Below(cs, n) < Below(cs, m + 1)
    ensures Replay(Rounds(cs, n, delta), st) == Replay(Rounds(cs, m + 1, delta'), st')
  {
    var skipped := SkipTo(cs, n, delta, m, st);
    delta' := Scan(cs, m, skipped).delta + 1;
    st' := WalkReplays(cs, m, skipped, st, Rounds(cs, m + 1, delta'));
  }

  // A whole walk for code point m.
  lemma WalkReplays(cs: seq<nat>, m: nat, delta: nat, st: State, rest: seq<nat>) returns (st': State)
    requires st.out == Keep(cs, m) && At(st, delta, m, 0) && st.n >= 128 && m >= 128
    ensures Replay(Scan(cs, m, delta).deltas + rest, st) == Replay(rest, st')
    ensures st'.out == Keep(cs, m + 1) && At(st', Scan(cs, m, delta).delta + 1, m + 1, 0) && st'.n >= 128
  {
    assert [] + Keep(cs, m) == Keep(cs, m);
    assert [] + Keep(cs, m + 1) == Keep(cs, m + 1);
    st' := ScanReplays([], cs, m, delta, st, rest);
    AtNext(st', Scan(cs, m, delta).delta, m);
  }

  lemma SkipTo(cs: seq<nat>, n: nat, delta: nat, m: nat, st: State) returns (delta': nat)
    requires st.out == Keep(cs, n) && At(st, delta, n, 0) && Next(cs, n) == Some(m)
    ensures st.out == Keep(cs, m) && At(st, delta', m, 0) && Below(cs, n) < Below(cs, m + 1)
    ensures Rounds(cs, n, delta) == Scan(cs, m, delta').deltas + Rounds(cs, m + 1, Scan(cs, m, delta').delta + 1)
  {
    delta' := delta + Times(m - n, |st.out| + 1);
    KeepGap(cs, n, m);
    AtSkip(st, delta, n, m);
    BelowGrows(cs, n, m);
    RoundsStep(cs, n, delta, m, delta');
  }

  lemma {:induction false} NoDelimiter(a: seq<Byte>, b: seq<Byte>)
    requires DELIMITER !in b
    ensures LastDelimiter(a + [DELIMITER] + b) == |a| && LastDelimiter(b) == 0
    decreases |b|
  {
    var s := a + [DELIMITER] + b;
    if b == [] {
      assert s[|s| - 1] == DELIMITER;
    } else {
      var c := b[..|b| - 1];
      assert s[..|s| - 1] == a + [DELIMITER] + c;
      NoDelimiter(a, c);
    }
  }

  lemma {:induction false} DigitsOnly(ds: seq<nat>, h: nat, bias: nat, first: bool)
    ensures DELIMITER !in EncodeDeltas(ds, h, bias, first)
    ensures forall b :: b in EncodeDeltas(ds, h, bias, first) ==> DigitValue(b) < 36
  {
    if ds != [] {
      DigitsOnly(ds[1..], h + 1, Adapt(ds[0], h + 1, first), false);
    }
  }

  // Section 6.2 undoes section 6.3.
  lemma RoundTrip(cs: seq<nat>)
    ensures Decode(Encode(cs)) == Some(cs)
  {
    var ds, st := Deltas(cs), State(128, 0, Basics(cs));
    DigitsOnly(ds, Below(cs, 128), 72, true);
    DecodeReplays(ds, st, 72);
    RoundsReplay(cs, 128, 0, st);
    DecodeParts(Basics(cs), EncodeDeltas(ds, Below(cs, 128), 72, true));
  }

  lemma DecodeParts(basics: seq<Byte>, digits: seq<Byte>)
    requires DELIMITER !in digits && forall c :: c in basics ==> c < 128
    ensures Decode(Join(basics, digits)) == DecodeDeltas(digits, State(128, 0, basics), 72)
  {
    NoDelimiter(basics, digits);
    var s := basics + [DELIMITER] + digits;
    assert digits[..0] == [];
    if basics != [] {
      assert s[..|basics|] == basics && s[|basics| + 1..] == digits;
    }
  }
}
