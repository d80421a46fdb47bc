// Internet addresses as text: what src/inet.c prints and what it accepts, and the proof that it
// reads back every address it prints.
module Inet {

  type Byte = x: int | 0 <= x < 256
  type Word = x: int | 0 <= x < 0x10000

  datatype Option<T> = None | Some(value: T)

  // ---------------------------------------------------------------------------------------
  // Numbers
  // ---------------------------------------------------------------------------------------

  const DIGITS := "0123456789abcdef"

  // %u
  function Decimal(n: nat): (s: string)
    ensures s != []
  {
    if n < 10 then [DIGITS[n]] else Decimal(n / 10) + [DIGITS[n % 10]]
  }

  // %x
  function Hex(n: nat): (s: string)
    ensures s != []
  {
    if n < 16 then [DIGITS[n]] else Hex(n / 16) + [DIGITS[n % 16]]
  }

  function DecimalValue(c: char): int {
    if '0' <= c <= '9' then c as int - '0' as int else -1
  }

  function HexValue(c: char): int {
    if '0' <= c <= '9' then c as int - '0' as int
    else if 'a' <= c <= 'f' then c as int - 'a' as int + 10
    else if 'A' <= c <= 'F' then c as int - 'A' as int + 10
    else -1
  }

  // ---------------------------------------------------------------------------------------
  // IPv4
  // ---------------------------------------------------------------------------------------

  // The octets with dots between them.
  function Dotted(d: seq<Byte>): string {
    if d == [] then "" else if |d| == 1 then Decimal(d[0]) else Decimal(d[0]) + "." + Dotted(d[1..])
  }

  // inet_pton4, at the text that is left: the octets before the current one, its value, and
  // whether a digit of it has been seen.
  function Pton4From(s: string, done: seq<Byte>, cur: Byte, saw: bool): (r: Option<seq<Byte>>)
    requires |done| < 4 && (!saw ==> cur == 0)
    ensures r.Some? ==> |r.value| == 4
  {
    if s == [] then
      if saw && |done| == 3 then Some(done + [cur]) else None
    else if DecimalValue(s[0]) >= 0 then
      var nw := cur * 10 + DecimalValue(s[0]);
      if (saw && cur == 0) || nw > 255 then None else Pton4From(s[1..], done, nw, true)
    else if s[0] == '.' && saw then
      if |done| == 3 then None else Pton4From(s[1..], done + [cur], 0, false)
    else None
  }

  function Pton4(s: string): (r: Option<seq<Byte>>)
    ensures r.Some? ==> |r.value| == 4
  {
    Pton4From(s, [], 0, false)
  }

  // What has been read of the text, given the state.
  function Seen4(done: seq<Byte>, cur: Byte, saw: bool): string {
    (if done == [] then "" else Dotted(done) + ".") + (if saw then Decimal(cur) else "")
  }

  lemma {:induction false} DottedAppend(d: seq<Byte>, b: Byte)
    ensures Dotted(d + [b]) == (if d == [] then "" else Dotted(d) + ".") + Decimal(b)
  {
    if |d| > 1 {
      DottedAppend(d[1..], b);
      assert (d + [b])[1..] == d[1..] + [b];
    } else if |d| == 1 {
      assert (d + [b])[1..] == [b];
    }
  }

  lemma DigitStep(done: seq<Byte>, cur: Byte, saw: bool, c: char)
    requires DecimalValue(c) >= 0 && !(saw && cur == 0) && (!saw ==> cur == 0) && cur * 10 + DecimalValue(c) < 256
    ensures Seen4(done, cur * 10 + DecimalValue(c), true) == Seen4(done, cur, saw) + [c]
  {
    var v := DecimalValue(c);
    DigitChar(c);
    assert (cur * 10 + v) / 10 == cur && (cur * 10 + v) % 10 == v;
  }

  lemma DotStep(done: seq<Byte>, cur: Byte)
    ensures Seen4(done + [cur], 0, false) == Seen4(done, cur, true) + "."
  {
    DottedAppend(done, cur);
  }

  lemma DigitChar(c: char)
    ensures DecimalValue(c) >= 0 ==> DIGITS[DecimalValue(c)] == c
  {
  }

  lemma Onward(a: string, s: string, b: string, t: string)
    requires s != [] && b == a + [s[0]] && b + s[1..] == t
    ensures a + s == t
  {
  }

  // A text that is accepted is the printed form of its octets: no other spelling is.
  lemma {:induction false} Pton4Sound(s: string, done: seq<Byte>, cur: Byte, saw: bool)
    requires |done| < 4 && (!saw ==> cur == 0) && Pton4From(s, done, cur, saw).Some?
    ensures Seen4(done, cur, saw) + s == Dotted(Pton4From(s, done, cur, saw).value)
  {
    var text := Dotted(Pton4From(s, done, cur, saw).value);
    if s == [] {
      DottedAppend(done, cur);
    } else if DecimalValue(s[0]) >= 0 {
      var nw := cur * 10 + DecimalValue(s[0]);
      Pton4Sound(s[1..], done, nw, true);
      DigitStep(done, cur, saw, s[0]);
      Onward(Seen4(done, cur, saw), s, Seen4(done, nw, true), text);
    } else {
      Pton4Sound(s[1..], done + [cur], 0, false);
      DotStep(done, cur);
      Onward(Seen4(done, cur, saw), s, Seen4(done + [cur], 0, false), text);
    }
  }

  lemma Pton4Digit(s: string, rest: string, done: seq<Byte>, cur: Byte, saw: bool, v: nat)
    requires |done| < 4 && (!saw ==> cur == 0) && !(saw && cur == 0) && v < 10 && cur * 10 + v < 256
    requires s == [DIGITS[v]] + rest
    ensures Pton4From(s, done, cur, saw) == Pton4From(rest, done, cur * 10 + v, true)
  {
    assert s[1..] == rest;
  }

  lemma Pton4Dot(s: string, rest: string, done: seq<Byte>, cur: Byte)
    requires |done| < 3 && s == "." + rest
    ensures Pton4From(s, done, cur, true) == Pton4From(rest, done + [cur], 0, false)
  {
    assert s[1..] == rest;
  }

  // The digits of a number are read back.
  lemma {:induction false} Pton4Reads(n: Byte, rest: string, done: seq<Byte>)
    requires |done| < 4
    ensures Pton4From(Decimal(n) + rest, done, 0, false) == Pton4From(rest, done, n, true)
    decreases n
  {
    if n < 10 {
      Pton4Digit(Decimal(n) + rest, rest, done, 0, false, n);
    } else {
      var q, v := n / 10, n % 10;
      var tail := [DIGITS[v]] + rest;
      assert Decimal(n) + rest == Decimal(q) + tail;
      Pton4Reads(q, tail, done);
      Pton4Digit(tail, rest, done, q, true, v);
    }
  }

  // The same, where a dot and another number follow.
  lemma Pton4Octet(n: Byte, rest: string, done: seq<Byte>)
    requires |done| < 3
    ensures Pton4From(Decimal(n) + "." + rest, done, 0, false) == Pton4From(rest, done + [n], 0, false)
  {
    Pton4Reads(n, "." + rest, done);
    assert Decimal(n) + ("." + rest) == Decimal(n) + "." + rest;
    Pton4Dot("." + rest, rest, done, n);
  }

  lemma Pton4Last(n: Byte, done: seq<Byte>)
    requires |done| == 3
    ensures Pton4From(Decimal(n), done, 0, false) == Some(done + [n])
  {
    Pton4Reads(n, "", done);
    assert Decimal(n) + "" == Decimal(n);
  }

  lemma {:induction false} Pton4Complete(d: seq<Byte>, done: seq<Byte>)
    requires d != [] && |done| + |d| == 4
    ensures Pton4From(Dotted(d), done, 0, false) == Some(done + d)
    decreases |d|
  {
    if |d| == 1 {
      Pton4Last(d[0], done);
      assert d == [d[0]];
    } else {
      Pton4Complete(d[1..], done + [d[0]]);
      Pton4Octet(d[0], Dotted(d[1..]), done);
      assert done + [d[0]] + d[1..] == done + d;
    }
  }

  // inet_pton4 accepts exactly what inet_ntop4 prints.
  lemma Pton4Exactly(s: string, d: seq<Byte>)
    ensures Pton4(s) == Some(d) <==> |d| == 4 && s == Dotted(d)
  {
    if Pton4(s) == Some(d) {
      Pton4Sound(s, [], 0, false);
      assert Seen4([], 0, false) + s == s;
    } else if |d| == 4 {
      Pton4Complete(d, []);
      assert [] + d == d;
    }
  }

  // ---------------------------------------------------------------------------------------
  // IPv6: the printed form
  // ---------------------------------------------------------------------------------------

  function WordBytes(w: Word): (b: seq<Byte>)
    ensures |b| == 2
  {
    [w / 256, w % 256]
  }

  // The two bytes of each word.
  function BytesOf(ws: seq<Word>): (b: seq<Byte>)
    ensures |b| == 2 * |ws|
  {
    if ws == [] then [] else WordBytes(ws[0]) + BytesOf(ws[1..])
  }

  // Words in hexadecimal with colons between them.
  function Colons(ws: seq<Word>): string {
    if ws == [] then "" else if |ws| == 1 then Hex(ws[0]) else Hex(ws[0]) + ":" + Colons(ws[1..])
  }

  // The words from base to base + len are zero.
  predicate ZeroRun(ws: seq<Word>, base: int, len: int) {
    0 <= base && 0 <= len && base + len <= |ws| && forall i :: base <= i < base + len ==> ws[i] == 0
  }

  datatype Run = Run(base: int, len: int)

  // The leftmost longest run of at least two zero words (section 4.2 of RFC 5952), or base -1.
  ghost predicate IsBest(ws: seq<Word>, best: Run) {
    if best.base == -1 then forall b, l :: ZeroRun(ws, b, l) ==> l < 2
    else
      && best.len >= 2 && ZeroRun(ws, best.base, best.len)
      && (forall b, l :: ZeroRun(ws, b, l) ==> l <= best.len)
      && (forall b, l :: ZeroRun(ws, b, l) && l == best.len ==> best.base <= b)
  }

  // An IPv4 address in IPv6 form: all zero before it, or a mapped one.
  predicate Embeds4(ws: seq<Word>, best: Run)
    requires |ws| == 8
  {
    best.base == 0 && (best.len == 6 || (best.len == 5 && ws[5] == 0xFFFF))
  }

  // The words before the :: and it.
  function Head(ws: seq<Word>, y: string): string {
    Colons(ws) + "::" + y
  }

  // The text of an address with the given run left out (section 2.2 of RFC 4291).
  function Text(ws: seq<Word>, best: Run): string
    requires |ws| == 8 && (best.base == -1 || ZeroRun(ws, best.base, best.len))
  {
    if best.base == -1 then Colons(ws)
    else if Embeds4(ws, best) then
      "::" + (if best.len == 6 then "" else "ffff:") + Dotted(BytesOf(ws[6..]))
    else Head(ws[..best.base], Colons(ws[best.base + best.len..]))
  }

  // ---------------------------------------------------------------------------------------
  // IPv6: the accepted form
  // ---------------------------------------------------------------------------------------

  // The bytes stored, where the :: was, and the digits of the current word.
  datatype State = State(bytes: seq<Byte>, colon: int, seen: nat, val: nat)

  predicate Sane(st: State) {
    |st.bytes| <= 16 && -1 <= st.colon <= |st.bytes| && st.seen <= 4 && st.val < Power16(st.seen)
  }

  function Power16(n: nat): (p: nat)
    ensures p > 0
  {
    if n == 0 then 1 else 16 * Power16(n - 1)
  }

  // *tp++ = val >> 8; *tp++ = val & 0xff; if there is room.
  function StoreWord(st: State): (r: Option<State>)
    requires Sane(st)
    ensures r.Some? ==> Sane(r.value)
  {
    if |st.bytes| + 2 > 16 then None
    else Some(State(st.bytes + [st.val / 256 % 256, st.val % 256], st.colon, 0, 0))
  }

  // What follows the loop: the bytes behind the :: move to the end.
  function Close(st: State): (r: Option<seq<Byte>>)
    requires Sane(st)
    ensures r.Some? ==> |r.value| == 16
  {
    if st.colon >= 0 then
      if |st.bytes| == 16 then None
      else Some(st.bytes[..st.colon] + Zeros(16 - |st.bytes|) + st.bytes[st.colon..])
    else if |st.bytes| == 16 then Some(st.bytes) else None
  }

  function Zeros(n: nat): seq<Byte> {
    seq(n, i => 0)
  }

  function Finish(st: State): (r: Option<seq<Byte>>)
    requires Sane(st)
    ensures r.Some? ==> |r.value| == 16
  {
    if st.seen > 0 then
      if StoreWord(st).None? then None else Close(StoreWord(st).value)
    else Close(st)
  }

  // inet_pton6 behind the leading colons: s is the text that is left and token where the current word began.
  function Pton6From(s: string, token: string, st: State): (r: Option<seq<Byte>>)
    requires Sane(st)
    ensures r.Some? ==> |r.value| == 16
    decreases |s|
  {
    if s == [] then Finish(st)
    else if HexValue(s[0]) >= 0 then
      if st.seen == 4 then None
      else Pton6From(s[1..], token, State(st.bytes, st.colon, st.seen + 1, st.val * 16 + HexValue(s[0])))
    else if s[0] == ':' then
      if st.seen == 0 then
        if st.colon >= 0 then None else Pton6From(s[1..], s[1..], State(st.bytes, |st.bytes|, 0, st.val))
      else if s[1..] == [] || StoreWord(st).None? then None
      else Pton6From(s[1..], s[1..], StoreWord(st).value)
    else if s[0] == '.' && |st.bytes| + 4 <= 16 && Pton4(token).Some? then
      Close(State(st.bytes + Pton4(token).value, st.colon, 0, 0))
    else None
  }

  // A leading colon must be one of two.
  function Pton6(s: string): (r: Option<seq<Byte>>)
    ensures r.Some? ==> |r.value| == 16
  {
    var start := State([], -1, 0, 0);
    if s != [] && s[0] == ':' then
      if |s| < 2 || s[1] != ':' then None else Pton6From(s[1..], s[1..], start)
    else Pton6From(s, s, start)
  }

  // ---------------------------------------------------------------------------------------
  // Printed addresses are read back
  // ---------------------------------------------------------------------------------------

  lemma {:induction false} HexBound(n: nat)
    ensures n < Power16(|Hex(n)|)
    ensures n < 0x10000 ==> |Hex(n)| <= 4
    ensures n < 0x1000 ==> |Hex(n)| <= 3
    ensures n < 0x100 ==> |Hex(n)| <= 2
  {
    if n >= 16 {
      HexBound(n / 16);
    }
  }

  predicate AllHex(w: string) {
    forall i :: 0 <= i < |w| ==> HexValue(w[i]) >= 0
  }

  // The number that hexadecimal digits spell.
  function Value16(w: string): (v: nat)
    requires AllHex(w)
    ensures v < Power16(|w|)
  {
    if w == "" then 0 else Value16(w[..|w| - 1]) * 16 + HexValue(w[|w| - 1])
  }

  lemma {:induction false} HexSpells(n: nat)
    ensures AllHex(Hex(n)) && Value16(Hex(n)) == n
  {
    if n >= 16 {
      HexSpells(n / 16);
      DigitBehind(Hex(n / 16), n % 16);
    } else {
      DigitBehind("", n);
      assert "" + [DIGITS[n]] == [DIGITS[n]];
    }
  }

  lemma DigitBehind(w: string, v: nat)
    requires AllHex(w) && v < 16
    ensures AllHex(w + [DIGITS[v]]) && Value16(w + [DIGITS[v]]) == Value16(w) * 16 + v
  {
    var t := w + [DIGITS[v]];
    assert t[..|t| - 1] == w && HexValue(DIGITS[v]) == v;
  }

  lemma {:induction false} DecimalIsHex(n: nat)
    ensures AllHex(Decimal(n))
  {
    if n >= 10 {
      DecimalIsHex(n / 10);
    }
  }

  lemma HexDigit(c: char, rest: string, token: string, st: State)
    requires Sane(st) && st.seen < 4 && HexValue(c) >= 0
    ensures st.val * 16 + HexValue(c) < Power16(st.seen + 1)
    ensures Pton6From([c] + rest, token, st) == Pton6From(rest, token, State(st.bytes, st.colon, st.seen + 1, st.val * 16 + HexValue(c)))
  {
    assert ([c] + rest)[1..] == rest;
  }

  // The digits of a word are read as the number they spell.
  lemma {:induction false} DigitsRead(w: string, rest: string, token: string, bytes: seq<Byte>, colon: int)
    requires AllHex(w) && |w| <= 4 && Sane(State(bytes, colon, 0, 0))
    ensures Pton6From(w + rest, token, State(bytes, colon, 0, 0)) == Pton6From(rest, token, State(bytes, colon, |w|, Value16(w)))
    decreases |w|
  {
    if w == "" {
      assert w + rest == rest;
    } else {
      var n := |w| - 1;
      assert w + rest == w[..n] + ([w[n]] + rest);
      DigitsRead(w[..n], [w[n]] + rest, token, bytes, colon);
      HexDigit(w[n], rest, token, State(bytes, colon, n, Value16(w[..n])));
    }
  }

  // A word and the colon behind it.
  lemma WordReads(n: Word, rest: string, token: string, bytes: seq<Byte>, colon: int)
    requires rest != [] && |bytes| + 2 <= 16 && -1 <= colon <= |bytes|
    ensures Pton6From(Hex(n) + ":" + rest, token, State(bytes, colon, 0, 0))
         == Pton6From(rest, rest, State(bytes + WordBytes(n), colon, 0, 0))
  {
    HexBound(n);
    HexSpells(n);
    DigitsRead(Hex(n), ":" + rest, token, bytes, colon);
    assert Hex(n) + (":" + rest) == Hex(n) + ":" + rest;
    ColonReads(n, rest, token, bytes, colon, |Hex(n)|);
  }

  lemma ColonReads(n: Word, rest: string, token: string, bytes: seq<Byte>, colon: int, seen: nat)
    requires rest != [] && |bytes| + 2 <= 16 && -1 <= colon <= |bytes| && 1 <= seen <= 4 && n < Power16(seen)
    ensures Pton6From(":" + rest, token, State(bytes, colon, seen, n))
         == Pton6From(rest, rest, State(bytes + WordBytes(n), colon, 0, 0))
  {
    assert (":" + rest)[1..] == rest;
  }

  lemma FinishWord(n: Word, bytes: seq<Byte>, colon: int, seen: nat)
    requires |bytes| + 2 <= 16 && -1 <= colon <= |bytes| && 1 <= seen <= 4 && n < Power16(seen)
    ensures Finish(State(bytes, colon, seen, n)) == Close(State(bytes + WordBytes(n), colon, 0, 0))
  {
  }

  lemma LastWordReads(n: Word, token: string, bytes: seq<Byte>, colon: int)
    requires |bytes| + 2 <= 16 && -1 <= colon <= |bytes|
    ensures Pton6From(Hex(n), token, State(bytes, colon, 0, 0)) == Close(State(bytes + WordBytes(n), colon, 0, 0))
  {
    HexBound(n);
    HexSpells(n);
    DigitsRead(Hex(n), "", token, bytes, colon);
    FinishWord(n, bytes, colon, |Hex(n)|);
    assert Hex(n) + "" == Hex(n);
  }

  lemma DoubleColonReads(rest: string, token: string, bytes: seq<Byte>)
    requires |bytes| <= 16
    ensures Pton6From(":" + rest, token, State(bytes, -1, 0, 0)) == Pton6From(rest, rest, State(bytes, |bytes|, 0, 0))
  {
    assert (":" + rest)[1..] == rest;
  }

  lemma BytesFirst(bytes: seq<Byte>, ws: seq<Word>)
    requires ws != []
    ensures bytes + WordBytes(ws[0]) + BytesOf(ws[1..]) == bytes + BytesOf(ws)
    ensures |ws| == 1 ==> BytesOf(ws) == WordBytes(ws[0])
  {
    Associates(bytes, WordBytes(ws[0]), BytesOf(ws[1..]));
    if |ws| == 1 {
      assert ws[1..] == [];
    }
  }

  lemma Associates(a: seq<Byte>, b: seq<Byte>, c: seq<Byte>)
    ensures a + b + c == a + (b + c)
  {
  }

  lemma TailStep(ws: seq<Word>, token: string, bytes: seq<Byte>, colon: int)
    requires |ws| > 1 && |bytes| + 2 * |ws| <= 16 && -1 <= colon <= |bytes|
    ensures Pton6From(Colons(ws), token, State(bytes, colon, 0, 0))
         == Pton6From(Colons(ws[1..]), Colons(ws[1..]), State(bytes + WordBytes(ws[0]), colon, 0, 0))
  {
    ColonsSome(ws[1..]);
    WordReads(ws[0], Colons(ws[1..]), token, bytes, colon);
  }

  lemma ColonsSome(ws: seq<Word>)
    requires ws != []
    ensures Colons(ws) != []
  {
  }

  lemma {:induction false} TailReads(ws: seq<Word>, token: string, bytes: seq<Byte>, colon: int)
    requires ws != [] && |bytes| + 2 * |ws| <= 16 && -1 <= colon <= |bytes|
    ensures Pton6From(Colons(ws), token, State(bytes, colon, 0, 0)) == Close(State(bytes + BytesOf(ws), colon, 0, 0))
    decreases |ws|
  {
    BytesFirst(bytes, ws);
    if |ws| == 1 {
      LastWordReads(ws[0], token, bytes, colon);
    } else {
      TailStep(ws, token, bytes, colon);
      TailReads(ws[1..], Colons(ws[1..]), bytes + WordBytes(ws[0]), colon);
    }
  }

  lemma HeadStep(ws: seq<Word>, y: string, token: string, bytes: seq<Byte>)
    requires |ws| > 1 && |bytes| + 2 * |ws| <= 16
    ensures Pton6From(Head(ws, y), token, State(bytes, -1, 0, 0))
         == Pton6From(Head(ws[1..], y), Head(ws[1..], y), State(bytes + WordBytes(ws[0]), -1, 0, 0))
  {
    assert Head(ws, y) == Hex(ws[0]) + ":" + Head(ws[1..], y);
    WordReads(ws[0], Head(ws[1..], y), token, bytes, -1);
  }

  lemma HeadLast(w: Word, y: string, token: string, bytes: seq<Byte>)
    requires |bytes| + 2 <= 16
    ensures Pton6From(Head([w], y), token, State(bytes, -1, 0, 0))
         == Pton6From(y, y, State(bytes + WordBytes(w), |bytes| + 2, 0, 0))
  {
    assert Head([w], y) == Hex(w) + ":" + (":" + y);
    WordReads(w, ":" + y, token, bytes, -1);
    DoubleColonReads(y, ":" + y, bytes + WordBytes(w));
  }

  lemma HeadOnly(ws: seq<Word>, y: string, token: string, bytes: seq<Byte>)
    requires |ws| == 1 && |bytes| + 2 <= 16
    ensures Pton6From(Head(ws, y), token, State(bytes, -1, 0, 0))
         == Pton6From(y, y, State(bytes + BytesOf(ws), |bytes| + 2, 0, 0))
  {
    BytesFirst(bytes, ws);
    assert ws == [ws[0]];
    HeadLast(ws[0], y, token, bytes);
  }

  lemma {:induction false} HeadReads(ws: seq<Word>, y: string, token: string, bytes: seq<Byte>)
    requires ws != [] && |bytes| + 2 * |ws| <= 16
    ensures Pton6From(Head(ws, y), token, State(bytes, -1, 0, 0))
         == Pton6From(y, y, State(bytes + BytesOf(ws), |bytes| + 2 * |ws|, 0, 0))
    decreases |ws|
  {
    if |ws| == 1 {
      HeadOnly(ws, y, token, bytes);
    } else {
      BytesFirst(bytes, ws);
      HeadStep(ws, y, token, bytes);
      HeadReads(ws[1..], y, Head(ws[1..], y), bytes + WordBytes(ws[0]));
    }
  }

  lemma DecimalShort(n: Byte)
    ensures |Decimal(n)| <= 3
  {
    assert n >= 10 ==> |Decimal(n)| == |Decimal(n / 10)| + 1;
    assert n >= 100 ==> |Decimal(n / 10)| == |Decimal(n / 10 / 10)| + 1;
  }

  // An IPv4 tail: its first octet is taken for a word until the dot.
  lemma DottedReads(d: seq<Byte>, bytes: seq<Byte>, colon: int)
    requires |d| == 4 && |bytes| <= 12 && -1 <= colon <= |bytes|
    ensures Pton6From(Dotted(d), Dotted(d), State(bytes, colon, 0, 0)) == Close(State(bytes + d, colon, 0, 0))
  {
    var token, rest := Dotted(d), Dotted(d[1..]);
    assert token == Decimal(d[0]) + ("." + rest);
    DecimalShort(d[0]);
    DecimalIsHex(d[0]);
    DigitsRead(Decimal(d[0]), "." + rest, token, bytes, colon);
    Pton4Exactly(token, d);
    DotReads(rest, token, State(bytes, colon, |Decimal(d[0])|, Value16(Decimal(d[0]))));
  }

  lemma DotReads(rest: string, token: string, st: State)
    requires Sane(st) && |st.bytes| <= 12 && Pton4(token).Some?
    ensures Pton6From("." + rest, token, st) == Close(State(st.bytes + Pton4(token).value, st.colon, 0, 0))
  {
  }

  lemma {:induction false} BytesConcat(a: seq<Word>, b: seq<Word>)
    ensures BytesOf(a + b) == BytesOf(a) + BytesOf(b)
  {
    if a == [] {
      assert a + b == b;
    } else {
      BytesConcat(a[1..], b);
      BytesStep(a);
      BytesStep(a + b);
      assert (a + b)[1..] == a[1..] + b;
      Associates(WordBytes(a[0]), BytesOf(a[1..]), BytesOf(b));
    }
  }

  lemma BytesStep(ws: seq<Word>)
    requires ws != []
    ensures BytesOf(ws) == WordBytes(ws[0]) + BytesOf(ws[1..])
  {
  }

  lemma {:induction false} BytesZero(ws: seq<Word>)
    requires forall i :: 0 <= i < |ws| ==> ws[i] == 0
    ensures BytesOf(ws) == Zeros(2 * |ws|)
  {
    if ws != [] {
      BytesZero(ws[1..]);
      assert Zeros(2 * |ws|) == [0, 0] + Zeros(2 * |ws| - 2);
    }
  }

  lemma BytesAroundRun(ws: seq<Word>, run: Run)
    requires ZeroRun(ws, run.base, run.len)
    ensures BytesOf(ws) == BytesOf(ws[..run.base]) + Zeros(2 * run.len) + BytesOf(ws[run.base + run.len..])
  {
    var a, b, c := ws[..run.base], ws[run.base..run.base + run.len], ws[run.base + run.len..];
    assert ws == a + b + c;
    BytesConcat(a + b, c);
    BytesConcat(a, b);
    BytesZero(b);
  }

  // The words around a left-out run give the whole address back.
  lemma CloseFills(ws: seq<Word>, run: Run)
    requires |ws| == 8 && ZeroRun(ws, run.base, run.len) && run.len >= 1
    ensures Close(State(BytesOf(ws[..run.base]) + BytesOf(ws[run.base + run.len..]), 2 * run.base, 0, 0)) == Some(BytesOf(ws))
  {
    BytesAroundRun(ws, run);
    var a, c := BytesOf(ws[..run.base]), BytesOf(ws[run.base + run.len..]);
    assert (a + c)[..2 * run.base] == a && (a + c)[2 * run.base..] == c;
  }

  // What follows the :: gives the words behind the run.
  lemma AfterRunReads(ws: seq<Word>, run: Run)
    requires |ws| == 8 && ZeroRun(ws, run.base, run.len) && run.len >= 1
    ensures var a, y := BytesOf(ws[..run.base]), Colons(ws[run.base + run.len..]);
            Pton6From(y, y, State(a, 2 * run.base, 0, 0)) == Some(BytesOf(ws))
  {
    var a, rest := BytesOf(ws[..run.base]), ws[run.base + run.len..];
    CloseFills(ws, run);
    if rest == [] {
      assert a + BytesOf(rest) == a;
    } else {
      TailReads(rest, Colons(rest), a, 2 * run.base);
    }
  }

  lemma CloseFromStart(ws: seq<Word>, len: nat)
    requires |ws| == 8 && ZeroRun(ws, 0, len) && len >= 1
    ensures Close(State(BytesOf(ws[len..]), 0, 0, 0)) == Some(BytesOf(ws))
  {
    CloseFills(ws, Run(0, len));
    assert ws[..0] == [];
    assert [] + BytesOf(ws[len..]) == BytesOf(ws[len..]);
  }

  lemma CompatibleReads(ws: seq<Word>)
    requires |ws| == 8 && ZeroRun(ws, 0, 6)
    ensures var y := Dotted(BytesOf(ws[6..])); Pton6From(y, y, State([], 0, 0, 0)) == Some(BytesOf(ws))
  {
    var d := BytesOf(ws[6..]);
    CloseFromStart(ws, 6);
    DottedReads(d, [], 0);
    assert [] + d == d;
  }

  lemma FfffText()
    ensures Hex(0xFFFF) == "ffff" && WordBytes(0xFFFF) == [0xFF, 0xFF]
  {
    assert Hex(0xF) == "f" && Hex(0xFF) == "ff" && Hex(0xFFF) == "fff";
  }

  lemma MappedReads(ws: seq<Word>)
    requires |ws| == 8 && ZeroRun(ws, 0, 5) && ws[5] == 0xFFFF
    ensures var y := "ffff:" + Dotted(BytesOf(ws[6..])); Pton6From(y, y, State([], 0, 0, 0)) == Some(BytesOf(ws))
  {
    var d := BytesOf(ws[6..]);
    var word := WordBytes(0xFFFF);
    CloseFromStart(ws, 5);
    FfffText();
    assert "ffff" + ":" == "ffff:";
    WordReads(0xFFFF, Dotted(d), "ffff:" + Dotted(d), [], 0);
    assert [] + word == word;
    DottedReads(d, word, 0);
    assert ws[5..][0] == 0xFFFF && ws[5..][1..] == ws[6..];
    assert BytesOf(ws[5..]) == word + d;
  }

  lemma PlainRoundTrip(ws: seq<Word>)
    requires |ws| == 8
    ensures Pton6(Colons(ws)) == Some(BytesOf(ws))
  {
    TailReads(ws, Colons(ws), [], -1);
    NoColon(ws);
    assert [] + BytesOf(ws) == BytesOf(ws);
  }

  lemma EmbeddedRoundTrip(ws: seq<Word>, run: Run)
    requires |ws| == 8 && ZeroRun(ws, run.base, run.len) && Embeds4(ws, run)
    ensures Pton6(Text(ws, run)) == Some(BytesOf(ws))
  {
    var d := Dotted(BytesOf(ws[6..]));
    EmbeddedText(ws, run, d);
    if run.len == 6 {
      CompatibleReads(ws);
      LeadingReads(d);
    } else {
      MappedReads(ws);
      LeadingReads("ffff:" + d);
    }
  }

  lemma EmbeddedText(ws: seq<Word>, run: Run, d: string)
    requires |ws| == 8 && ZeroRun(ws, run.base, run.len) && Embeds4(ws, run) && d == Dotted(BytesOf(ws[6..]))
    ensures Text(ws, run) == "::" + (if run.len == 6 then d else "ffff:" + d)
  {
    assert "::" + "" + d == "::" + d;
    assert "::" + "ffff:" + d == "::" + ("ffff:" + d);
  }

  lemma RunRoundTrip(ws: seq<Word>, run: Run)
    requires |ws| == 8 && ZeroRun(ws, run.base, run.len) && run.len >= 1
    ensures Pton6(Head(ws[..run.base], Colons(ws[run.base + run.len..]))) == Some(BytesOf(ws))
  {
    var before, y := ws[..run.base], Colons(ws[run.base + run.len..]);
    AfterRunReads(ws, run);
    if run.base == 0 {
      LeadingReads(y);
      assert Head(before, y) == "::" + y;
      assert BytesOf(before) == [];
    } else {
      HeadReads(before, y, Head(before, y), []);
      NoColon(before);
      assert [] + BytesOf(before) == BytesOf(before);
    }
  }

  // Whatever run is left out, the address comes back.
  lemma RoundTrip(ws: seq<Word>, run: Run)
    requires |ws| == 8 && (run.base == -1 || (ZeroRun(ws, run.base, run.len) && run.len >= 1))
    ensures Pton6(Text(ws, run)) == Some(BytesOf(ws))
  {
    if run.base == -1 {
      PlainRoundTrip(ws);
    } else if Embeds4(ws, run) {
      EmbeddedRoundTrip(ws, run);
    } else {
      RunRoundTrip(ws, run);
    }
  }

  lemma LeadingReads(y: string)
    ensures Pton6("::" + y) == Pton6From(y, y, State([], 0, 0, 0))
  {
    assert ("::" + y)[1..] == ":" + y;
    DoubleColonReads(y, ":" + y, []);
  }

  lemma {:induction false} HexFirst(n: nat)
    ensures Hex(n)[0] != ':'
  {
    if n >= 16 {
      HexFirst(n / 16);
    }
  }

  lemma NoColon(ws: seq<Word>)
    requires ws != []
    ensures Colons(ws) != [] && Colons(ws)[0] != ':'
  {
    HexFirst(ws[0]);
  }
}
