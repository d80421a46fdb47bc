// inet_ntop4, inet_ntop6, inet_pton4 and inet_pton6 of src/inet.c, over buffers filled in place.
module InetText {
  import opened Inet

  const UV_EINVAL := -22
  const UV_ENOSPC := -28

  // ---------------------------------------------------------------------------------------
  // Printing
  // ---------------------------------------------------------------------------------------

  // *tp++ = c
  method Put(tmp: array<char>, tp0: nat, c: char) returns (tp: nat)
    requires tp0 < tmp.Length
    modifies tmp
    ensures tp == tp0 + 1 && tmp[..tp] == old(tmp[..tp0]) + [c]
  {
    tmp[tp0] := c;
    tp := tp0 + 1;
  }

  // The text s at tp0: snprintf with room enough, or strscpy.
  method PutAll(tmp: array<char>, tp0: nat, s: string) returns (tp: nat)
    requires tp0 + |s| <= tmp.Length
    modifies tmp
    ensures tp == tp0 + |s| && tmp[..tp] == old(tmp[..tp0]) + s && tmp[tp..] == old(tmp[tp0 + |s|..])
  {
    tp := tp0;
    var k := 0;
    while k < |s|
      invariant k <= |s| && tp == tp0 + k
      invariant tmp[..tp] == old(tmp[..tp0]) + s[..k] && tmp[tp..] == old(tmp[tp0 + k..])
    {
      assert s[..k + 1] == s[..k] + [s[k]];
      tmp[tp] := s[k];
      tp := tp + 1;
      k := k + 1;
    }
    assert s[..k] == s;
  }

  // inet_ntop4 into the buffer from at on.
  method Ntop4(src: seq<Byte>, dst: array<char>, at: nat) returns (status: int)
    requires |src| == 4 && at <= dst.Length
    modifies dst
    ensures status == if |Dotted(src)| < dst.Length - at then 0 else UV_ENOSPC
    ensures status == 0 ==> dst[..at + |Dotted(src)| + 1] == old(dst[..at]) + Dotted(src) + ['\0']
    ensures status != 0 ==> dst[..] == old(dst[..])
  {
    var text := Dotted(src);
    var l := |text|;
    if l >= dst.Length - at {
      return UV_ENOSPC;
    }
    var tp := PutAll(dst, at, text);
    tp := Put(dst, tp, '\0');
    status := 0;
  }

  function Pack(high: int, low: int): int {
    256 * high + low
  }

  lemma {:induction false} BytesOfWords(ws: seq<Word>, b: seq<Byte>)
    requires |b| == 2 * |ws| && forall j :: 0 <= j < |ws| ==> ws[j] == Pack(b[2 * j], b[2 * j + 1])
    ensures BytesOf(ws) == b
  {
    if ws != [] {
      assert ws[0] == Pack(b[0], b[1]);
      forall j | 0 <= j < |ws| - 1 ensures ws[1..][j] == Pack(b[2..][2 * j], b[2..][2 * j + 1]) {
        assert ws[j + 1] == Pack(b[2 * (j + 1)], b[2 * (j + 1) + 1]);
      }
      BytesOfWords(ws[1..], b[2..]);
      assert b == WordBytes(ws[0]) + b[2..];
    }
  }

  // Bytes i and i + 1 make word i / 2; the bits of the two do not overlap.
  method Load(src: seq<Byte>, words: array<Word>)
    requires |src| == 16 && words.Length == 8 && forall j :: 0 <= j < 8 ==> words[j] == 0
    modifies words
    ensures BytesOf(words[..]) == src
  {
    var i := 0;
    while i < 16
      invariant 0 <= i <= 16
      invariant forall j :: 0 <= j < i / 2 ==> words[j] == Pack(src[2 * j], src[2 * j + 1])
      invariant i % 2 == 1 ==> words[i / 2] == Pack(src[i - 1], 0)
      invariant forall j :: (i + 1) / 2 <= j < 8 ==> words[j] == 0
    {
      words[i / 2] := words[i / 2] + (if i % 2 == 0 then Pack(src[i], 0) else Pack(0, src[i]));
      i := i + 1;
    }
    BytesOfWords(words[..], src);
  }

  // best is the leftmost longest zero run that ends at or before limit.
  ghost predicate BestUpTo(ws: seq<Word>, best: Run, limit: nat) {
    && (best.base == -1 || (best.len >= 1 && ZeroRun(ws, best.base, best.len) && best.base + best.len <= limit))
    && forall b, l :: ZeroRun(ws, b, l) && l >= 1 && b + l <= limit ==> Beaten(best, b, l)
  }

  predicate Beaten(best: Run, b: int, l: int) {
    best.base != -1 && l <= best.len && (l == best.len ==> best.base <= b)
  }

  // cur is the zero run that reaches up to i, if any.
  ghost predicate Current(ws: seq<Word>, cur: Run, i: nat)
    requires i <= |ws|
  {
    if cur.base == -1 then i > 0 ==> ws[i - 1] != 0
    else ZeroRun(ws, cur.base, cur.len) && cur.len >= 1 && cur.base + cur.len == i && (cur.base > 0 ==> ws[cur.base - 1] != 0)
  }

  // if (best.base == -1 || cur.len > best.len) best = cur;
  function Better(best: Run, cur: Run): Run {
    if best.base == -1 || cur.len > best.len then cur else best
  }

  lemma RunEnds(ws: seq<Word>, best: Run, cur: Run, i: nat)
    requires i <= |ws| && cur.base != -1 && Current(ws, cur, i) && BestUpTo(ws, best, cur.base)
    ensures BestUpTo(ws, Better(best, cur), i)
  {
    forall b, l | ZeroRun(ws, b, l) && l >= 1 && b + l <= i ensures Beaten(Better(best, cur), b, l) {
    }
  }

  lemma NonZero(ws: seq<Word>, best: Run, i: nat)
    requires i < |ws| && ws[i] != 0 && BestUpTo(ws, best, i)
    ensures BestUpTo(ws, best, i + 1)
  {
    forall b, l | ZeroRun(ws, b, l) && l >= 1 && b + l <= i + 1 ensures Beaten(best, b, l) {
    }
  }

  method FindBest(words: seq<Word>) returns (best: Run)
    requires |words| == 8
    ensures IsBest(words, best)
  {
    best := Run(-1, 0);
    var cur := Run(-1, 0);
    var i := 0;
    while i < |words|
      invariant i <= |words| && Current(words, cur, i)
      invariant BestUpTo(words, best, if cur.base == -1 then i else cur.base)
    {
      if words[i] == 0 {
        if cur.base == -1 {
          cur := Run(i, 1);
        } else {
          cur := cur.(len := cur.len + 1);
        }
      } else {
        if cur.base != -1 {
          RunEnds(words, best, cur, i);
          best := Better(best, cur);
          cur := cur.(base := -1);
        }
        NonZero(words, best, i);
      }
      i := i + 1;
    }
    if cur.base != -1 {
      RunEnds(words, best, cur, i);
      best := Better(best, cur);
    }
    assert forall b, l :: ZeroRun(words, b, l) && l >= 1 ==> Beaten(best, b, l);
    if best.base != -1 && best.len < 2 {
      best := best.(base := -1);
    }
  }

  lemma {:induction false} ColonsAppend(ws: seq<Word>, w: Word)
    ensures Colons(ws + [w]) == (if ws == [] then "" else Colons(ws) + ":") + Hex(w)
  {
    if |ws| > 1 {
      ColonsAppend(ws[1..], w);
      assert (ws + [w])[1..] == ws[1..] + [w];
    } else if |ws| == 1 {
      assert (ws + [w])[1..] == [w];
    }
  }

  predicate Skips(ws: seq<Word>, best: Run) {
    best.base == -1 || (ZeroRun(ws, best.base, best.len) && best.len >= 2)
  }

  // What the loop has written before word i.
  function Partial(ws: seq<Word>, best: Run, i: nat): string
    requires i <= |ws| && Skips(ws, best)
  {
    if best.base == -1 || i <= best.base then Colons(ws[..i])
    else if i <= best.base + best.len then Colons(ws[..best.base]) + ":"
    else Head(ws[..best.base], Colons(ws[best.base + best.len..i]))
  }

  predicate Inside(best: Run, i: int) {
    best.base != -1 && best.base <= i < best.base + best.len
  }

  lemma PartialStep(ws: seq<Word>, best: Run, i: nat)
    requires i < |ws| && Skips(ws, best) && !Inside(best, i)
    ensures Partial(ws, best, i + 1) == Partial(ws, best, i) + (if i == 0 then "" else ":") + Hex(ws[i])
  {
    if best.base == -1 || i < best.base {
      assert ws[..i + 1] == ws[..i] + [ws[i]];
      ColonsAppend(ws[..i], ws[i]);
    } else {
      var j := best.base + best.len;
      assert ws[j..i + 1] == ws[j..i] + [ws[i]];
      ColonsAppend(ws[j..i], ws[i]);
      PartialBehind(ws, best, i);
    }
  }

  lemma PartialBehind(ws: seq<Word>, best: Run, i: nat)
    requires i < |ws| && Skips(ws, best) && best.base != -1 && i >= best.base + best.len
    requires var rest := ws[best.base + best.len..i];
             Colons(ws[best.base + best.len..i + 1]) == (if rest == [] then "" else Colons(rest) + ":") + Hex(ws[i])
    ensures Partial(ws, best, i + 1) == Partial(ws, best, i) + ":" + Hex(ws[i])
  {
    var before, j := Colons(ws[..best.base]), best.base + best.len;
    PartialPast(ws, best, i);
    PartialPast(ws, best, i + 1);
    Behind(before, Colons(ws[j..i]), Hex(ws[i]));
  }

  lemma PartialPast(ws: seq<Word>, best: Run, i: nat)
    requires i <= |ws| && Skips(ws, best) && best.base != -1 && i >= best.base + best.len
    ensures Partial(ws, best, i) == Colons(ws[..best.base]) +
      (if i == best.base + best.len then ":" else "::" + Colons(ws[best.base + best.len..i]))
  {
    assert Colons(ws[..best.base]) + ("::" + Colons(ws[best.base + best.len..i])) ==
      Colons(ws[..best.base]) + "::" + Colons(ws[best.base + best.len..i]);
  }

  lemma Behind(before: string, rest: string, last: string)
    ensures before + "::" + last == before + ":" + ":" + last
    ensures before + "::" + (rest + ":" + last) == before + "::" + rest + ":" + last
  {
    assert before + "::" + (rest + ":" + last) == before + "::" + rest + (":" + last);
  }

  // The test at word 6.
  predicate TailIs4(ws: seq<Word>, best: Run, i: nat)
    requires |ws| == 8
  {
    i == 6 && best.base == 0 && (best.len == 6 || (best.len == 7 && ws[7] != 1) || (best.len == 5 && ws[5] == 0xFFFF))
  }

  lemma TextIs4(ws: seq<Word>, best: Run)
    requires |ws| == 8 && Skips(ws, best) && !Inside(best, 6) && TailIs4(ws, best, 6)
    ensures Embeds4(ws, best) && Text(ws, best) == Partial(ws, best, 6) + ":" + Dotted(BytesOf(ws[6..]))
    ensures |Partial(ws, best, 6)| <= 6
  {
    var d := Dotted(BytesOf(ws[6..]));
    if best.len == 6 {
      assert "::" + "" + d == "" + ":" + ":" + d;
    } else {
      FfffText();
      assert ws[5..6] == [0xFFFF] && ws[..0] == [];
      assert "" + "::" + "ffff" + ":" + d == "::" + "ffff:" + d;
    }
  }

  lemma TextIsPartial(ws: seq<Word>, best: Run)
    requires |ws| == 8 && Skips(ws, best) && !Embeds4(ws, best)
    ensures Text(ws, best) == Partial(ws, best, 8) + (if best.base != -1 && best.base + best.len == 8 then ":" else "")
  {
    assert ws[..8] == ws;
    if best.base != -1 && best.base + best.len == 8 {
      assert Colons(ws[..best.base]) + "::" + "" == Colons(ws[..best.base]) + ":" + ":";
    }
  }

  // One word of the text: at most five characters.
  method PutWord(ws: seq<Word>, best: Run, i: nat, tmp: array<char>, tp0: nat) returns (tp: nat)
    requires i < |ws| && Skips(ws, best) && !Inside(best, i)
    requires tp0 + 5 <= tmp.Length && tmp[..tp0] == Partial(ws, best, i) + (if i == 0 then "" else ":")
    modifies tmp
    ensures tp0 <= tp <= tp0 + 4 && tmp[..tp] == Partial(ws, best, i + 1)
  {
    HexBound(ws[i]);
    PartialStep(ws, best, i);
    tp := PutAll(tmp, tp0, Hex(ws[i]));
  }

  lemma DottedShort(d: seq<Byte>)
    requires |d| == 4
    ensures |Dotted(d)| <= 15
  {
    DecimalShort(d[0]);
    DecimalShort(d[1]);
    DecimalShort(d[2]);
    DecimalShort(d[3]);
    assert |Dotted(d)| == |Decimal(d[0])| + 1 + |Dotted(d[1..])|;
    assert |Dotted(d[1..])| == |Decimal(d[1])| + 1 + |Dotted(d[2..])| by { assert d[1..][1..] == d[2..]; }
    assert |Dotted(d[2..])| == |Decimal(d[2])| + 1 + |Dotted(d[3..])| by { assert d[2..][1..] == d[3..]; }
  }

  // The text is formatted into tmp; done is true where the loop breaks behind an IPv4 tail.
  method Format(src: seq<Byte>, ws: seq<Word>, best: Run, tmp: array<char>) returns (tp: nat)
    requires |src| == 16 && |ws| == 8 && BytesOf(ws) == src && Skips(ws, best) && tmp.Length == 46
    modifies tmp
    ensures tp <= 45 && tmp[..tp] == Text(ws, best)
  {
    tp := 0;
    var i := 0;
    while i < 8
      invariant i <= 8 && tp <= 5 * i && tmp[..tp] == Partial(ws, best, i)
      invariant i > 6 ==> !Embeds4(ws, best)
    {
      if Inside(best, i) {
        if i == best.base {
          tp := Put(tmp, tp, ':');
        }
        i := i + 1;
        continue;
      }
      if i != 0 {
        tp := Put(tmp, tp, ':');
      }
      if TailIs4(ws, best, i) {
        TextIs4(ws, best);
        tp := PutTail(src, ws, tmp, tp);
        return;
      }
      tp := PutWord(ws, best, i, tmp, tp);
      i := i + 1;
    }
    TextIsPartial(ws, best);
    if best.base != -1 && best.base + best.len == 8 {
      tp := Put(tmp, tp, ':');
    }
  }

  // inet_ntop4(src + 12, tp, ...); tp += strlen(tp);
  method PutTail(src: seq<Byte>, ws: seq<Word>, tmp: array<char>, tp0: nat) returns (tp: nat)
    requires |src| == 16 && |ws| == 8 && BytesOf(ws) == src && tmp.Length == 46 && tp0 <= 30
    modifies tmp
    ensures tp <= 45 && tmp[..tp] == old(tmp[..tp0]) + Dotted(BytesOf(ws[6..]))
  {
    ghost var d := Dotted(src[12..]);
    DottedShort(src[12..]);
    TailBytes(ws);
    var err := Ntop4(src[12..], tmp, tp0);
    tp := tp0 + |Dotted(src[12..])|;
    assert tmp[..tp] == tmp[..tp + 1][..tp];
  }

  lemma TailBytes(ws: seq<Word>)
    requires |ws| == 8
    ensures BytesOf(ws)[12..] == BytesOf(ws[6..])
  {
    assert ws == ws[..6] + ws[6..];
    BytesConcat(ws[..6], ws[6..]);
  }

  // inet_ntop6
  method Ntop6(src: seq<Byte>, dst: array<char>) returns (status: int, ghost ws: seq<Word>, ghost best: Run)
    requires |src| == 16
    modifies dst
    ensures |ws| == 8 && BytesOf(ws) == src && IsBest(ws, best) && |Text(ws, best)| <= 45
    ensures status == if |Text(ws, best)| < dst.Length then 0 else UV_ENOSPC
    ensures status == 0 ==> dst[..|Text(ws, best)| + 1] == Text(ws, best) + ['\0']
    ensures status != 0 ==> dst[..] == old(dst[..])
  {
    var words := new Word[8](i => 0);
    Load(src, words);
    ws := words[..];
    var run := FindBest(words[..]);
    best := run;
    var tmp := new char[46];
    var tp := Format(src, words[..], run, tmp);
    tp := Put(tmp, tp, '\0');
    if tp > dst.Length {
      status := UV_ENOSPC;
      return;
    }
    var _ := PutAll(dst, 0, tmp[..tp]);
    status := 0;
  }

  // ---------------------------------------------------------------------------------------
  // Parsing; the end of src stands for its NUL
  // ---------------------------------------------------------------------------------------

  // inet_pton4 into the four bytes of dst from at on.
  method ReadDotted(src: string, dst: array<Byte>, at: nat) returns (status: int)
    requires at + 4 <= dst.Length
    modifies dst
    ensures status == if Pton4(src).Some? then 0 else UV_EINVAL
    ensures status == 0 ==> dst[..] == old(dst[..at]) + Pton4(src).value + old(dst[at + 4..])
    ensures status != 0 ==> dst[..] == old(dst[..])
  {
    var tmp := new Byte[4];
    tmp[0] := 0;
    var p: nat, tp: nat, sawDigit, octets: nat := 0, 0, false, 0;
    assert src[0..] == src && tmp[..0] == [];
    while p < |src|
      invariant p <= |src| && tp < 4 && octets == tp + (if sawDigit then 1 else 0) && (!sawDigit ==> tmp[tp] == 0)
      invariant Pton4From(src[p..], tmp[..tp], tmp[tp], sawDigit) == Pton4(src)
      invariant dst[..] == old(dst[..])
    {
      var ch := src[p];
      p := p + 1;
      assert src[p - 1..][0] == ch && src[p - 1..][1..] == src[p..];
      if DecimalValue(ch) >= 0 {
        var nw := tmp[tp] as int * 10 + DecimalValue(ch);
        if sawDigit && tmp[tp] == 0 {
          return UV_EINVAL;
        }
        if nw > 255 {
          return UV_EINVAL;
        }
        tmp[tp] := nw;
        if !sawDigit {
          octets := octets + 1;
          sawDigit := true;
        }
      } else if ch == '.' && sawDigit {
        if octets == 4 {
          return UV_EINVAL;
        }
        assert tmp[..tp + 1] == tmp[..tp] + [tmp[tp]];
        tp := tp + 1;
        tmp[tp] := 0;
        sawDigit := false;
      } else {
        return UV_EINVAL;
      }
    }
    assert src[|src|..] == [];
    if octets < 4 {
      return UV_EINVAL;
    }
    assert tmp[..] == tmp[..3] + [tmp[3]];
    Copy(dst, at, tmp);
    status := 0;
  }

  // memcpy(dst + at, tmp, sizeof tmp)
  method Copy(dst: array<Byte>, at: nat, tmp: array<Byte>)
    requires at + tmp.Length <= dst.Length && dst != tmp
    modifies dst
    ensures dst[..] == old(dst[..at]) + tmp[..] + old(dst[at + tmp.Length..])
  {
    forall k | 0 <= k < tmp.Length {
      dst[at + k] := tmp[k];
    }
  }

  // The bytes behind the :: move to the end of tmp, the last one first; zeros stay behind.
  method Shift(tmp: array<Byte>, tp: nat, colonp: nat)
    requires tmp.Length == 16 && colonp <= tp < 16 && forall k :: tp <= k < 16 ==> tmp[k] == 0
    modifies tmp
    ensures tmp[..] == old(tmp[..colonp]) + Zeros(16 - tp) + old(tmp[colonp..tp])
  {
    var n := tp - colonp;
    var i := 1;
    while i <= n
      invariant 1 <= i <= n + 1
      invariant forall k :: 0 <= k < tp - (i - 1) ==> tmp[k] == old(tmp[k])
      invariant forall k :: tp - (i - 1) <= k < 16 - (i - 1) ==> tmp[k] == 0
      invariant forall k :: 16 - (i - 1) <= k < 16 ==> tmp[k] == old(tmp[k - (16 - tp)])
    {
      tmp[16 - i] := tmp[colonp + n - i];
      tmp[colonp + n - i] := 0;
      i := i + 1;
    }
    ghost var r := old(tmp[..colonp]) + Zeros(16 - tp) + old(tmp[colonp..tp]);
    assert forall k :: 0 <= k < 16 ==> tmp[k] == r[k];
  }

  // What the loop variables hold.
  ghost predicate Holds(st: State, tmp: array<Byte>, tp: nat, colonp: int, seen: nat, val: nat)
    reads tmp
  {
    && tmp.Length == 16 && Sane(st) && tp == |st.bytes| && tmp[..tp] == st.bytes
    && (forall k :: tp <= k < 16 ==> tmp[k] == 0)
    && colonp == st.colon && seen == st.seen && val == st.val
  }

  // if (tp + sizeof(uint16_t) > endp) return UV_EINVAL; else the word is stored.
  method PutBytes(tmp: array<Byte>, tp0: nat, val: nat, ghost st: State) returns (ok: bool, tp: nat)
    requires Holds(st, tmp, tp0, st.colon, st.seen, val)
    modifies tmp
    ensures ok <==> StoreWord(st).Some?
    ensures ok ==> Holds(StoreWord(st).value, tmp, tp, st.colon, 0, 0)
  {
    tp := tp0;
    if tp + 2 > 16 {
      return false, tp;
    }
    tmp[tp] := val / 256 % 256;
    tp := tp + 1;
    tmp[tp] := val % 256;
    tp := tp + 1;
    ok := true;
  }

  // What follows the loop.
  method End(tmp: array<Byte>, tp0: nat, colonp: int, seen: nat, val: nat, dst: array<Byte>, ghost st: State) returns (status: int)
    requires Holds(st, tmp, tp0, colonp, seen, val) && dst.Length == 16 && dst != tmp
    modifies tmp, dst
    ensures status == if Finish(st).Some? then 0 else UV_EINVAL
    ensures status == 0 ==> dst[..] == Finish(st).value
    ensures status != 0 ==> dst[..] == old(dst[..])
  {
    var tp := tp0;
    ghost var end := st;
    if seen > 0 {
      var ok;
      ok, tp := PutBytes(tmp, tp, val, st);
      if !ok {
        return UV_EINVAL;
      }
      end := StoreWord(st).value;
    }
    status := CloseUp(tmp, tp, colonp, dst, end);
  }

  method CloseUp(tmp: array<Byte>, tp0: nat, colonp: int, dst: array<Byte>, ghost st: State) returns (status: int)
    requires Holds(st, tmp, tp0, colonp, st.seen, st.val) && dst.Length == 16 && dst != tmp
    modifies tmp, dst
    ensures status == if Close(st).Some? then 0 else UV_EINVAL
    ensures status == 0 ==> dst[..] == Close(st).value
    ensures status != 0 ==> dst[..] == old(dst[..])
  {
    var tp := tp0;
    if colonp >= 0 {
      if tp == 16 {
        return UV_EINVAL;
      }
      assert tmp[..tp][..colonp] == tmp[..colonp] && tmp[..tp][colonp..] == tmp[colonp..tp];
      Shift(tmp, tp, colonp);
      tp := 16;
    }
    if tp != 16 {
      return UV_EINVAL;
    }
    assert tmp[..16] == tmp[..];
    Copy(dst, 0, tmp);
    status := 0;
  }

  // inet_pton6
  method ReadAddress(text: string, dst: array<Byte>) returns (status: int)
    requires dst.Length == 16
    modifies dst
    ensures status == if Pton6(text).Some? then 0 else UV_EINVAL
    ensures status == 0 ==> dst[..] == Pton6(text).value
    ensures status != 0 ==> dst[..] == old(dst[..])
  {
    var tmp := new Byte[16](i => 0);
    var src := 0;
    if |text| > 0 && text[0] == ':' {
      src := src + 1;
      if src == |text| || text[src] != ':' {
        return UV_EINVAL;
      }
    }
    ghost var st := State([], -1, 0, 0);
    assert text[0..] == text && tmp[..0] == [];
    status := ReadFrom(text, src, tmp, dst, st);
  }

  method ReadFrom(text: string, start: nat, tmp: array<Byte>, dst: array<Byte>, ghost st0: State) returns (status: int)
    requires start <= |text| && st0 == State([], -1, 0, 0) && Holds(st0, tmp, 0, -1, 0, 0) && dst.Length == 16 && dst != tmp
    modifies tmp, dst
    ensures status == if Pton6From(text[start..], text[start..], st0).Some? then 0 else UV_EINVAL
    ensures status == 0 ==> dst[..] == Pton6From(text[start..], text[start..], st0).value
    ensures status != 0 ==> dst[..] == old(dst[..])
  {
    ghost var want := Pton6From(text[start..], text[start..], st0);
    ghost var st := st0;
    var src, curtok, tp: nat, colonp: int, seen: nat, val: nat := start, start, 0, -1, 0, 0;
    while src < |text|
      invariant start <= curtok <= src <= |text| && Holds(st, tmp, tp, colonp, seen, val)
      invariant Pton6From(text[src..], text[curtok..], st) == want
      invariant dst[..] == old(dst[..])
    {
      var ch := text[src];
      src := src + 1;
      assert text[src - 1..][0] == ch && text[src - 1..][1..] == text[src..];
      if HexValue(ch) >= 0 {
        val := val * 16 + HexValue(ch);
        seen := seen + 1;
        if seen > 4 {
          return UV_EINVAL;
        }
        st := State(st.bytes, st.colon, seen, val);
        continue;
      }
      if ch == ':' {
        curtok := src;
        if seen == 0 {
          if colonp >= 0 {
            return UV_EINVAL;
          }
          colonp := tp;
          st := State(st.bytes, tp, 0, val);
          continue;
        } else if src == |text| {
          return UV_EINVAL;
        }
        var ok;
        ok, tp := PutBytes(tmp, tp, val, st);
        if !ok {
          return UV_EINVAL;
        }
        seen, val := 0, 0;
        st := StoreWord(st).value;
        continue;
      }
      if ch == '.' && tp + 4 <= 16 {
        var err := ReadDotted(text[curtok..], tmp, tp);
        if err == 0 {
          st := State(st.bytes + Pton4(text[curtok..]).value, st.colon, 0, 0);
          tp := tp + 4;
          seen := 0;
          status := CloseUp(tmp, tp, colonp, dst, st);
          return;
        }
      }
      return UV_EINVAL;
    }
    assert text[|text|..] == [];
    status := End(tmp, tp, colonp, seen, val, dst, st);
  }
}
