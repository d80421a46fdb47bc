// The JSON printer and parser of src/json/json_parser_module.c as functions, and the proof of
// exactly which values survive being printed and parsed.
module Json {

  type Byte = x: int | 0 <= x < 256
  type Int32 = n: int | -0x8000_0000 <= n <= 0x7FFF_FFFF

  // A C string: its bytes before the NUL.
  type Text = s: seq<Byte> | forall i :: 0 <= i < |s| ==> s[i] != 0

  datatype Pair = Pair(key: Text, value: Value)

  datatype Value = Null | Bool(b: bool) | Number(n: Int32) | String(s: Text) | Array(values: seq<Value>) | Object(pairs: seq<Pair>)

  const MAX_DEPTH := 100

  datatype Error = InvalidSyntax | UnexpectedToken | UnterminatedString | InvalidEscape | DepthExceeded

  // Unstored is a success that stores no value: null. Unknown stands for a success with a number
  // that is no 32-bit integer, which the model does not have. Undefined is behaviour that C leaves
  // undefined: an invalid free, or the use of a pointer that was never set.
  datatype Result<T> = Ok(value: T, rest: seq<Byte>) | Err(error: Error) | Unstored(rest: seq<Byte>) | Unknown | Undefined

  // ---------------------------------------------------------------------------------------
  // Printing
  // ---------------------------------------------------------------------------------------

  const QUOTE: Byte := 34
  const BACKSLASH: Byte := 92

  function Escape1(c: Byte): seq<Byte> {
    if c == QUOTE then [BACKSLASH, QUOTE]
    else if c == BACKSLASH then [BACKSLASH, BACKSLASH]
    else if c == 8 then [BACKSLASH, 98]
    else if c == 12 then [BACKSLASH, 102]
    else if c == 10 then [BACKSLASH, 110]
    else if c == 13 then [BACKSLASH, 114]
    else if c == 9 then [BACKSLASH, 116]
    else [c]
  }

  function Escape(s: seq<Byte>): (t: seq<Byte>)
    ensures |t| <= 2 * |s|
  {
    if s == [] then [] else Escape1(s[0]) + Escape(s[1..])
  }

  function Quoted(s: seq<Byte>): seq<Byte> {
    [QUOTE] + Escape(s) + [QUOTE]
  }

  function Digits(n: nat): (s: seq<Byte>)
    ensures s != []
  {
    if n < 10 then [48 + n] else Digits(n / 10) + [48 + n % 10]
  }

  function IntText(n: int): (s: seq<Byte>)
    ensures s != []
  {
    if n < 0 then [45] + Digits(-n) else Digits(n)
  }

  const NULL_TEXT: seq<Byte> := [110, 117, 108, 108]
  const TRUE_TEXT: seq<Byte> := [116, 114, 117, 101]
  const FALSE_TEXT: seq<Byte> := [102, 97, 108, 115, 101]

  // json_stringify
  function Stringify(v: Value): (s: seq<Byte>)
    ensures s != []
  {
    match v
    case Null => NULL_TEXT
    case Bool(b) => if b then TRUE_TEXT else FALSE_TEXT
    case Number(n) => IntText(n)
    case String(s) => Quoted(s)
    case Array(values) => [91] + Elements(values) + [93]
    case Object(pairs) => [123] + Members(pairs) + [125]
  }

  // The elements with commas between them.
  function Elements(values: seq<Value>): (s: seq<Byte>)
    ensures values != [] ==> s != []
  {
    if values == [] then []
    else if |values| == 1 then Stringify(values[0])
    else Stringify(values[0]) + [44] + Elements(values[1..])
  }

  function Member(p: Pair): seq<Byte> {
    Quoted(p.key) + [58] + Stringify(p.value)
  }

  function Members(pairs: seq<Pair>): (s: seq<Byte>)
    ensures pairs != [] ==> s != []
  {
    if pairs == [] then []
    else if |pairs| == 1 then Member(pairs[0])
    else Member(pairs[0]) + [44] + Members(pairs[1..])
  }

  // ---------------------------------------------------------------------------------------
  // Parsing: each function is given the text that is left
  // ---------------------------------------------------------------------------------------

  predicate IsSpace(c: Byte) {
    c == 32 || 9 <= c <= 13
  }

  function SkipSpace(s: seq<Byte>): (t: seq<Byte>)
    ensures |t| <= |s| && (t == [] || !IsSpace(t[0]))
  {
    if s != [] && IsSpace(s[0]) then SkipSpace(s[1..]) else s
  }

  // Where a string ends, looking for its closing quote.
  datatype Closing = At(k: nat) | BadEscape | Unterminated

  function Later(n: nat, c: Closing): Closing {
    if c.At? then At(n + c.k) else c
  }

  function FindClosing(s: seq<Byte>): (c: Closing)
    ensures c.At? ==> c.k < |s| && s[c.k] == QUOTE
  {
    if s == [] then Unterminated
    else if s[0] == QUOTE then At(0)
    else if s[0] == BACKSLASH then
      if |s| == 1 then BadEscape else Later(2, FindClosing(s[2..]))
    else Later(1, FindClosing(s[1..]))
  }

  // The character that a backslash and c stand for.
  function Unescape1(c: Byte): (r: Byte)
    ensures c != 0 ==> r != 0
  {
    if c == 98 then 8
    else if c == 102 then 12
    else if c == 110 then 10
    else if c == 114 then 13
    else if c == 116 then 9
    else c
  }

  // unescape_string, which stops at a NUL.
  function Unescape(s: seq<Byte>): (t: Text) {
    if s == [] || s[0] == 0 then []
    else if s[0] == BACKSLASH && |s| > 1 && s[1] != 0 then [Unescape1(s[1])] + Unescape(s[2..])
    else [s[0]] + Unescape(s[1..])
  }

  // parse_string, at an opening quote.
  function ParseString(s: seq<Byte>): (r: Result<Text>)
    requires s != []
    ensures r.Ok? ==> |r.rest| < |s|
  {
    match FindClosing(s[1..])
    case Unterminated => Err(UnterminatedString)
    case BadEscape => Err(InvalidEscape)
    case At(k) => Ok(Unescape(s[1..1 + k]), s[k + 2..])
  }

  predicate IsDigit(c: Byte) {
    48 <= c <= 57
  }

  // The number that starts with acc, and what follows its digits.
  function ReadDigits(s: seq<Byte>, acc: nat): (r: (nat, seq<Byte>))
    ensures |r.1| <= |s|
  {
    if s == [] || !IsDigit(s[0]) then (acc, s) else ReadDigits(s[1..], acc * 10 + (s[0] - 48))
  }

  // Characters with which strtod may read on: a point, an exponent, hexadecimal.
  predicate Continues(c: Byte) {
    c == 46 || c == 101 || c == 69 || c == 120 || c == 88
  }

  // Characters with which "inf", "nan" or a fraction may begin.
  predicate Special(c: Byte) {
    c == 46 || c == 105 || c == 73 || c == 110 || c == 78
  }

  // parse_number, at a minus sign or a digit.
  function ParseNumber(s: seq<Byte>): (r: Result<Value>)
    requires s != [] && (s[0] == 45 || IsDigit(s[0]))
    ensures r.Ok? ==> |r.rest| < |s|
  {
    var t := if s[0] == 45 then s[1..] else s;
    var r := ReadDigits(t, 0);
    if |r.1| == |t| then
      if t != [] && Special(t[0]) then Unknown else Err(UnexpectedToken)
    else if r.1 != [] && Continues(r.1[0]) then Unknown
    else
      var n: int := if s[0] == 45 then 0 - r.0 else r.0;
      if -0x8000_0000 <= n <= 0x7FFF_FFFF then Ok(Number(n), r.1) else Unknown
  }

  // json_object_set: the value of a key is replaced where it is, a new key goes to the end.
  function SetPair(pairs: seq<Pair>, key: Text, value: Value): (r: seq<Pair>)
    ensures |pairs| <= |r| <= |pairs| + 1
  {
    if pairs == [] then [Pair(key, value)]
    else if pairs[0].key == key then [Pair(key, value)] + pairs[1..]
    else [pairs[0]] + SetPair(pairs[1..], key, value)
  }

  // json_free on a value in a block of its own is valid: a scalar or an empty container. Why, and why
  // for no other, is the subject of JsonMemory.
  predicate Freeable(v: Value) {
    match v
    case Array(values) => values == []
    case Object(pairs) => pairs == []
    case _ => true
  }

  predicate HasKey(pairs: seq<Pair>, key: Text) {
    exists i :: 0 <= i < |pairs| && pairs[i].key == key
  }

  // Putting a member in is defined: it replaces no value, whose place is inside a block, and the
  // value that was parsed may be freed.
  predicate Settable(done: seq<Pair>, key: Text, v: Value) {
    !HasKey(done, key) && Freeable(v)
  }

  // parse_value at nesting depth d. With mem, this is what the code does; without, what its grammar
  // says, as if no memory were ever freed.
  function ParseValue(s: seq<Byte>, d: nat, mem: bool): (r: Result<Value>)
    ensures r.Ok? ==> |r.rest| < |s|
    decreases |s|, 0
  {
    var t := SkipSpace(s);
    if t == [] then Err(UnexpectedToken)
    else if t[0] == 123 then ParseObject(t, d, mem)
    else if t[0] == 91 then ParseArray(t, d, mem)
    else if t[0] == QUOTE then
      match ParseString(t)
      case Ok(text, rest) => Ok(String(text), rest)
      case Err(e) => Err(e)
      case _ => Unknown
    else if t[0] == 116 || t[0] == 102 then ParseBool(t)
    else if t[0] == 110 then
      if NULL_TEXT <= t then Unstored(t[4..]) else Err(UnexpectedToken)
    else if t[0] == 45 || IsDigit(t[0]) then ParseNumber(t)
    else Err(UnexpectedToken)
  }

  function ParseBool(t: seq<Byte>): (r: Result<Value>)
    ensures r.Ok? ==> |r.rest| < |t|
  {
    if TRUE_TEXT <= t then Ok(Bool(true), t[4..])
    else if FALSE_TEXT <= t then Ok(Bool(false), t[5..])
    else Err(UnexpectedToken)
  }

  function ParseArray(t: seq<Byte>, d: nat, mem: bool): (r: Result<Value>)
    requires t != []
    ensures r.Ok? ==> |r.rest| < |t|
    decreases |t|, -1
  {
    if d >= MAX_DEPTH then Err(DepthExceeded)
    else
      var u := SkipSpace(t[1..]);
      if u != [] && u[0] == 93 then Ok(Array([]), u[1..]) else ParseElements(u, d + 1, [], mem)
  }

  // The loop of parse_array behind the elements of done.
  function ParseElements(s: seq<Byte>, d: nat, done: seq<Value>, mem: bool): (r: Result<Value>)
    ensures r.Ok? ==> |r.rest| < |s|
    decreases |s|, 1
  {
    if s == [] then Err(UnterminatedString)
    else
      match ParseValue(s, d, mem)
      case Err(e) => Err(e)
      case Unknown => Unknown
      case Undefined => Undefined
      case Unstored(_) => if mem then Undefined else Unknown
      case Ok(v, rest) =>
        var t := SkipSpace(rest);
        if mem && !Freeable(v) then Undefined
        else if t == [] then Err(UnexpectedToken)
        else if t[0] == 93 then Ok(Array(done + [v]), t[1..])
        else if t[0] != 44 then Err(UnexpectedToken)
        else ParseElements(t[1..], d, done + [v], mem)
  }

  function ParseObject(t: seq<Byte>, d: nat, mem: bool): (r: Result<Value>)
    requires t != []
    ensures r.Ok? ==> |r.rest| < |t|
    decreases |t|, -1
  {
    if d >= MAX_DEPTH then Err(DepthExceeded)
    else
      var u := SkipSpace(t[1..]);
      if u != [] && u[0] == 125 then Ok(Object([]), u[1..]) else ParseMembers(u, d + 1, [], mem)
  }

  // A key and the colon behind it, where a member begins.
  function ParseKey(s: seq<Byte>): (r: Result<Text>)
    ensures r.Ok? ==> |r.rest| < |s|
  {
    var t := SkipSpace(s);
    if t == [] then Err(UnterminatedString)
    else if t[0] != QUOTE then Err(UnexpectedToken)
    else
      match ParseString(t)
      case Err(e) => Err(e)
      case Ok(key, rest) =>
        var u := SkipSpace(rest);
        if u == [] || u[0] != 58 then Err(UnexpectedToken) else Ok(key, u[1..])
      case _ => Unknown
  }

  // The loop of parse_object behind the members of done.
  function ParseMembers(s: seq<Byte>, d: nat, done: seq<Pair>, mem: bool): (r: Result<Value>)
    ensures r.Ok? ==> |r.rest| < |s|
    decreases |s|, 1
  {
    if s == [] then Err(UnterminatedString)
    else
      match ParseKey(s)
      case Err(e) => Err(e)
      case Unstored(_) => Unknown
      case Unknown => Unknown
      case Undefined => Undefined
      case Ok(key, afterKey) =>
        match ParseValue(afterKey, d, mem)
        case Err(e) => Err(e)
        case Unknown => Unknown
        case Undefined => Undefined
        case Unstored(_) => if mem then Undefined else Unknown
        case Ok(v, rest) =>
          var t := SkipSpace(rest);
          if mem && !Settable(done, key, v) then Undefined
          else if t == [] then Err(UnexpectedToken)
          else if t[0] == 125 then Ok(Object(SetPair(done, key, v)), t[1..])
          else if t[0] != 44 then Err(UnexpectedToken)
          else ParseMembers(t[1..], d, SetPair(done, key, v), mem)
  }

  // json_parse, called with a pointer that is not set: text behind the value has the value freed,
  // or what the pointer holds if none was stored.
  function Parse(s: seq<Byte>, mem: bool): Result<Value> {
    match ParseValue(s, 0, mem)
    case Err(e) => Err(e)
    case Unknown => Unknown
    case Undefined => Undefined
    case Unstored(rest) =>
      if SkipSpace(rest) == [] then Unstored([]) else if mem then Undefined else Err(InvalidSyntax)
    case Ok(v, rest) =>
      if SkipSpace(rest) == [] then Ok(v, []) else if mem && !Freeable(v) then Undefined else Err(InvalidSyntax)
  }

  // ---------------------------------------------------------------------------------------
  // What becomes of a value that is printed and parsed again, by its structure
  // ---------------------------------------------------------------------------------------

  datatype Outcome = Back(value: Value) | Refused(error: Error) | Lost | Unsaid | Broken

  // A container meets such an outcome of something in it.
  function Spoiled(o: Outcome, mem: bool): Outcome {
    if o.Lost? then (if mem then Broken else Unsaid) else o
  }

  function Reread(v: Value, d: nat, mem: bool): Outcome {
    match v
    case Null => Lost
    case Array(values) =>
      if d >= MAX_DEPTH then Refused(DepthExceeded) else RereadElements(values, d + 1, [], mem)
    case Object(pairs) =>
      if d >= MAX_DEPTH then Refused(DepthExceeded) else RereadMembers(pairs, d + 1, [], mem)
    case _ => Back(v)
  }

  function RereadElements(values: seq<Value>, d: nat, done: seq<Value>, mem: bool): Outcome {
    if values == [] then Back(Array(done))
    else
      match Reread(values[0], d, mem)
      case Back(v) => if mem && !Freeable(v) then Broken else RereadElements(values[1..], d, done + [v], mem)
      case o => Spoiled(o, mem)
  }

  function RereadMembers(pairs: seq<Pair>, d: nat, done: seq<Pair>, mem: bool): Outcome {
    if pairs == [] then Back(Object(done))
    else
      match Reread(pairs[0].value, d, mem)
      case Back(v) =>
        if mem && !Settable(done, pairs[0].key, v) then Broken
        else RereadMembers(pairs[1..], d, SetPair(done, pairs[0].key, v), mem)
      case o => Spoiled(o, mem)
  }

  function With(o: Outcome, rest: seq<Byte>): Result<Value> {
    match o
    case Back(v) => Ok(v, rest)
    case Refused(e) => Err(e)
    case Lost => Unstored(rest)
    case Unsaid => Unknown
    case Broken => Undefined
  }

  // ---------------------------------------------------------------------------------------
  // Strings and numbers are read back
  // ---------------------------------------------------------------------------------------

  lemma {:induction false} ClosingFound(s: seq<Byte>, rest: seq<Byte>)
    ensures FindClosing(Escape(s) + [QUOTE] + rest) == At(|Escape(s)|)
  {
    if s == [] {
      assert Escape(s) + [QUOTE] + rest == [QUOTE] + rest;
    } else {
      var e, tail := Escape1(s[0]), Escape(s[1..]) + [QUOTE] + rest;
      ClosingFound(s[1..], rest);
      assert Escape(s) + [QUOTE] + rest == e + tail;
      ClosingBehind(s[0], tail);
    }
  }

  lemma ClosingBehind(c: Byte, tail: seq<Byte>)
    requires FindClosing(tail).At?
    ensures FindClosing(Escape1(c) + tail) == At(|Escape1(c)| + FindClosing(tail).k)
  {
    EscapeForm(c);
    ClosingOf(Escape1(c), tail);
  }

  lemma EscapeForm(c: Byte)
    ensures var e := Escape1(c); if |e| == 1 then e[0] != QUOTE && e[0] != BACKSLASH else |e| == 2 && e[0] == BACKSLASH
  {
  }

  lemma ClosingOf(e: seq<Byte>, tail: seq<Byte>)
    requires FindClosing(tail).At?
    requires if |e| == 1 then e[0] != QUOTE && e[0] != BACKSLASH else |e| == 2 && e[0] == BACKSLASH
    ensures FindClosing(e + tail) == At(|e| + FindClosing(tail).k)
  {
    if |e| == 1 {
      ClosingPlain(e[0], tail, e + tail);
    } else {
      ClosingPair(e[1], tail, e + tail);
    }
  }

  lemma ClosingPlain(c: Byte, tail: seq<Byte>, t: seq<Byte>)
    requires FindClosing(tail).At? && c != QUOTE && c != BACKSLASH && t == [c] + tail
    ensures FindClosing(t) == At(1 + FindClosing(tail).k)
  {
    assert t[1..] == tail;
  }

  lemma ClosingPair(c: Byte, tail: seq<Byte>, t: seq<Byte>)
    requires FindClosing(tail).At? && t == [BACKSLASH, c] + tail
    ensures FindClosing(t) == At(2 + FindClosing(tail).k)
  {
    assert t[2..] == tail;
  }

  lemma {:induction false} UnescapeEscape(s: Text)
    ensures Unescape(Escape(s)) == s
  {
    if s != [] {
      var e, tail := Escape1(s[0]), Escape(s[1..]);
      assert s[0] != 0;
      UnescapeEscape(s[1..]);
      var t := e + tail;
      if |e| == 1 {
        assert t[1..] == tail;
      } else {
        assert t[2..] == tail;
      }
      assert [s[0]] + s[1..] == s;
    }
  }

  lemma StringBack(s: Text, rest: seq<Byte>)
    ensures ParseString(Quoted(s) + rest) == Ok(s, rest)
  {
    var t := Quoted(s) + rest;
    ClosingFound(s, rest);
    assert t[1..] == Escape(s) + [QUOTE] + rest;
    UnescapeEscape(s);
    assert t[1..1 + |Escape(s)|] == Escape(s);
    assert t[|Escape(s)| + 2..] == rest;
  }

  lemma {:induction false} DigitsFirst(n: nat)
    ensures IsDigit(Digits(n)[0])
  {
    if n >= 10 {
      DigitsFirst(n / 10);
    }
  }

  lemma DigitsBack(n: nat, rest: seq<Byte>)
    requires rest == [] || !IsDigit(rest[0])
    ensures ReadDigits(Digits(n) + rest, 0) == (n, rest)
  {
    DigitsRead(n, rest);
    assert ReadDigits(rest, n) == (n, rest);
  }

  lemma {:induction false} DigitsRead(n: nat, rest: seq<Byte>)
    ensures ReadDigits(Digits(n) + rest, 0) == ReadDigits(rest, n)
    decreases n
  {
    if n < 10 {
      assert (Digits(n) + rest)[1..] == rest;
    } else {
      var tail := [48 + n % 10] + rest;
      assert Digits(n) + rest == Digits(n / 10) + tail;
      DigitsRead(n / 10, tail);
      assert tail[1..] == rest;
    }
  }

  // What may follow a number so that it is read no further.
  predicate Delimits(rest: seq<Byte>) {
    rest == [] || rest[0] == 44 || rest[0] == 93 || rest[0] == 125
  }

  lemma NumberBack(n: Int32, rest: seq<Byte>)
    requires Delimits(rest)
    ensures IntText(n)[0] == 45 || IsDigit(IntText(n)[0])
    ensures ParseNumber(IntText(n) + rest) == Ok(Number(n), rest)
  {
    var m: nat := if n < 0 then 0 - n else n;
    var t := Digits(m) + rest;
    DigitsFirst(m);
    DigitsBack(m, rest);
    if n < 0 {
      assert (IntText(n) + rest)[1..] == t;
    }
    SignedBack(IntText(n) + rest, t, m, n, rest);
  }

  // The digits t of m stand behind the sign, if there is one.
  lemma SignedBack(s: seq<Byte>, t: seq<Byte>, m: nat, n: Int32, rest: seq<Byte>)
    requires s != [] && t != [] && IsDigit(t[0]) && m == (if n < 0 then 0 - n else n)
    requires if n < 0 then s[0] == 45 && s[1..] == t else s == t
    requires ReadDigits(t, 0) == (m, rest) && |rest| < |t| && Delimits(rest)
    ensures ParseNumber(s) == Ok(Number(n), rest)
  {
  }

  // ---------------------------------------------------------------------------------------
  // Values are read back
  // ---------------------------------------------------------------------------------------

  lemma StringifyFirst(v: Value)
    ensures !IsSpace(Stringify(v)[0]) && Stringify(v)[0] != 93 && Stringify(v)[0] != 125
  {
    if v.Number? {
      NumberBack(v.n, []);
    }
  }

  lemma ElementsFirst(values: seq<Value>)
    requires values != []
    ensures Elements(values)[0] == Stringify(values[0])[0]
  {
  }

  lemma MembersFirst(pairs: seq<Pair>)
    requires pairs != []
    ensures Members(pairs)[0] == QUOTE
  {
  }

  lemma NoSpace(s: seq<Byte>)
    requires s != [] && !IsSpace(s[0])
    ensures SkipSpace(s) == s
  {
  }

  lemma BoolBack(b: bool, rest: seq<Byte>)
    ensures ParseBool(Stringify(Bool(b)) + rest) == Ok(Bool(b), rest)
  {
    var s := Stringify(Bool(b)) + rest;
    assert s[0] == if b then 116 else 102;
    assert s[|Stringify(Bool(b))|..] == rest;
  }

  lemma ScalarBack(v: Value, rest: seq<Byte>, d: nat, mem: bool)
    requires Delimits(rest) && !v.Array? && !v.Object?
    ensures ParseValue(Stringify(v) + rest, d, mem) == With(Reread(v, d, mem), rest)
  {
    StringifyFirst(v);
    NoSpace(Stringify(v) + rest);
    match v
    case Null =>
      assert (Stringify(v) + rest)[4..] == rest;
    case Bool(b) =>
      BoolBack(b, rest);
    case Number(n) =>
      NumberBack(n, rest);
    case String(t) =>
      StringBack(t, rest);
  }

  lemma {:induction false} ValueBack(v: Value, rest: seq<Byte>, d: nat, mem: bool)
    requires Delimits(rest)
    ensures ParseValue(Stringify(v) + rest, d, mem) == With(Reread(v, d, mem), rest)
    decreases v, 1
  {
    match v
    case Array(values) =>
      ArrayBack(values, rest, d, mem);
    case Object(pairs) =>
      ObjectBack(pairs, rest, d, mem);
    case _ =>
      ScalarBack(v, rest, d, mem);
  }

  lemma ArrayText(values: seq<Value>, rest: seq<Byte>)
    ensures Stringify(Array(values)) + rest == [91] + (Elements(values) + ([93] + rest))
  {
    Regroup([91], Elements(values), [93], rest);
  }

  lemma ArrayEmpty(s: seq<Byte>, rest: seq<Byte>, d: nat, mem: bool)
    requires d < MAX_DEPTH && s == [91] + ([] + ([93] + rest))
    ensures ParseValue(s, d, mem) == Ok(Array([]), rest)
  {
    NoSpace(s);
    assert s[1..] == [93] + rest;
    NoSpace([93] + rest);
    assert ([93] + rest)[1..] == rest;
  }

  lemma ArrayOpens(s: seq<Byte>, inner: seq<Byte>, d: nat, mem: bool)
    requires d < MAX_DEPTH && s == [91] + inner && inner != [] && !IsSpace(inner[0]) && inner[0] != 93
    ensures ParseValue(s, d, mem) == ParseElements(inner, d + 1, [], mem)
  {
    NoSpace(s);
    assert s[1..] == inner;
    NoSpace(inner);
  }

  lemma ArrayTooDeep(s: seq<Byte>, d: nat, mem: bool)
    requires d >= MAX_DEPTH && s != [] && s[0] == 91
    ensures ParseValue(s, d, mem) == Err(DepthExceeded)
  {
    NoSpace(s);
  }

  lemma {:induction false} ArrayAt(s: seq<Byte>, values: seq<Value>, rest: seq<Byte>, d: nat, mem: bool)
    requires s == [91] + (Elements(values) + ([93] + rest)) && d < MAX_DEPTH
    ensures ParseValue(s, d, mem) == With(RereadElements(values, d + 1, [], mem), rest)
    decreases values, 2
  {
    if values == [] {
      ArrayEmpty(s, rest, d, mem);
    } else {
      ElementsFirst(values);
      StringifyFirst(values[0]);
      ArrayOpens(s, Elements(values) + ([93] + rest), d, mem);
      ElementsBack(values, rest, d + 1, [], mem);
    }
  }

  lemma {:induction false} ArrayBack(values: seq<Value>, rest: seq<Byte>, d: nat, mem: bool)
    ensures ParseValue(Stringify(Array(values)) + rest, d, mem) == With(Reread(Array(values), d, mem), rest)
    decreases values, 3
  {
    ArrayText(values, rest);
    if d >= MAX_DEPTH {
      ArrayTooDeep(Stringify(Array(values)) + rest, d, mem);
    } else {
      ArrayAt(Stringify(Array(values)) + rest, values, rest, d, mem);
    }
  }

  lemma ElementsText(values: seq<Value>, end: seq<Byte>)
    requires values != []
    ensures Elements(values) + end
         == Stringify(values[0]) + (if |values| == 1 then end else [44] + (Elements(values[1..]) + end))
  {
    if |values| > 1 {
      Regroup(Stringify(values[0]), [44], Elements(values[1..]), end);
    }
  }

  lemma ElementsLast(s: seq<Byte>, d: nat, done: seq<Value>, v: Value, rest: seq<Byte>, mem: bool)
    requires s != [] && ParseValue(s, d, mem) == Ok(v, [93] + rest) && (mem ==> Freeable(v))
    ensures ParseElements(s, d, done, mem) == Ok(Array(done + [v]), rest)
  {
    NoSpace([93] + rest);
    assert ([93] + rest)[1..] == rest;
  }

  lemma ElementsNext(s: seq<Byte>, d: nat, done: seq<Value>, v: Value, more: seq<Byte>, mem: bool)
    requires s != [] && ParseValue(s, d, mem) == Ok(v, [44] + more) && (mem ==> Freeable(v))
    ensures ParseElements(s, d, done, mem) == ParseElements(more, d, done + [v], mem)
  {
    NoSpace([44] + more);
    assert ([44] + more)[1..] == more;
  }

  lemma ElementsFail(s: seq<Byte>, d: nat, done: seq<Value>, o: Outcome, after: seq<Byte>, rest: seq<Byte>, mem: bool)
    requires s != [] && ParseValue(s, d, mem) == With(o, after) && !o.Back?
    ensures ParseElements(s, d, done, mem) == With(Spoiled(o, mem), rest)
  {
  }

  lemma ElementsBreak(s: seq<Byte>, d: nat, done: seq<Value>, v: Value, after: seq<Byte>)
    requires s != [] && ParseValue(s, d, true) == Ok(v, after) && !Freeable(v)
    ensures ParseElements(s, d, done, true) == Undefined
  {
  }

  lemma {:induction false} ElementsBack(values: seq<Value>, rest: seq<Byte>, d: nat, done: seq<Value>, mem: bool)
    requires values != []
    ensures ParseElements(Elements(values) + ([93] + rest), d, done, mem) == With(RereadElements(values, d, done, mem), rest)
    decreases values, 1
  {
    var end := [93] + rest;
    var more := Elements(values[1..]) + end;
    var after := if |values| == 1 then end else [44] + more;
    var s := Elements(values) + end;
    ElementsText(values, end);
    ValueBack(values[0], after, d, mem);
    var o := Reread(values[0], d, mem);
    if !o.Back? {
      ElementsFail(s, d, done, o, after, rest, mem);
    } else if mem && !Freeable(o.value) {
      ElementsBreak(s, d, done, o.value, after);
    } else if |values| == 1 {
      ElementsLast(s, d, done, o.value, rest, mem);
    } else {
      ElementsNext(s, d, done, o.value, more, mem);
      ElementsBack(values[1..], rest, d, done + [o.value], mem);
    }
  }

  lemma ObjectEmpty(s: seq<Byte>, rest: seq<Byte>, d: nat, mem: bool)
    requires d < MAX_DEPTH && s == [123] + ([] + ([125] + rest))
    ensures ParseValue(s, d, mem) == Ok(Object([]), rest)
  {
    NoSpace(s);
    assert s[1..] == [125] + rest;
    NoSpace([125] + rest);
    assert ([125] + rest)[1..] == rest;
  }

  lemma ObjectOpens(s: seq<Byte>, inner: seq<Byte>, d: nat, mem: bool)
    requires d < MAX_DEPTH && s == [123] + inner && inner != [] && !IsSpace(inner[0]) && inner[0] != 125
    ensures ParseValue(s, d, mem) == ParseMembers(inner, d + 1, [], mem)
  {
    NoSpace(s);
    assert s[1..] == inner;
    NoSpace(inner);
  }

  lemma ObjectText(pairs: seq<Pair>, rest: seq<Byte>)
    ensures Stringify(Object(pairs)) + rest == [123] + (Members(pairs) + ([125] + rest))
  {
    Regroup([123], Members(pairs), [125], rest);
  }

  lemma ObjectTooDeep(s: seq<Byte>, d: nat, mem: bool)
    requires d >= MAX_DEPTH && s != [] && s[0] == 123
    ensures ParseValue(s, d, mem) == Err(DepthExceeded)
  {
    NoSpace(s);
  }

  lemma {:induction false} ObjectAt(s: seq<Byte>, pairs: seq<Pair>, rest: seq<Byte>, d: nat, mem: bool)
    requires s == [123] + (Members(pairs) + ([125] + rest)) && d < MAX_DEPTH
    ensures ParseValue(s, d, mem) == With(RereadMembers(pairs, d + 1, [], mem), rest)
    decreases pairs, 2
  {
    if pairs == [] {
      ObjectEmpty(s, rest, d, mem);
    } else {
      MembersFirst(pairs);
      ObjectOpens(s, Members(pairs) + ([125] + rest), d, mem);
      MembersBack(pairs, rest, d + 1, [], mem);
    }
  }

  lemma {:induction false} ObjectBack(pairs: seq<Pair>, rest: seq<Byte>, d: nat, mem: bool)
    ensures ParseValue(Stringify(Object(pairs)) + rest, d, mem) == With(Reread(Object(pairs), d, mem), rest)
    decreases pairs, 3
  {
    ObjectText(pairs, rest);
    if d >= MAX_DEPTH {
      ObjectTooDeep(Stringify(Object(pairs)) + rest, d, mem);
    } else {
      ObjectAt(Stringify(Object(pairs)) + rest, pairs, rest, d, mem);
    }
  }

  lemma KeyBack(key: Text, rest: seq<Byte>)
    ensures ParseKey(Quoted(key) + ([58] + rest)) == Ok(key, rest)
  {
    var s := Quoted(key) + ([58] + rest);
    assert SkipSpace(s) == s;
    StringBack(key, [58] + rest);
    assert SkipSpace([58] + rest) == [58] + rest;
    assert ([58] + rest)[1..] == rest;
  }

  lemma MembersText(pairs: seq<Pair>, end: seq<Byte>)
    requires pairs != []
    ensures Members(pairs) + end
         == Quoted(pairs[0].key) + ([58] + (Stringify(pairs[0].value) + (if |pairs| == 1 then end else [44] + (Members(pairs[1..]) + end))))
  {
    var key, value := Quoted(pairs[0].key), Stringify(pairs[0].value);
    if |pairs| == 1 {
      Regroup(key, [58], value, end);
    } else {
      var more := Members(pairs[1..]);
      Regroup(Member(pairs[0]), [44], more, end);
      Regroup(key, [58], value, [44] + (more + end));
    }
  }

  lemma Regroup(a: seq<Byte>, b: seq<Byte>, c: seq<Byte>, d: seq<Byte>)
    ensures a + b + c + d == a + (b + (c + d))
  {
    assert a + b + c + d == a + (b + c + d);
    assert b + c + d == b + (c + d);
  }

  lemma MembersLast(s: seq<Byte>, d: nat, done: seq<Pair>, key: Text, text: seq<Byte>, v: Value, rest: seq<Byte>, mem: bool)
    requires s != [] && ParseKey(s) == Ok(key, text) && ParseValue(text, d, mem) == Ok(v, [125] + rest) && (mem ==> Settable(done, key, v))
    ensures ParseMembers(s, d, done, mem) == Ok(Object(SetPair(done, key, v)), rest)
  {
    NoSpace([125] + rest);
    assert ([125] + rest)[1..] == rest;
  }

  lemma MembersNext(s: seq<Byte>, d: nat, done: seq<Pair>, key: Text, text: seq<Byte>, v: Value, more: seq<Byte>, mem: bool)
    requires s != [] && ParseKey(s) == Ok(key, text) && ParseValue(text, d, mem) == Ok(v, [44] + more) && (mem ==> Settable(done, key, v))
    ensures ParseMembers(s, d, done, mem) == ParseMembers(more, d, SetPair(done, key, v), mem)
  {
    NoSpace([44] + more);
    assert ([44] + more)[1..] == more;
  }

  lemma MembersFail(s: seq<Byte>, d: nat, done: seq<Pair>, key: Text, text: seq<Byte>, o: Outcome, after: seq<Byte>, rest: seq<Byte>, mem: bool)
    requires s != [] && ParseKey(s) == Ok(key, text) && ParseValue(text, d, mem) == With(o, after) && !o.Back?
    ensures ParseMembers(s, d, done, mem) == With(Spoiled(o, mem), rest)
  {
  }

  lemma MembersBreak(s: seq<Byte>, d: nat, done: seq<Pair>, key: Text, text: seq<Byte>, v: Value, after: seq<Byte>)
    requires s != [] && ParseKey(s) == Ok(key, text) && ParseValue(text, d, true) == Ok(v, after) && !Settable(done, key, v)
    ensures ParseMembers(s, d, done, true) == Undefined
  {
  }

  lemma {:induction false} MembersBack(pairs: seq<Pair>, rest: seq<Byte>, d: nat, done: seq<Pair>, mem: bool)
    requires pairs != []
    ensures ParseMembers(Members(pairs) + ([125] + rest), d, done, mem) == With(RereadMembers(pairs, d, done, mem), rest)
    decreases pairs, 1
  {
    var p, end := pairs[0], [125] + rest;
    var more := Members(pairs[1..]) + end;
    var after := if |pairs| == 1 then end else [44] + more;
    var s, text := Members(pairs) + end, Stringify(p.value) + after;
    MembersText(pairs, end);
    KeyBack(p.key, text);
    ValueBack(p.value, after, d, mem);
    var o := Reread(p.value, d, mem);
    RereadFirst(pairs, d, done, mem, o);
    if !o.Back? {
      MembersFail(s, d, done, p.key, text, o, after, rest, mem);
    } else if mem && !Settable(done, p.key, o.value) {
      MembersBreak(s, d, done, p.key, text, o.value, after);
    } else if |pairs| == 1 {
      MembersLast(s, d, done, p.key, text, o.value, rest, mem);
    } else {
      MembersNext(s, d, done, p.key, text, o.value, more, mem);
      MembersBack(pairs[1..], rest, d, SetPair(done, p.key, o.value), mem);
    }
  }

  lemma RereadFirst(pairs: seq<Pair>, d: nat, done: seq<Pair>, mem: bool, o: Outcome)
    requires pairs != [] && o == Reread(pairs[0].value, d, mem)
    ensures RereadMembers(pairs, d, done, mem) ==
      if !o.Back? then Spoiled(o, mem)
      else if mem && !Settable(done, pairs[0].key, o.value) then Broken
      else if |pairs| == 1 then Back(Object(SetPair(done, pairs[0].key, o.value)))
      else RereadMembers(pairs[1..], d, SetPair(done, pairs[0].key, o.value), mem)
  {
  }

  // ---------------------------------------------------------------------------------------
  // Which values come back unchanged
  // ---------------------------------------------------------------------------------------

  ghost predicate DistinctKeys(pairs: seq<Pair>) {
    forall i, j :: 0 <= i < j < |pairs| ==> pairs[i].key != pairs[j].key
  }

  // v has no null in it, nests arrays and objects at most levels deep, and no object of it has two
  // pairs with the same key.
  ghost predicate Storable(v: Value, levels: int) {
    match v
    case Null => false
    case Array(values) => levels > 0 && forall x :: x in values ==> Storable(x, levels - 1)
    case Object(pairs) => levels > 0 && DistinctKeys(pairs) && forall p :: p in pairs ==> Storable(p.value, levels - 1)
    case _ => true
  }

  lemma {:induction false} ElementsKept(values: seq<Value>, d: nat, done: seq<Value>, mem: bool)
    ensures var o := RereadElements(values, d, done, mem);
            o.Back? ==> o.value.Array? && done <= o.value.values && |o.value.values| == |done| + |values|
    decreases values
  {
    if values != [] && Reread(values[0], d, mem).Back? {
      ElementsKept(values[1..], d, done + [Reread(values[0], d, mem).value], mem);
    }
  }

  // If no key was replaced the first pairs are still what they were.
  predicate Keeps(all: seq<Pair>, done: seq<Pair>, added: nat) {
    |all| == |done| + added ==> done <= all
  }

  lemma {:induction false} MembersKept(pairs: seq<Pair>, d: nat, done: seq<Pair>, mem: bool)
    ensures var o := RereadMembers(pairs, d, done, mem);
            o.Back? ==> o.value.Object? && |done| <= |o.value.pairs| <= |done| + |pairs| && Keeps(o.value.pairs, done, |pairs|)
    decreases pairs
  {
    if pairs != [] && Reread(pairs[0].value, d, mem).Back? {
      var v := Reread(pairs[0].value, d, mem).value;
      MembersKept(pairs[1..], d, SetPair(done, pairs[0].key, v), mem);
      SetPairCases(done, pairs[0].key, v);
    }
  }

  lemma {:induction false} SetPairCases(pairs: seq<Pair>, key: Text, value: Value)
    ensures if HasKey(pairs, key) then |SetPair(pairs, key, value)| == |pairs|
            else SetPair(pairs, key, value) == pairs + [Pair(key, value)]
  {
    if pairs != [] && pairs[0].key != key {
      SetPairCases(pairs[1..], key, value);
      assert HasKey(pairs, key) ==> HasKey(pairs[1..], key) by {
        if HasKey(pairs, key) {
          var i :| 0 <= i < |pairs| && pairs[i].key == key;
          assert pairs[1..][i - 1].key == key;
        }
      }
      assert HasKey(pairs[1..], key) ==> HasKey(pairs, key) by {
        if HasKey(pairs[1..], key) {
          var i :| 0 <= i < |pairs[1..]| && pairs[1..][i].key == key;
          assert pairs[i + 1].key == key;
        }
      }
    }
  }

  lemma {:induction false} RereadExactly(v: Value, d: nat)
    requires d <= MAX_DEPTH
    ensures Reread(v, d, false) == Back(v) <==> Storable(v, MAX_DEPTH - d)
    decreases v, 1
  {
    match v
    case Array(values) =>
      ArrayExactly(values, d);
    case Object(pairs) =>
      ObjectExactly(pairs, d);
    case _ =>
  }

  lemma {:induction false} ArrayExactly(values: seq<Value>, d: nat)
    requires d <= MAX_DEPTH
    ensures Reread(Array(values), d, false) == Back(Array(values)) <==> Storable(Array(values), MAX_DEPTH - d)
    decreases values, 1
  {
    if d < MAX_DEPTH {
      ElementsExactly(values, d + 1, []);
      assert [] + values == values;
    }
  }

  lemma {:induction false} ObjectExactly(pairs: seq<Pair>, d: nat)
    requires d <= MAX_DEPTH
    ensures Reread(Object(pairs), d, false) == Back(Object(pairs)) <==> Storable(Object(pairs), MAX_DEPTH - d)
    decreases pairs, 1
  {
    if d < MAX_DEPTH {
      MembersExactly(pairs, d + 1, []);
      assert [] + pairs == pairs;
    }
  }

  lemma {:induction false} ElementsExactly(values: seq<Value>, d: nat, done: seq<Value>)
    requires d <= MAX_DEPTH
    ensures RereadElements(values, d, done, false) == Back(Array(done + values))
       <==> forall x :: x in values ==> Storable(x, MAX_DEPTH - d)
    decreases values, 0
  {
    if values == [] {
      assert done + values == done;
    } else {
      var v, o := values[0], Reread(values[0], d, false);
      RereadExactly(v, d);
      assert values == [v] + values[1..];
      assert forall x :: x in values <==> x == v || x in values[1..];
      assert Storable(v, MAX_DEPTH - d) <==> o == Back(v);
      if o.Back? {
        ElementsKept(values[1..], d, done + [o.value], false);
        ElementsExactly(values[1..], d, done + [o.value]);
        if o.value == v {
          assert done + values == done + [o.value] + values[1..];
        } else {
          assert (done + values)[|done|] == v && (done + [o.value])[|done|] == o.value;
          assert !(done + [o.value] <= done + values);
          assert v in values && !Storable(v, MAX_DEPTH - d);
        }
      } else {
        assert v in values && !Storable(v, MAX_DEPTH - d);
      }
    }
  }

  lemma {:induction false} MembersExactly(pairs: seq<Pair>, d: nat, done: seq<Pair>)
    requires d <= MAX_DEPTH && DistinctKeys(done)
    ensures RereadMembers(pairs, d, done, false) == Back(Object(done + pairs))
       <==> DistinctKeys(done + pairs) && forall p :: p in pairs ==> Storable(p.value, MAX_DEPTH - d)
    decreases pairs, 0
  {
    if pairs == [] {
      assert done + pairs == done;
    } else {
      var p, o := pairs[0], Reread(pairs[0].value, d, false);
      RereadExactly(p.value, d);
      assert pairs == [p] + pairs[1..];
      if o.Back? {
        var next := SetPair(done, p.key, o.value);
        SetPairCases(done, p.key, o.value);
        MembersKept(pairs[1..], d, next, false);
        if HasKey(done, p.key) {
          Clash(done, p, pairs[1..]);
        } else {
          DistinctAppend(done, Pair(p.key, o.value));
          MembersExactly(pairs[1..], d, next);
          assert (done + pairs)[|done|] == p && (o.value == p.value ==> done + pairs == next + pairs[1..]);
        }
      }
    }
  }

  lemma Clash(done: seq<Pair>, p: Pair, rest: seq<Pair>)
    requires HasKey(done, p.key)
    ensures !DistinctKeys(done + ([p] + rest))
  {
    var i :| 0 <= i < |done| && done[i].key == p.key;
    var all := done + ([p] + rest);
    assert all[i].key == all[|done|].key;
  }

  lemma DistinctAppend(done: seq<Pair>, p: Pair)
    requires DistinctKeys(done) && !HasKey(done, p.key)
    ensures DistinctKeys(done + [p])
  {
  }

  lemma Whole(s: seq<Byte>, o: Outcome, mem: bool)
    requires ParseValue(s, 0, mem) == With(o, [])
    ensures Parse(s, mem) == With(o, [])
  {
    assert SkipSpace([]) == [];
  }

  // What is printed is parsed as Reread says.
  lemma Printed(v: Value, mem: bool)
    ensures Parse(Stringify(v), mem) == With(Reread(v, 0, mem), [])
  {
    assert Stringify(v) + [] == Stringify(v);
    ValueBack(v, [], 0, mem);
    Whole(Stringify(v), Reread(v, 0, mem), mem);
  }

  lemma PrintedBack(v: Value, mem: bool)
    ensures Parse(Stringify(v), mem) == Ok(v, []) <==> Reread(v, 0, mem) == Back(v)
  {
    Printed(v, mem);
    WithBack(Reread(v, 0, mem), v);
  }

  lemma WithBack(o: Outcome, v: Value)
    ensures With(o, []) == Ok(v, []) <==> o == Back(v)
  {
  }

  // By the grammar alone a value is printed and parsed back to itself exactly if it has no null in it,
  // is nested at most 100 deep and has objects with distinct keys only.
  lemma GrammarRoundTrip(v: Value)
    ensures Parse(Stringify(v), false) == Ok(v, []) <==> Storable(v, MAX_DEPTH)
  {
    PrintedBack(v, false);
    RereadExactly(v, 0);
  }

  // ---------------------------------------------------------------------------------------
  // With every free valid
  // ---------------------------------------------------------------------------------------

  // What is in v are scalars and empty containers.
  ghost predicate Shallow(v: Value) {
    match v
    case Array(values) => forall x :: x in values ==> Freeable(x)
    case Object(pairs) => forall p :: p in pairs ==> Freeable(p.value)
    case _ => true
  }

  // Only an empty container comes back as one.
  lemma FreeableBack(x: Value, d: nat)
    requires d <= MAX_DEPTH
    ensures var o := Reread(x, d, true); (o.Back? && Freeable(o.value)) <==> Freeable(x) && Storable(x, MAX_DEPTH - d)
    ensures Freeable(x) && Storable(x, MAX_DEPTH - d) ==> Reread(x, d, true) == Back(x)
  {
    match x
    case Array(values) =>
      if d < MAX_DEPTH && values != [] {
        ElementsKept(values, d + 1, [], true);
      }
    case Object(pairs) =>
      if d < MAX_DEPTH && pairs != [] {
        MembersGrow(pairs, d + 1, []);
      }
    case _ =>
  }

  lemma MembersGrow(pairs: seq<Pair>, d: nat, done: seq<Pair>)
    requires pairs != []
    ensures var o := RereadMembers(pairs, d, done, true); o.Back? ==> o.value.Object? && o.value.pairs != []
  {
    if Reread(pairs[0].value, d, true).Back? {
      MembersKept(pairs[1..], d, SetPair(done, pairs[0].key, Reread(pairs[0].value, d, true).value), true);
    }
  }

  lemma {:induction false} ElementsReal(values: seq<Value>, d: nat, done: seq<Value>)
    requires d <= MAX_DEPTH
    ensures RereadElements(values, d, done, true) == Back(Array(done + values))
       <==> forall x :: x in values ==> Freeable(x) && Storable(x, MAX_DEPTH - d)
    decreases values
  {
    if values == [] {
      assert done + values == done;
    } else {
      var v := values[0];
      FreeableBack(v, d);
      assert values == [v] + values[1..];
      assert forall x :: x in values <==> x == v || x in values[1..];
      if Freeable(v) && Storable(v, MAX_DEPTH - d) {
        ElementsReal(values[1..], d, done + [v]);
        assert done + values == done + [v] + values[1..];
      } else {
        assert v in values;
      }
    }
  }

  lemma {:induction false} MembersReal(pairs: seq<Pair>, d: nat, done: seq<Pair>)
    requires d <= MAX_DEPTH && DistinctKeys(done)
    ensures RereadMembers(pairs, d, done, true) == Back(Object(done + pairs))
       <==> DistinctKeys(done + pairs) && forall p :: p in pairs ==> Freeable(p.value) && Storable(p.value, MAX_DEPTH - d)
    decreases pairs
  {
    if pairs == [] {
      assert done + pairs == done;
    } else {
      var p := pairs[0];
      FreeableBack(p.value, d);
      assert pairs == [p] + pairs[1..];
      if HasKey(done, p.key) {
        Clash(done, p, pairs[1..]);
      } else if Freeable(p.value) && Storable(p.value, MAX_DEPTH - d) {
        SetPairCases(done, p.key, p.value);
        DistinctAppend(done, p);
        MembersReal(pairs[1..], d, done + [p]);
        assert done + pairs == done + [p] + pairs[1..];
      } else {
        assert p in pairs;
      }
    }
  }

  lemma RereadReal(v: Value)
    ensures Reread(v, 0, true) == Back(v) <==> Storable(v, MAX_DEPTH) && Shallow(v)
  {
    match v
    case Array(values) =>
      ElementsReal(values, 1, []);
      assert [] + values == values;
    case Object(pairs) =>
      MembersReal(pairs, 1, []);
      assert [] + pairs == pairs;
    case _ =>
  }

  // A value is printed and parsed back to itself, with every free valid, exactly if it is storable and
  // every element or member value of it is a scalar or an empty container.
  lemma RoundTrip(v: Value)
    ensures Parse(Stringify(v), true) == Ok(v, []) <==> Storable(v, MAX_DEPTH) && Shallow(v)
  {
    PrintedBack(v, true);
    RereadReal(v);
  }

  // On any text the code does what its grammar says, or something undefined.
  lemma {:induction false} ValueRefines(s: seq<Byte>, d: nat)
    ensures ParseValue(s, d, true).Undefined? || ParseValue(s, d, true) == ParseValue(s, d, false)
    decreases |s|, 3
  {
    var t := SkipSpace(s);
    if t != [] && d < MAX_DEPTH && (t[0] == 91 || t[0] == 123) {
      ElementsRefine(SkipSpace(t[1..]), d + 1, []);
      MembersRefine(SkipSpace(t[1..]), d + 1, []);
    }
  }

  lemma {:induction false} ElementsRefine(s: seq<Byte>, d: nat, done: seq<Value>)
    ensures ParseElements(s, d, done, true).Undefined? || ParseElements(s, d, done, true) == ParseElements(s, d, done, false)
    decreases |s|, 4
  {
    if s != [] {
      ValueRefines(s, d);
      var r := ParseValue(s, d, true);
      if r.Ok? {
        var t := SkipSpace(r.rest);
        if t != [] {
          ElementsRefine(t[1..], d, done + [r.value]);
        }
      }
    }
  }

  lemma {:induction false} MembersRefine(s: seq<Byte>, d: nat, done: seq<Pair>)
    ensures ParseMembers(s, d, done, true).Undefined? || ParseMembers(s, d, done, true) == ParseMembers(s, d, done, false)
    decreases |s|, 4
  {
    if s != [] && ParseKey(s).Ok? {
      ValueRefines(ParseKey(s).rest, d);
      var r := ParseValue(ParseKey(s).rest, d, true);
      if r.Ok? {
        var t := SkipSpace(r.rest);
        if t != [] {
          MembersRefine(t[1..], d, SetPair(done, ParseKey(s).value, r.value));
        }
      }
    }
  }

  lemma Refines(s: seq<Byte>)
    ensures Parse(s, true).Undefined? || Parse(s, true) == Parse(s, false)
  {
    ValueRefines(s, 0);
  }

  // ---------------------------------------------------------------------------------------
  // Values that do not come back
  // ---------------------------------------------------------------------------------------

  // An array of one element.
  lemma OneElement(x: Value, d: nat, mem: bool)
    requires d < MAX_DEPTH
    ensures Reread(Array([x]), d, mem) ==
      var o := Reread(x, d + 1, mem);
      if !o.Back? then Spoiled(o, mem) else if mem && !Freeable(o.value) then Broken else Back(Array([o.value]))
  {
    var o, values := Reread(x, d + 1, mem), [x];
    assert values[1..] == [] && values[0] == x;
    if o.Back? {
      assert [] + [o.value] == [o.value];
      assert RereadElements([], d + 1, [o.value], mem) == Back(Array([o.value]));
    }
    assert Reread(Array(values), d, mem) == RereadElements(values, d + 1, [], mem);
  }

  // An object of one member.
  lemma OneMember(k: Text, x: Value, d: nat, mem: bool)
    requires d < MAX_DEPTH
    ensures Reread(Object([Pair(k, x)]), d, mem) ==
      var o := Reread(x, d + 1, mem);
      if !o.Back? then Spoiled(o, mem) else if mem && !Freeable(o.value) then Broken else Back(Object([Pair(k, o.value)]))
  {
    var o, pairs := Reread(x, d + 1, mem), [Pair(k, x)];
    assert pairs[1..] == [] && pairs[0].value == x;
    if o.Back? {
      assert SetPair([], k, o.value) == [Pair(k, o.value)];
      assert RereadMembers([], d + 1, [Pair(k, o.value)], mem) == Back(Object([Pair(k, o.value)]));
    }
    assert Reread(Object(pairs), d, mem) == RereadMembers(pairs, d + 1, [], mem);
  }

  lemma NullLost()
    ensures Parse(Stringify(Null), true) == Unstored([])
  {
    Printed(Null, true);
  }

  // An element that is null: its pointer is used and was never set.
  lemma NullInArray(v: Value)
    requires v == Array([Null])
    ensures Parse(Stringify(v), true) == Undefined
  {
    Printed(v, true);
    OneElement(Null, 0, true);
  }

  // One array in another, with a number in it: the copy is stored and the original freed.
  lemma ArrayInArray(v: Value)
    requires v == Array([Array([Number(1)])])
    ensures Parse(Stringify(v), true) == Undefined && Parse(Stringify(v), false) == Ok(v, [])
  {
    forall mem: bool ensures Parse(Stringify(v), mem) == if mem then Undefined else Ok(v, []) {
      Printed(v, mem);
      OneElement(Array([Number(1)]), 0, mem);
      OneElement(Number(1), 1, mem);
    }
  }

  lemma ObjectInObject(v: Value, k: Text, l: Text, n: Int32)
    requires v == Object([Pair(k, Object([Pair(l, Number(n))]))])
    ensures Parse(Stringify(v), true) == Undefined && Parse(Stringify(v), false) == Ok(v, [])
  {
    forall mem: bool ensures Parse(Stringify(v), mem) == if mem then Undefined else Ok(v, []) {
      Printed(v, mem);
      OneMember(k, Object([Pair(l, Number(n))]), 0, mem);
      OneMember(l, Number(n), 1, mem);
    }
  }

  // The value of a key that comes again is freed in its place, which is inside the block of pairs.
  lemma RepeatedKeyLost(v: Value, key: Text, m: Int32, n: Int32)
    requires v == Object([Pair(key, Number(m)), Pair(key, Number(n))])
    ensures Parse(Stringify(v), true) == Undefined && Parse(Stringify(v), false) == Ok(Object([Pair(key, Number(n))]), [])
  {
    RepeatedStep(Pair(key, Number(m)), Pair(key, Number(n)), true);
    RepeatedStep(Pair(key, Number(m)), Pair(key, Number(n)), false);
    Printed(v, true);
    Printed(v, false);
  }

  lemma RepeatedStep(first: Pair, second: Pair, mem: bool)
    requires first.key == second.key && first.value.Number? && second.value.Number?
    ensures RereadMembers([first, second], 1, [], mem) == if mem then Broken else Back(Object([second]))
  {
    var pairs := [first, second];
    assert pairs[1..] == [second] && [second][1..] == [];
    assert SetPair([], first.key, first.value) == [first];
    assert [first][0].key == second.key && HasKey([first], second.key);
    assert [first][1..] == [] && [second] + [] == [second];
    assert Reread(second.value, 1, mem) == Back(second.value);
    assert !mem ==> RereadMembers([second], 1, [first], mem) == RereadMembers([], 1, SetPair([first], second.key, second.value), mem);
  }

  // A word behind an array, as in [1] x: the array is freed.
  lemma TrailingText(v: Value, rest: seq<Byte>)
    requires v == Array([Number(1)]) && rest == [32, 120]
    ensures Parse(Stringify(v) + rest, true) == Undefined && Parse(Stringify(v) + rest, false) == Err(InvalidSyntax)
  {
    assert rest[1..] == [120] && SkipSpace([120]) == [120] && SkipSpace(rest) == [120];
    ArrayBack([Number(1)], rest, 0, true);
    ArrayBack([Number(1)], rest, 0, false);
    OneElement(Number(1), 0, true);
    OneElement(Number(1), 0, false);
  }

  // n + 1 arrays, one in the other.
  function Nested(n: nat): Value {
    Array(if n == 0 then [] else [Nested(n - 1)])
  }

  lemma {:induction false} NestedStorable(n: nat, levels: int)
    ensures Storable(Nested(n), levels) <==> n < levels
  {
    if n > 0 {
      NestedStorable(n - 1, levels - 1);
      var inner := Nested(n).values;
      assert inner == [Nested(n - 1)];
      assert inner[0] in inner && forall x :: x in inner ==> x == inner[0];
    }
  }

  // By the grammar a hundred nested arrays come back and a hundred and one do not.
  lemma NestedGrammar(n: nat)
    ensures Parse(Stringify(Nested(n)), false) == Ok(Nested(n), []) <==> n < 100
  {
    GrammarRoundTrip(Nested(n));
    NestedStorable(n, MAX_DEPTH);
  }

  lemma {:induction false} NestedReread(n: nat, d: nat)
    ensures Reread(Nested(n), d, true) ==
      if d + n >= MAX_DEPTH then Refused(DepthExceeded) else if n < 2 then Back(Nested(n)) else Broken
  {
    if n > 0 && d < MAX_DEPTH {
      NestedReread(n - 1, d + 1);
      OneElement(Nested(n - 1), d, true);
    }
  }

  // In fact two come back, three are undefined behaviour, and a hundred and one are refused before
  // anything is freed.
  lemma NestedBack(n: nat)
    ensures Parse(Stringify(Nested(n)), true) ==
      if n < 2 then Ok(Nested(n), []) else if n < 100 then Undefined else Err(DepthExceeded)
  {
    Printed(Nested(n), true);
    NestedReread(n, 0);
  }
}
