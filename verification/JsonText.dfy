// The recursive descent parser and the string buffers of src/json/json_parser_module.c.
module JsonText {
  import opened Json
  import JsonMemory

  // ---------------------------------------------------------------------------------------
  // Strings
  // ---------------------------------------------------------------------------------------

  // *ptr++ = c
  method Put(buffer: array<Byte>, at: nat, c: Byte) returns (next: nat)
    requires at < buffer.Length
    modifies buffer
    ensures next == at + 1 && buffer[..next] == old(buffer[..at]) + [c]
  {
    buffer[at] := c;
    next := at + 1;
  }

  // strcpy(ptr, "\\c"); ptr += 2, with room for the NUL it writes too.
  method PutEscape(buffer: array<Byte>, at: nat, c: Byte) returns (next: nat)
    requires at + 2 < buffer.Length
    modifies buffer
    ensures next == at + 2 && buffer[..next] == old(buffer[..at]) + [BACKSLASH, c]
  {
    next := Put(buffer, at, BACKSLASH);
    next := Put(buffer, next, c);
    buffer[next] := 0;
  }

  // One character of the loop that escapes a string.
  method PutChar(buffer: array<Byte>, at: nat, c: Byte) returns (next: nat)
    requires at + 2 < buffer.Length
    modifies buffer
    ensures next <= at + 2 && buffer[..next] == old(buffer[..at]) + Escape1(c)
  {
    if c == QUOTE || c == BACKSLASH {
      next := PutEscape(buffer, at, c);
    } else if c == 8 {
      next := PutEscape(buffer, at, 98);
    } else if c == 12 {
      next := PutEscape(buffer, at, 102);
    } else if c == 10 {
      next := PutEscape(buffer, at, 110);
    } else if c == 13 {
      next := PutEscape(buffer, at, 114);
    } else if c == 9 {
      next := PutEscape(buffer, at, 116);
    } else {
      next := Put(buffer, at, c);
    }
  }

  lemma Associates(a: seq<Byte>, b: seq<Byte>, c: seq<Byte>)
    ensures a + b + c == a + (b + c)
  {
  }

  lemma EscapeStep(s: seq<Byte>, i: nat)
    requires i < |s|
    ensures Escape(s[i..]) == Escape1(s[i]) + Escape(s[i + 1..])
  {
    assert s[i..][1..] == s[i + 1..];
  }

  // The string case of json_stringify: twice the length and three more bytes are enough.
  method StringifyString(s: Text) returns (escaped: array<Byte>, ptr: nat)
    ensures fresh(escaped) && ptr < escaped.Length && escaped[..ptr] == Quoted(s) && escaped[ptr] == 0
  {
    escaped := new Byte[|s| * 2 + 3];
    ptr := Put(escaped, 0, QUOTE);
    ptr := PutChars(escaped, ptr, s);
    ptr := Put(escaped, ptr, QUOTE);
    escaped[ptr] := 0;
  }

  method PutChars(escaped: array<Byte>, start: nat, s: Text) returns (ptr: nat)
    requires start + 2 * |s| + 2 <= escaped.Length
    modifies escaped
    ensures ptr <= start + 2 * |s| && escaped[..ptr] == old(escaped[..start]) + Escape(s)
  {
    ptr := start;
    var src := 0;
    ghost var goal := escaped[..start] + Escape(s);
    assert s[0..] == s;
    while src < |s|
      invariant src <= |s| && ptr <= start + 2 * src && escaped[..ptr] + Escape(s[src..]) == goal
    {
      EscapeStep(s, src);
      Associates(escaped[..ptr], Escape1(s[src]), Escape(s[src + 1..]));
      ptr := PutChar(escaped, ptr, s[src]);
      src := src + 1;
    }
  }

  // How many bytes of the text make the next character, and which it is.
  function Step(str: seq<Byte>): (r: (nat, Byte))
    requires str != [] && str[0] != 0
    ensures 1 <= r.0 <= |str|
  {
    if str[0] == BACKSLASH && |str| > 1 && str[1] != 0 then (2, Unescape1(str[1])) else (1, str[0])
  }

  lemma UnescapeStep(str: seq<Byte>, i: nat, k: nat, c: Byte)
    requires i < |str| && str[i] != 0 && Step(str[i..]) == (k, c)
    ensures Unescape(str[i..]) == [c] + Unescape(str[i + k..])
  {
    assert str[i..][k..] == str[i + k..];
  }

  // unescape_string: the result is no longer than the text. The end of str stands for its NUL.
  method UnescapeString(str: seq<Byte>) returns (result: array<Byte>, dst: nat)
    ensures fresh(result) && dst < result.Length && result[..dst] == Unescape(str) && result[dst] == 0
  {
    result := new Byte[|str| + 1];
    dst := 0;
    var src := 0;
    assert str[0..] == str && result[..0] == [];
    while src < |str| && str[src] != 0
      invariant src <= |str| && dst <= src
      invariant result[..dst] + Unescape(str[src..]) == Unescape(str)
    {
      ghost var r, before := Step(str[src..]), src;
      UnescapeStep(str, src, r.0, r.1);
      Associates(result[..dst], [r.1], Unescape(str[src + r.0..]));
      if str[src] == BACKSLASH && src + 1 < |str| && str[src + 1] != 0 {
        src := src + 1;
        dst := Put(result, dst, Unescape1(str[src]));
        src := src + 1;
      } else {
        dst := Put(result, dst, str[src]);
        src := src + 1;
      }
      assert src == before + r.0;
    }
    result[dst] := 0;
  }

  // ---------------------------------------------------------------------------------------
  // Printing
  // ---------------------------------------------------------------------------------------

  // strcat into a block of capacity bytes: the text and its NUL must fit.
  method Strcat(result: seq<Byte>, capacity: nat, s: seq<Byte>) returns (r: seq<Byte>)
    requires |result| + |s| < capacity
    ensures r == result + s
  {
    r := result + s;
  }

  lemma ElementsStep(values: seq<Value>)
    requires |values| > 1
    ensures Elements(values) == Stringify(values[0]) + [44] + Elements(values[1..])
  {
  }

  lemma MembersStep(pairs: seq<Pair>)
    requires |pairs| > 1
    ensures Members(pairs) == Member(pairs[0]) + [44] + Members(pairs[1..])
  {
  }

  lemma AppendLast(first: seq<Byte>, middle: seq<Byte>, last: seq<Byte>)
    ensures first + [44] + (middle + [44] + last) == first + [44] + middle + [44] + last
  {
    Associates(first + [44], middle, [44] + last);
    Associates(middle, [44], last);
    Associates(first + [44] + middle, [44], last);
  }

  lemma {:induction false} ElementsAppend(values: seq<Value>, v: Value)
    ensures Elements(values + [v]) == (if values == [] then [] else Elements(values) + [44]) + Stringify(v)
  {
    if |values| > 1 {
      ElementsAppend(values[1..], v);
      ElementsStep(values);
      ElementsStep(values + [v]);
      assert (values + [v])[1..] == values[1..] + [v];
      AppendLast(Stringify(values[0]), Elements(values[1..]), Stringify(v));
    } else if |values| == 1 {
      assert (values + [v])[1..] == [v];
    }
  }

  lemma {:induction false} MembersAppend(pairs: seq<Pair>, p: Pair)
    ensures Members(pairs + [p]) == (if pairs == [] then [] else Members(pairs) + [44]) + Member(p)
  {
    if |pairs| > 1 {
      MembersAppend(pairs[1..], p);
      MembersStep(pairs);
      MembersStep(pairs + [p]);
      assert (pairs + [p])[1..] == pairs[1..] + [p];
      AppendLast(Member(pairs[0]), Members(pairs[1..]), Member(p));
    } else if |pairs| == 1 {
      assert (pairs + [p])[1..] == [p];
    }
  }

  lemma ElementsUpTo(values: seq<Value>, i: nat)
    requires i < |values|
    ensures Elements(values[..i + 1]) == (if i == 0 then [] else Elements(values[..i]) + [44]) + Stringify(values[i])
  {
    assert values[..i + 1] == values[..i] + [values[i]];
    ElementsAppend(values[..i], values[i]);
  }

  lemma MembersUpTo(pairs: seq<Pair>, i: nat)
    requires i < |pairs|
    ensures Members(pairs[..i + 1]) == (if i == 0 then [] else Members(pairs[..i]) + [44]) + Member(pairs[i])
  {
    assert pairs[..i + 1] == pairs[..i] + [pairs[i]];
    MembersAppend(pairs[..i], pairs[i]);
  }

  // json_stringify; the blocks it asks realloc for are always large enough.
  method StringifyValue(v: Value) returns (s: seq<Byte>)
    ensures s == Stringify(v)
    decreases v, 1
  {
    match v
    case Null => s := NULL_TEXT;
    case Bool(b) => s := if b then TRUE_TEXT else FALSE_TEXT;
    case Number(n) => s := IntText(n);
    case String(t) =>
      var escaped, ptr := StringifyString(t);
      s := escaped[..ptr];
    case Array(values) => s := StringifyArray(values);
    case Object(pairs) => s := StringifyObject(pairs);
  }

  // realloc for the element, a comma and the NUL.
  method AppendElement(result0: seq<Byte>, i: nat, element: seq<Byte>, ghost open: seq<Byte>, ghost before: seq<Byte>)
    returns (result: seq<Byte>, capacity: nat)
    requires result0 == open + before && (i == 0 ==> before == [])
    ensures result == open + ((if i == 0 then [] else before + [44]) + element) && |result| < capacity
  {
    result, capacity := result0, |result0| + |element| + 2;
    if i > 0 {
      result := Strcat(result, capacity, [44]);
    }
    result := Strcat(result, capacity, element);
  }

  // realloc for the key, the value, a comma, a colon and the NUL.
  method AppendMember(result0: seq<Byte>, i: nat, key: seq<Byte>, value: seq<Byte>, ghost open: seq<Byte>, ghost before: seq<Byte>)
    returns (result: seq<Byte>, capacity: nat)
    requires result0 == open + before && (i == 0 ==> before == [])
    ensures result == open + ((if i == 0 then [] else before + [44]) + (key + [58] + value)) && |result| < capacity
  {
    result, capacity := result0, |result0| + |key| + |value| + 3;
    if i > 0 {
      result := Strcat(result, capacity, [44]);
    }
    result := Strcat(result, capacity, key);
    result := Strcat(result, capacity, [58]);
    result := Strcat(result, capacity, value);
  }

  method StringifyArray(values: seq<Value>) returns (result: seq<Byte>)
    ensures result == Stringify(Array(values))
    decreases values, 2
  {
    var capacity := 2;
    result := Strcat([], capacity, [91]);
    var i := 0;
    while i < |values|
      invariant i <= |values| && result == [91] + Elements(values[..i]) && |result| < capacity
    {
      var element := StringifyValue(values[i]);
      ElementsUpTo(values, i);
      result, capacity := AppendElement(result, i, element, [91], Elements(values[..i]));
      i := i + 1;
    }
    assert values[..|values|] == values;
    capacity := |result| + 2;
    result := Strcat(result, capacity, [93]);
  }

  method StringifyObject(pairs: seq<Pair>) returns (result: seq<Byte>)
    ensures result == Stringify(Object(pairs))
    decreases pairs, 2
  {
    var capacity := 2;
    result := Strcat([], capacity, [123]);
    var i := 0;
    while i < |pairs|
      invariant i <= |pairs| && result == [123] + Members(pairs[..i]) && |result| < capacity
    {
      var escaped, ptr := StringifyString(pairs[i].key);
      var key := escaped[..ptr];
      var value := StringifyValue(pairs[i].value);
      MembersUpTo(pairs, i);
      result, capacity := AppendMember(result, i, key, value, [123], Members(pairs[..i]));
      i := i + 1;
    }
    assert pairs[..|pairs|] == pairs;
    capacity := |result| + 2;
    result := Strcat(result, capacity, [125]);
  }

  // ---------------------------------------------------------------------------------------
  // Objects
  // ---------------------------------------------------------------------------------------

  lemma {:induction false} SetPairAt(pairs: seq<Pair>, key: Text, value: Value, i: nat)
    requires i <= |pairs| && (forall k :: 0 <= k < i ==> pairs[k].key != key) && (i < |pairs| ==> pairs[i].key == key)
    ensures SetPair(pairs, key, value) == if i < |pairs| then pairs[i := Pair(key, value)] else pairs + [Pair(key, value)]
  {
    if i > 0 {
      SetPairAt(pairs[1..], key, value, i - 1);
    }
  }

  class ObjectValue {
    var pairs: seq<Pair>

    constructor ()
      ensures pairs == []
    {
      pairs := [];
    }

    // json_object_set: for a key that is there already the old value is freed where it stands, which
    // is never valid; valid says that it has not come to this.
    method Set(key: Text, value: Value) returns (valid: bool)
      modifies this
      ensures valid <==> !HasKey(old(pairs), key)
      ensures valid ==> pairs == SetPair(old(pairs), key, value) == old(pairs) + [Pair(key, value)]
    {
      var i := 0;
      while i < |pairs|
        invariant i <= |pairs| && pairs == old(pairs)
        invariant forall k :: 0 <= k < i ==> pairs[k].key != key
      {
        if pairs[i].key == key {
          valid := JsonMemory.ReleaseMember(pairs[i].value, i);
          return;
        }
        i := i + 1;
      }
      SetPairAt(pairs, key, value, i);
      pairs := pairs + [Pair(key, value)];
      valid := true;
    }
  }

  // ---------------------------------------------------------------------------------------
  // The parser
  // ---------------------------------------------------------------------------------------

  // What *result holds: parse_null reports success and stores nothing, and Foreign is a number that the
  // model does not have. Halted: something undefined has happened.
  datatype Stored<T> = Set(value: T) | Unset | Foreign | Halted

  datatype Failure = NoError | Failed(error: Error)

  class Parser {
    const input: seq<Byte>
    var position: nat
    var depth: nat
    var lastError: Failure

    ghost predicate Valid()
      reads this`position
    {
      position <= |input|
    }

    ghost function Left(): seq<Byte>
      requires Valid()
      reads this`position
    {
      input[position..]
    }

    constructor (text: seq<Byte>)
      ensures input == text && Valid() && position == 0 && depth == 0
    {
      input, position, depth, lastError := text, 0, 0, NoError;
    }

    // The outcome r of a specification function, as the C code reports it.
    ghost predicate Reports<T(!new)>(r: Result<T>, code: int, result: Stored<T>)
      requires Valid()
      reads this`position, this`lastError
    {
      match r
      case Ok(v, rest) => code == 0 && result == Set(v) && Left() == rest
      case Err(e) => code == -1 && lastError == Failed(e) && result == Unset
      case Unstored(rest) => code == 0 && result == Unset && Left() == rest
      case Unknown => code == 0 && result == Foreign
      case Undefined => result == Halted
    }

    method Fail<T>(e: Error) returns (code: int, result: Stored<T>)
      modifies this`lastError
      ensures code == -1 && lastError == Failed(e) && result == Unset
    {
      lastError := Failed(e);
      code, result := -1, Unset;
    }

    method SkipWhitespace()
      requires Valid()
      modifies this`position
      ensures Valid() && old(position) <= position && Left() == SkipSpace(old(Left()))
    {
      while position < |input| && IsSpace(input[position])
        invariant Valid() && old(position) <= position
        invariant SkipSpace(Left()) == SkipSpace(old(Left()))
      {
        assert input[position..][1..] == input[position + 1..];
        position := position + 1;
      }
    }

    // One iteration of the loop of parse_string: found is where the loop returns.
    method QuoteStep(start: nat) returns (found: bool, closing: Closing)
      requires start <= position < |input|
      modifies this`position
      ensures old(position) <= position <= |input| && (!found ==> old(position) < position)
      ensures if found then closing == Reached(input, old(position), start) && (closing.At? ==> position == start + closing.k)
              else Reached(input, position, start) == Reached(input, old(position), start)
    {
      found, closing := false, Unterminated;
      var c := input[position];
      if c == QUOTE {
        return true, At(position - start);
      }
      ClosingStep(input, position, start);
      if c == BACKSLASH {
        position := position + 1;
        if position >= |input| {
          return true, BadEscape;
        }
      }
      position := position + 1;
    }

    // The loop of parse_string: the position of the closing quote, or why there is none.
    method FindQuote() returns (closing: Closing)
      requires Valid()
      modifies this`position
      ensures Valid() && closing == FindClosing(old(Left()))
      ensures old(position) <= position && (closing.At? ==> position == old(position) + closing.k)
    {
      var start := position;
      ghost var want := Reached(input, start, start);
      while position < |input|
        invariant start <= position <= |input| && Reached(input, position, start) == want
      {
        var found;
        found, closing := QuoteStep(start);
        if found {
          return;
        }
      }
      closing := Unterminated;
    }

    // parse_string, at an opening quote.
    method ParseText() returns (code: int, result: Stored<Text>)
      requires Valid() && position < |input|
      modifies this`position, this`lastError
      ensures Valid() && old(position) < position
      ensures Reports(ParseString(old(Left())), code, result)
    {
      ghost var s := Left();
      position := position + 1;
      var start := position;
      assert s[1..] == input[start..];
      var closing := FindQuote();
      if closing.Unterminated? {
        code, result := Fail(UnterminatedString);
      } else if closing.BadEscape? {
        code, result := Fail(InvalidEscape);
      } else {
        var buffer, length := UnescapeString(input[start..position]);
        assert s[1..1 + closing.k] == input[start..position];
        assert s[closing.k + 2..] == input[position + 1..];
        code, result := 0, Set(buffer[..length]);
        position := position + 1;
      }
    }

    method Unexpected() returns (code: int, result: Stored<Value>)
      modifies this`lastError
      ensures code == -1 && lastError == Failed(UnexpectedToken) && result == Unset
    {
      code, result := Fail(UnexpectedToken);
    }

    // parse_value
    method ParseValue() returns (code: int, result: Stored<Value>)
      requires Valid()
      modifies this`position, this`depth, this`lastError
      ensures Valid() && depth == old(depth) && old(position) <= position
      ensures Reports(Json.ParseValue(old(Left()), depth, true), code, result)
      decreases |input| - position, 1
    {
      SkipWhitespace();
      if position >= |input| {
        code, result := Unexpected();
        return;
      }
      var c := input[position];
      if c == 123 {
        code, result := ParseObject();
      } else if c == 91 {
        code, result := ParseArray();
      } else {
        code, result := ParseScalar(depth);
      }
    }

    // The cases of parse_value without nesting.
    method ParseScalar(ghost d: nat) returns (code: int, result: Stored<Value>)
      requires Valid() && position < |input| && !IsSpace(input[position]) && input[position] != 123 && input[position] != 91
      modifies this`position, this`lastError
      ensures Valid() && old(position) <= position
      ensures Reports(Json.ParseValue(old(Left()), d, true), code, result)
    {
      var c := input[position];
      NoSpace(Left());
      if c == QUOTE {
        var text;
        code, text := ParseText();
        result := if text.Set? then Set(String(text.value)) else Unset;
      } else if c == 116 || c == 102 {
        code, result := ParseBoolean();
      } else if c == 110 {
        code, result := ParseNull();
      } else if c == 45 || IsDigit(c) {
        code, result := ParseNumeral();
      } else {
        code, result := Unexpected();
      }
    }

    // parse_bool; position + 3 < length is what makes four characters left.
    method ParseBoolean() returns (code: int, result: Stored<Value>)
      requires Valid()
      modifies this`position, this`lastError
      ensures Valid() && old(position) <= position
      ensures Reports(ParseBool(old(Left())), code, result)
    {
      ghost var s := Left();
      if position + 3 < |input| && input[position..position + 4] == TRUE_TEXT {
        assert s[..4] == TRUE_TEXT;
        position := position + 4;
        assert s[4..] == Left();
        return 0, Set(Bool(true));
      }
      if position + 4 < |input| && input[position..position + 5] == FALSE_TEXT {
        assert s[..5] == FALSE_TEXT;
        position := position + 5;
        assert s[5..] == Left();
        return 0, Set(Bool(false));
      }
      PrefixHere(input, position, TRUE_TEXT);
      PrefixHere(input, position, FALSE_TEXT);
      code, result := Unexpected();
    }

    // parse_null
    method ParseNull() returns (code: int, result: Stored<Value>)
      requires Valid()
      modifies this`position, this`lastError
      ensures Valid() && old(position) <= position
      ensures if NULL_TEXT <= old(Left()) then code == 0 && result == Unset && Left() == old(Left())[4..]
              else code == -1 && lastError == Failed(UnexpectedToken) && result == Unset
    {
      PrefixHere(input, position, NULL_TEXT);
      if position + 3 < |input| && input[position..position + 4] == NULL_TEXT {
        assert Left()[4..] == input[position + 4..];
        position := position + 4;
        return 0, Unset;
      }
      code, result := Unexpected();
    }

    // parse_number, with strtod's answer for integers.
    method ParseNumeral() returns (code: int, result: Stored<Value>)
      requires Valid() && position < |input| && (input[position] == 45 || IsDigit(input[position]))
      modifies this`position, this`lastError
      ensures Valid() && old(position) <= position
      ensures Reports(ParseNumber(old(Left())), code, result)
    {
      var r := ParseNumber(input[position..]);
      match r
      case Ok(v, rest) =>
        ParsedSuffix(input[position..]);
        position := |input| - |rest|;
        code, result := 0, Set(v);
      case Err(e) =>
        code, result := Fail(e);
      case _ =>
        code, result := 0, Foreign;
    }

    // One iteration of the loop of parse_array: finished is where the loop returns.
    method ArrayStep(done0: seq<Value>) returns (finished: bool, done: seq<Value>, code: int, result: Stored<Value>)
      requires Valid() && position < |input|
      modifies this`position, this`depth, this`lastError
      ensures Valid() && depth == old(depth) && old(position) <= position
      ensures finished ==> Reports(ParseElements(old(Left()), depth, done0, true), code, result)
      ensures !finished ==> old(position) < position
      ensures !finished ==> ParseElements(Left(), depth, done, true) == ParseElements(old(Left()), depth, done0, true)
      decreases |input| - position, 2
    {
      ElementsByElement(Left(), depth, done0);
      finished, done := true, done0;
      code, result := ParseValue();
      if code != 0 || result.Foreign? || result.Halted? {
        return;
      }
      if result.Unset? {
        // json_array_add and json_free of a pointer that was not set
        result := Halted;
        return;
      }
      done := done + [result.value];
      var valid := JsonMemory.Release(result.value);
      if !valid {
        result := Halted;
        return;
      }
      finished, code, result := ArrayNext(done);
    }

    // A comma or the closing bracket behind an element.
    method ArrayNext(done: seq<Value>) returns (finished: bool, code: int, result: Stored<Value>)
      requires Valid()
      modifies this`position, this`lastError
      ensures Valid() && old(position) <= position
      ensures finished ==> Reports(AfterElement(SkipSpace(old(Left())), depth, done), code, result)
      ensures !finished ==> old(position) < position
      ensures !finished ==> ParseElements(Left(), depth, done, true) == AfterElement(SkipSpace(old(Left())), depth, done)
    {
      finished, code, result := true, 0, Unset;
      SkipWhitespace();
      if position >= |input| {
        code, result := Unexpected();
        return;
      }
      if input[position] == 93 {
        position := position + 1;
        result := Set(Array(done));
        return;
      }
      if input[position] != 44 {
        code, result := Unexpected();
        return;
      }
      position := position + 1;
      finished := false;
    }

    // The opening bracket or brace, and the closing one if it follows.
    method Open(close: Byte) returns (empty: bool)
      requires Valid() && position < |input|
      modifies this`position
      ensures Valid() && old(position) < position
      ensures var u := SkipSpace(old(Left())[1..]);
        if empty then u != [] && u[0] == close && Left() == u[1..] else (u == [] || u[0] != close) && Left() == u
    {
      assert Left()[1..] == input[position + 1..];
      position := position + 1;
      SkipWhitespace();
      empty := position < |input| && input[position] == close;
      if empty {
        assert Left()[1..] == input[position + 1..];
        position := position + 1;
      }
    }

    // parse_array, at its bracket.
    method ParseArray() returns (code: int, result: Stored<Value>)
      requires Valid() && position < |input|
      modifies this`position, this`depth, this`lastError
      ensures Valid() && depth == old(depth) && old(position) <= position
      ensures Reports(Json.ParseArray(old(Left()), depth, true), code, result)
      decreases |input| - position, 0
    {
      if depth >= MAX_DEPTH {
        code, result := Fail(DepthExceeded);
        return;
      }
      depth := depth + 1;
      var empty := Open(93);
      if empty {
        depth := depth - 1;
        return 0, Set(Array([]));
      }
      code, result := ArrayLoop();
      depth := depth - 1;
    }

    method ArrayLoop() returns (code: int, result: Stored<Value>)
      requires Valid()
      modifies this`position, this`depth, this`lastError
      ensures Valid() && depth == old(depth) && old(position) <= position
      ensures Reports(ParseElements(old(Left()), depth, [], true), code, result)
      decreases |input| - position, 4
    {
      var done := [];
      while position < |input|
        invariant Valid() && depth == old(depth) && old(position) <= position
        invariant ParseElements(Left(), depth, done, true) == ParseElements(old(Left()), depth, [], true)
        decreases |input| - position
      {
        var finished;
        finished, done, code, result := ArrayStep(done);
        if finished {
          return;
        }
      }
      code, result := Fail(UnterminatedString);
    }

    // A key and the colon behind it, as the loop of parse_object reads them.
    method ParseMemberKey() returns (code: int, key: Stored<Text>)
      requires Valid()
      modifies this`position, this`lastError
      ensures Valid() && old(position) <= position && (code == 0 ==> old(position) < position)
      ensures Reports(ParseKey(old(Left())), code, key)
    {
      SkipWhitespace();
      if position >= |input| {
        code, key := Fail(UnterminatedString);
        return;
      }
      if input[position] != QUOTE {
        code, key := Fail(UnexpectedToken);
        return;
      }
      code, key := ParseText();
      if code != 0 {
        return;
      }
      SkipWhitespace();
      if position >= |input| || input[position] != 58 {
        code, key := Fail(UnexpectedToken);
        return;
      }
      position := position + 1;
    }

    // A key and its value.
    method ParseMember() returns (code: int, result: Stored<Pair>)
      requires Valid() && position < |input|
      modifies this`position, this`depth, this`lastError
      ensures Valid() && depth == old(depth) && old(position) <= position
      ensures Reports(MemberAt(old(Left()), depth), code, result)
      decreases |input| - position, 2
    {
      var key, value;
      code, key := ParseMemberKey();
      if code != 0 {
        return code, Unset;
      }
      code, value := ParseValue();
      match value
      case Set(v) => result := Set(Pair(key.value, v));
      case Unset => result := if code == 0 then Halted else Unset;
      case Foreign => result := Foreign;
      case Halted => result := Halted;
    }

    // One iteration of the loop of parse_object.
    method ObjectStep(builder: ObjectValue) returns (finished: bool, code: int, result: Stored<Value>)
      requires Valid() && position < |input|
      modifies this`position, this`depth, this`lastError, builder
      ensures Valid() && depth == old(depth) && old(position) <= position
      ensures finished ==> Reports(ParseMembers(old(Left()), depth, old(builder.pairs), true), code, result)
      ensures !finished ==> old(position) < position
      ensures !finished ==> ParseMembers(Left(), depth, builder.pairs, true) == ParseMembers(old(Left()), depth, old(builder.pairs), true)
      decreases |input| - position, 3
    {
      MembersByMember(Left(), depth, builder.pairs);
      finished, result := true, Unset;
      var member;
      code, member := ParseMember();
      if !member.Set? {
        result := if member.Halted? then Halted else if member.Foreign? then Foreign else Unset;
        return;
      }
      var valid := builder.Set(member.value.key, member.value.value);
      if valid {
        valid := JsonMemory.Release(member.value.value);
      }
      if !valid {
        result := Halted;
        return;
      }
      finished, code, result := ObjectNext(builder);
    }

    // A comma or the closing brace behind a member.
    method ObjectNext(builder: ObjectValue) returns (finished: bool, code: int, result: Stored<Value>)
      requires Valid()
      modifies this`position, this`lastError
      ensures Valid() && old(position) <= position
      ensures finished ==> Reports(AfterPair(SkipSpace(old(Left())), depth, builder.pairs), code, result)
      ensures !finished ==> old(position) < position
      ensures !finished ==> ParseMembers(Left(), depth, builder.pairs, true) == AfterPair(SkipSpace(old(Left())), depth, builder.pairs)
    {
      finished, result := true, Unset;
      SkipWhitespace();
      code := 0;
      if position >= |input| {
        code, result := Unexpected();
        return;
      }
      if input[position] == 125 {
        position := position + 1;
        result := Set(Object(builder.pairs));
        return;
      }
      if input[position] != 44 {
        code, result := Unexpected();
        return;
      }
      position := position + 1;
      finished := false;
    }

    // parse_object, at its brace.
    method ParseObject() returns (code: int, result: Stored<Value>)
      requires Valid() && position < |input|
      modifies this`position, this`depth, this`lastError
      ensures Valid() && depth == old(depth) && old(position) <= position
      ensures Reports(Json.ParseObject(old(Left()), depth, true), code, result)
      decreases |input| - position, 0
    {
      if depth >= MAX_DEPTH {
        code, result := Fail(DepthExceeded);
        return;
      }
      depth := depth + 1;
      var builder := new ObjectValue();
      var empty := Open(125);
      if empty {
        depth := depth - 1;
        return 0, Set(Object([]));
      }
      code, result := ObjectLoop(builder);
      depth := depth - 1;
    }

    method ObjectLoop(builder: ObjectValue) returns (code: int, result: Stored<Value>)
      requires Valid()
      modifies this`position, this`depth, this`lastError, builder
      ensures Valid() && depth == old(depth) && old(position) <= position
      ensures Reports(ParseMembers(old(Left()), depth, old(builder.pairs), true), code, result)
      decreases |input| - position, 4
    {
      while position < |input|
        invariant Valid() && depth == old(depth) && old(position) <= position
        invariant ParseMembers(Left(), depth, builder.pairs, true) == ParseMembers(old(Left()), depth, old(builder.pairs), true)
        decreases |input| - position
      {
        var finished;
        finished, code, result := ObjectStep(builder);
        if finished {
          return;
        }
      }
      code, result := Fail(UnterminatedString);
    }
  }

  // What the loop of parse_array makes of an element.
  function AfterValue(r: Result<Value>, d: nat, done: seq<Value>): Result<Value> {
    match r
    case Err(e) => Err(e)
    case Unknown => Unknown
    case Unstored(_) => Undefined
    case Undefined => Undefined
    case Ok(v, rest) => if Freeable(v) then AfterElement(SkipSpace(rest), d, done + [v]) else Undefined
  }

  function AfterElement(t: seq<Byte>, d: nat, done: seq<Value>): Result<Value> {
    if t == [] then Err(UnexpectedToken)
    else if t[0] == 93 then Ok(Array(done), t[1..])
    else if t[0] != 44 then Err(UnexpectedToken)
    else ParseElements(t[1..], d, done, true)
  }

  lemma ElementsByElement(s: seq<Byte>, d: nat, done: seq<Value>)
    requires s != []
    ensures ParseElements(s, d, done, true) == AfterValue(Json.ParseValue(s, d, true), d, done)
  {
  }

  // The member that begins at s.
  function MemberAt(s: seq<Byte>, d: nat): (r: Result<Pair>)
    ensures r.Ok? ==> |r.rest| < |s|
  {
    match ParseKey(s)
    case Err(e) => Err(e)
    case Unstored(_) => Unknown
    case Unknown => Unknown
    case Undefined => Undefined
    case Ok(key, afterKey) =>
      match Json.ParseValue(afterKey, d, true)
      case Err(e) => Err(e)
      case Unstored(_) => Undefined
      case Unknown => Unknown
      case Undefined => Undefined
      case Ok(v, rest) => Ok(Pair(key, v), rest)
  }

  // What the loop makes of a member.
  function AfterMember(r: Result<Pair>, d: nat, done: seq<Pair>): Result<Value> {
    match r
    case Err(e) => Err(e)
    case Unstored(_) => Undefined
    case Unknown => Unknown
    case Undefined => Undefined
    case Ok(p, rest) =>
      if Settable(done, p.key, p.value) then AfterPair(SkipSpace(rest), d, SetPair(done, p.key, p.value)) else Undefined
  }

  function AfterPair(t: seq<Byte>, d: nat, pairs: seq<Pair>): Result<Value> {
    if t == [] then Err(UnexpectedToken)
    else if t[0] == 125 then Ok(Object(pairs), t[1..])
    else if t[0] != 44 then Err(UnexpectedToken)
    else ParseMembers(t[1..], d, pairs, true)
  }

  lemma MembersByMember(s: seq<Byte>, d: nat, done: seq<Pair>)
    requires s != []
    ensures ParseMembers(s, d, done, true) == AfterMember(MemberAt(s, d), d, done)
  {
    var k := ParseKey(s);
    if k.Ok? {
      MembersByValue(s, d, done, k.value, k.rest, Json.ParseValue(k.rest, d, true));
    }
  }

  lemma MembersByValue(s: seq<Byte>, d: nat, done: seq<Pair>, key: Text, text: seq<Byte>, r: Result<Value>)
    requires s != [] && ParseKey(s) == Ok(key, text) && Json.ParseValue(text, d, true) == r
    ensures ParseMembers(s, d, done, true) ==
      AfterMember(if r.Ok? then Ok(Pair(key, r.value), r.rest) else if r.Err? then Err(r.error) else if r.Unknown? then Unknown else Undefined, d, done)
  {
  }

  lemma PrefixHere(input: seq<Byte>, p: nat, text: seq<Byte>)
    requires p <= |input|
    ensures text <= input[p..] <==> p + |text| <= |input| && input[p..p + |text|] == text
  {
    if p + |text| <= |input| {
      assert input[p..][..|text|] == input[p..p + |text|];
    }
  }

  // What is left behind a number is the end of the text.
  lemma ParsedSuffix(s: seq<Byte>)
    requires s != [] && (s[0] == 45 || IsDigit(s[0])) && ParseNumber(s).Ok?
    ensures ParseNumber(s).rest == s[|s| - |ParseNumber(s).rest|..]
  {
    DigitsSuffix(if s[0] == 45 then s[1..] else s, 0);
  }

  lemma {:induction false} DigitsSuffix(s: seq<Byte>, acc: nat)
    ensures var r := ReadDigits(s, acc).1; r == s[|s| - |r|..]
  {
    if s != [] && IsDigit(s[0]) {
      DigitsSuffix(s[1..], acc * 10 + (s[0] - 48));
    }
  }

  // json_parse, given a pointer that is not set.
  method ParseJson(text: seq<Byte>) returns (code: int, result: Stored<Value>, error: Failure)
    ensures match Parse(text, true)
            case Ok(v, _) => code == 0 && result == Set(v) && error == NoError
            case Err(e) => code == -1 && result == Unset && error == Failed(e)
            case Unstored(_) => code == 0 && result == Unset && error == NoError
            case Unknown => !result.Halted? && ((code == 0 && error == NoError) || (code == -1 && error != NoError))
            case Undefined => result == Halted
  {
    var parser := new Parser(text);
    assert text[0..] == text;
    code, result := parser.ParseValue();
    if code != 0 || result.Halted? {
      return code, result, parser.lastError;
    }
    parser.SkipWhitespace();
    if parser.position < |parser.input| {
      // json_free of what was stored, or of a pointer that was not set
      var valid := result.Foreign?;
      if result.Set? {
        valid := JsonMemory.Release(result.value);
      }
      return -1, if valid then Unset else Halted, Failed(InvalidSyntax);
    }
    error := NoError;
  }

  // Where the string that starts at start ends, looking on at p.
  function Reached(input: seq<Byte>, p: nat, start: nat): Closing
    requires start <= p <= |input|
  {
    Later(p - start, FindClosing(input[p..]))
  }

  lemma ClosingStep(input: seq<Byte>, p: nat, start: nat)
    requires start <= p < |input| && input[p] != QUOTE
    ensures input[p] != BACKSLASH ==> Reached(input, p, start) == Reached(input, p + 1, start)
    ensures input[p] == BACKSLASH && p + 1 < |input| ==> Reached(input, p, start) == Reached(input, p + 2, start)
    ensures input[p] == BACKSLASH && p + 1 == |input| ==> Reached(input, p, start) == BadEscape
  {
    assert input[p..][1..] == input[p + 1..];
    if p + 1 < |input| {
      assert input[p..][2..] == input[p + 2..];
    }
  }
}
