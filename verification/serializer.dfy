/**
 * The RESP2 encoder `RedisSerializer` (src/serializer.ts). The class has no
 * fields, so its branch-only members are functions; the two members built
 * around a loop, `serializeArrays` and `isARespType`, are methods proved
 * against the functions that specify them.
 */
module Serializer {
  import opened Wrappers
  import opened RespValues
  import opened Decimal

  const CRLF: string := "\r\n"

  /** `s.indexOf(c)`: the index of the first `c` in `s`, or -1 when there is none. */
  function IndexOf(s: string, c: char): (k: int)
    ensures -1 <= k < |s|
    ensures k == -1 <==> c !in s
    ensures 0 <= k ==> s[k] == c && forall j :: 0 <= j < k ==> s[j] != c
  {
    if s == [] then -1
    else if s[0] == c then 0
    else
      var k := IndexOf(s[1..], c);
      if k == -1 then -1 else k + 1
  }

  /**
   * What the CR/LF test of `serializeSimpleString` lets through. It asks
   * whether the FIRST occurrence of CR (or LF) is at an index above 0, so a
   * string may hold CRs (or LFs) as long as it starts with one.
   */
  predicate PassesCrLfTest(s: string)
  {
    && ('\r' in s ==> s[0] == '\r')
    && ('\n' in s ==> s[0] == '\n')
  }

  function SerializeSimpleString(s: string): (r: Result<string, Failure>)
    ensures r.Ok? <==> PassesCrLfTest(s)
    ensures r.Ok? ==> r.value == "+" + s + CRLF
    ensures r.Fail? ==> r.error == CrOrLfInSimpleString
  {
    if IndexOf(s, '\r') > 0 || IndexOf(s, '\n') > 0 then Fail(CrOrLfInSimpleString)
    else Ok("+" + s + CRLF)
  }

  /** `w` ends with the CR LF terminator every RESP2 line carries. */
  predicate EndsWithCrLf(w: string)
  {
    |w| >= 2 && w[|w| - 2..] == CRLF
  }

  /** `$<length>\r\n<s>\r\n`, the length being the number of characters of `s`. */
  function SerializeBulkStrings(s: string): string
  {
    "$" + IntToString(|s|) + CRLF + s + CRLF
  }

  function SerializeError(message: string): string
  {
    "-" + message + CRLF
  }

  /** A number serializes only when `Math.floor` leaves it unchanged. */
  function SerializeInteger(x: real): (r: Result<string, Failure>)
    ensures r.Ok? <==> x == x.Floor as real
    ensures r.Ok? ==> r.value == ":" + IntToString(x.Floor) + CRLF
    ensures r.Fail? ==> r.error == InvalidInteger(x)
  {
    if x.Floor as real != x then Fail(InvalidInteger(x)) else Ok(":" + IntToString(x.Floor) + CRLF)
  }

  function SerializeNull(): string
  {
    "$-1\r\n"
  }

  /** The RESP2 type byte a value of each kind is written with. */
  function TypeByte(v: Value, useBulkString: bool): char
    requires !v.Other?
  {
    match v
    case Null => '$'
    case Str(_) => if useBulkString then '$' else '+'
    case Num(_) => ':'
    case Err(_) => '-'
    case Arr(_) => '*'
  }

  /**
   * `serialize(input, useBulkString)`. The tests are made in the source's
   * order; the array branch is guarded by `isARespType`, which holds for
   * every array (see `IsARespType`), so every array reaches the array
   * encoding and an invalid element is rejected when it is itself serialized.
   */
  function Serialize(v: Value, useBulkString: bool): (r: Result<string, Failure>)
    ensures v.Null? || v.Err? || (v.Str? && useBulkString) ==> r.Ok?
    ensures v.Other? ==> r == Fail(InvalidInput)
    decreases v
  {
    match v
    case Null => Ok(SerializeNull())
    case Str(s) => if useBulkString then Ok(SerializeBulkStrings(s)) else SerializeSimpleString(s)
    case Num(x) => SerializeInteger(x)
    case Arr(elems) => SerializeArray(elems, useBulkString)
    case Err(message) => Ok(SerializeError(message))
    case Other => Fail(InvalidInput)
  }

  /** The array form: a count line, then every element in order; the first failing element fails the whole. */
  function SerializeArray(elems: seq<Value>, useBulkString: bool): (r: Result<string, Failure>)
    decreases elems, 1
  {
    match SerializeItems(elems, useBulkString)
    case Fail(e) => Fail(e)
    case Ok(body) => Ok("*" + IntToString(|elems|) + CRLF + body)
  }

  /** The elements' encodings concatenated in order, or the failure of the first element that fails. */
  function SerializeItems(elems: seq<Value>, useBulkString: bool): (r: Result<string, Failure>)
    decreases elems, 0
  {
    if elems == [] then Ok("")
    else
      match Serialize(elems[0], useBulkString)
      case Fail(e) => Fail(e)
      case Ok(head) =>
        match SerializeItems(elems[1..], useBulkString)
        case Fail(e) => Fail(e)
        case Ok(tail) => Ok(head + tail)
  }

  /** The private, unused `serializeString`: the string branch of `serialize` as a member of its own. */
  function SerializeString(s: string, useBulkString: bool): (r: Result<string, Failure>)
    ensures r == Serialize(Str(s), useBulkString)
  {
    if useBulkString then Ok(SerializeBulkStrings(s)) else SerializeSimpleString(s)
  }

  /**
   * The bulk-string layout: a `$` line whose number reads back as the count
   * of characters of `s`, then `s` verbatim, whatever it holds, then CR LF.
   */
  lemma BulkStringLayout(s: string)
    ensures var r := SerializeBulkStrings(s);
      && |r| == |IntToString(|s|)| + |s| + 5 && r[0] == '$'
      && ParseInt(r[1..|r| - |s| - 4]) == Some(|s|)
      && r[|r| - |s| - 2..|r| - 2] == s && EndsWithCrLf(r)
  {
    var r := SerializeBulkStrings(s);
    ParseIntToString(|s|);
    assert r[1..|r| - |s| - 4] == IntToString(|s|);
    assert r[|r| - |s| - 2..|r| - 2] == s;
  }

  /**
   * The error line has the simple-string shape with `-` for `+`; its message
   * is written verbatim, with no CR/LF test.
   */
  lemma ErrorLineLayout(message: string)
    ensures var r := SerializeError(message);
      && EndsWithCrLf(r) && |r| == |message| + 3 && r[0] == '-' && r[1..|r| - 2] == message
      && (SerializeSimpleString(message).Ok? ==> r == "-" + SerializeSimpleString(message).value[1..])
  {
  }

  /** The null bulk string is a bulk-string length line whose length is -1, with no payload. */
  lemma NullIsBulkLengthMinusOne()
    ensures SerializeNull() == "$" + IntToString(-1) + CRLF
  {
  }

  /**
   * Every accepted value is written with its kind's RESP2 type byte first and
   * ends with CR LF.
   */
  lemma {:induction false} WireShape(v: Value, useBulkString: bool)
    requires Serialize(v, useBulkString).Ok?
    ensures !v.Other?
    ensures var w := Serialize(v, useBulkString).value; EndsWithCrLf(w) && w[0] == TypeByte(v, useBulkString)
    decreases v
  {
    var w := Serialize(v, useBulkString).value;
    match v
    case Null =>
    case Str(s) =>
      if useBulkString {
        assert w == "$" + IntToString(|s|) + CRLF + s + CRLF;
      } else {
        assert w == "+" + s + CRLF;
      }
    case Num(x) =>
      assert w == ":" + IntToString(x.Floor) + CRLF;
    case Err(message) =>
      assert w == "-" + message + CRLF;
    case Arr(elems) =>
      var body := SerializeItems(elems, useBulkString).value;
      ItemsShape(elems, useBulkString);
      assert w == "*" + IntToString(|elems|) + CRLF + body;
      if body != [] {
        assert w[|w| - 2..] == body[|body| - 2..];
      }
  }

  lemma {:induction false} ItemsShape(elems: seq<Value>, useBulkString: bool)
    requires SerializeItems(elems, useBulkString).Ok?
    ensures var body := SerializeItems(elems, useBulkString).value; body == [] || EndsWithCrLf(body)
    decreases elems
  {
    if elems != [] {
      var head := Serialize(elems[0], useBulkString).value;
      var tail := SerializeItems(elems[1..], useBulkString).value;
      WireShape(elems[0], useBulkString);
      ItemsShape(elems[1..], useBulkString);
      var body := head + tail;
      if tail == [] {
        assert body == head;
      } else {
        assert body[|body| - 2..] == tail[|tail| - 2..];
      }
    }
  }

  /** Encoding the concatenation of two element lists is encoding the first, then the second. */
  lemma {:induction false} SerializeItemsAppend(p: seq<Value>, q: seq<Value>, useBulkString: bool)
    ensures SerializeItems(p + q, useBulkString) ==
      match SerializeItems(p, useBulkString)
      case Fail(e) => Fail(e)
      case Ok(front) =>
        match SerializeItems(q, useBulkString)
        case Fail(e) => Fail(e)
        case Ok(back) => Ok(front + back)
  {
    if p == [] {
      assert p + q == q;
      var back := SerializeItems(q, useBulkString);
      if back.Ok? {
        assert "" + back.value == back.value;
      }
    } else {
      assert (p + q)[0] == p[0];
      assert (p + q)[1..] == p[1..] + q;
      SerializeItemsAppend(p[1..], q, useBulkString);
      var head, front, back := Serialize(p[0], useBulkString), SerializeItems(p[1..], useBulkString),
        SerializeItems(q, useBulkString);
      if head.Ok? && front.Ok? && back.Ok? {
        assert head.value + (front.value + back.value) == (head.value + front.value) + back.value;
      }
    }
  }

  /**
   * `serializeArrays(input, useBulkString)`: `None` stands for a `null`
   * array. The loop appends each element's encoding to `str`; an element
   * that fails ends the call with that failure and no output.
   */
  method SerializeArrays(input: Option<seq<Value>>, useBulkString: bool) returns (r: Result<string, Failure>)
    ensures input.None? ==> r == Ok("*-1\r\n")
    ensures input.Some? ==> r == SerializeArray(input.value, useBulkString)
  {
    if input.None? {
      return Ok("*-1\r\n");
    }
    var elems := input.value;
    var header := "*" + IntToString(|elems|) + CRLF;
    var str := header;
    for i := 0 to |elems|
      invariant SerializeItems(elems[..i], useBulkString).Ok?
      invariant str == header + SerializeItems(elems[..i], useBulkString).value
    {
      var piece := Serialize(elems[i], useBulkString);
      SerializeItemsAppend(elems[..i], [elems[i]], useBulkString);
      assert elems[..i + 1] == elems[..i] + [elems[i]];
      assert SerializeItems([elems[i]], useBulkString) ==
        match piece case Fail(e) => Fail(e) case Ok(w) => Ok(w + "");
      if piece.Fail? {
        SerializeItemsAppend(elems[..i + 1], elems[i + 1..], useBulkString);
        assert elems[..i + 1] + elems[i + 1..] == elems;
        return Fail(piece.error);
      }
      str := str + piece.value;
    }
    assert elems[..|elems|] == elems;
    return Ok(str);
  }

  /**
   * `isARespType(input)`. For an array it walks `for (const elem in input)`,
   * which binds `elem` to each index KEY, a string such as "0", and not to
   * the element; every key passes, so every array passes.
   */
  method IsARespType(input: Value) returns (r: bool)
    ensures r <==> !input.Other?
    decreases if input.Arr? then 1 else 0
  {
    if input.Str? || input.Num? || input.Null? || input.Err? {
      return true;
    }
    if input.Arr? {
      var isValid := true;
      for k := 0 to |input.elems|
        invariant isValid
      {
        var elem := Str(IntToString(k));
        var elemValid := IsARespType(elem);
        isValid := isValid && elemValid;
        if !isValid {
          return false;
        }
      }
      return isValid;
    }
    return false;
  }
}
