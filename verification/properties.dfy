/**
 * What the encoder promises, stated over `Serializer.Serialize`, and the
 * round trip through `RespReader.Parse`: every value the encoder accepts is
 * read back by a RESP2 reader as the reply it stands for.
 */
module SerializerProperties {
  import opened Wrappers
  import opened RespValues
  import opened Decimal
  import opened Serializer
  import opened RespReader

  // ----- the reply a value stands for -------------------------------------

  /** The reply a RESP2 peer should read for `v` under the given string mode. */
  function Reading(v: Value, useBulkString: bool): Reply
    requires IsRespValue(v)
    decreases v
  {
    match v
    case Null => RNull
    case Str(s) => if useBulkString then RBulk(s) else RSimple(s)
    case Num(x) => RInt(x.Floor)
    case Err(message) => RError(message)
    case Arr(elems) => RArray(ReadingAll(elems, useBulkString))
  }

  function ReadingAll(elems: seq<Value>, useBulkString: bool): seq<Reply>
    requires forall i :: 0 <= i < |elems| ==> IsRespValue(elems[i])
    decreases elems
  {
    if elems == [] then [] else [Reading(elems[0], useBulkString)] + ReadingAll(elems[1..], useBulkString)
  }

  /** Every error message in `v`, at any depth, is free of the pair CR LF. */
  predicate ErrorMessagesFramed(v: Value)
  {
    match v
    case Err(message) => NoCrLf(message)
    case Arr(elems) => forall i :: 0 <= i < |elems| ==> ErrorMessagesFramed(elems[i])
    case _ => true
  }

  /** The concatenation of `ws` in order. */
  function Concat(ws: seq<string>): string
  {
    if ws == [] then "" else ws[0] + Concat(ws[1..])
  }

  /** The encodings of the elements of `elems`, one per element, in order. */
  function ElementOutputs(elems: seq<Value>, useBulkString: bool): (ws: seq<string>)
    requires forall i :: 0 <= i < |elems| ==> Serialize(elems[i], useBulkString).Ok?
    ensures |ws| == |elems|
  {
    seq(|elems|, i requires 0 <= i < |elems| => Serialize(elems[i], useBulkString).value)
  }

  // ----- null --------------------------------------------------------------

  /** `null` has the one encoding `$-1\r\n` in either mode, and reads back as the null bulk string. */
  lemma NullEncoding(useBulkString: bool, rest: string)
    ensures Serialize(Null, useBulkString) == Ok("$-1\r\n")
    ensures Parse("$-1\r\n" + rest) == Some((RNull, rest))
  {
    var w := "$-1\r\n" + rest;
    assert w[1..] == "-1" + "\r\n" + rest;
    ReadLineFrames("-1", rest);
    assert "-1"[1..] == "1";
    assert ParseInt("-1") == Some(-1);
  }

  /**
   * The `*-1\r\n` branch of `serializeArrays` is dead: `serialize` sends
   * `null` to the null bulk string, and a real array is counted with a
   * non-negative length, so no value serializes to the null array.
   */
  lemma NullArrayUnreachable(v: Value, useBulkString: bool)
    ensures Serialize(v, useBulkString) != Ok("*-1\r\n")
  {
    assert "*-1\r\n"[1] == '-';
    match v
    case Null =>
    case Str(s) =>
      if useBulkString {
        assert SerializeBulkStrings(s)[0] == '$';
      } else if SerializeSimpleString(s).Ok? {
        assert ("+" + s + CRLF)[0] == '+';
      }
    case Num(x) =>
      if SerializeInteger(x).Ok? {
        assert (":" + IntToString(x.Floor) + CRLF)[0] == ':';
      }
    case Err(message) =>
      assert SerializeError(message)[0] == '-';
    case Arr(elems) =>
      if SerializeItems(elems, useBulkString).Ok? {
        var count := IntToString(|elems|);
        var body := SerializeItems(elems, useBulkString).value;
        assert Serialize(v, useBulkString) == Ok("*" + count + CRLF + body);
        assert ("*" + count + CRLF + body)[1] == count[0] != '-';
      }
    case Other =>
  }

  // ----- strings -----------------------------------------------------------

  /** A simple string whose characters after the first are neither CR nor LF is accepted unchanged. */
  lemma SimpleStringWithoutLateBreaks(s: string)
    requires forall i :: 0 < i < |s| ==> s[i] != '\r' && s[i] != '\n'
    ensures Serialize(Str(s), false) == Ok("+" + s + "\r\n")
  {
  }

  /** A CR or LF at a later index that the first character does not match rejects the string. */
  lemma SimpleStringRejected(s: string, i: nat)
    requires 0 < i < |s| && (s[i] == '\r' || s[i] == '\n') && s[i] != s[0]
    ensures Serialize(Str(s), false) == Fail(CrOrLfInSimpleString)
  {
  }

  /**
   * The test looks only at the FIRST CR and the first LF, so a CR at a later
   * index is accepted when the string also starts with a CR.
   */
  lemma RepeatedLeadingCrAccepted()
    ensures Serialize(Str("\r\r"), false) == Ok("+\r\r\r\n")
  {
    assert IndexOf("\r\r", '\r') == 0;
    assert IndexOf("\r\r", '\n') == -1;
    assert "+" + "\r\r" + CRLF == "+\r\r\r\n";
  }

  /** A simple string the test accepts never holds CR then LF, so its line is read back whole. */
  lemma AcceptedSimpleStringFramed(s: string)
    requires PassesCrLfTest(s)
    ensures NoCrLf(s)
  {
  }

  /** Bulk mode never fails, whatever the content, and the reader gets the content back by its length. */
  lemma BulkStringRoundTrip(s: string, rest: string)
    ensures Serialize(Str(s), true) == Ok("$" + IntToString(|s|) + "\r\n" + s + "\r\n")
    ensures Parse(SerializeBulkStrings(s) + rest) == Some((RBulk(s), rest))
  {
    var count := IntToString(|s|);
    var after := s + CRLF + rest;
    var w := SerializeBulkStrings(s) + rest;
    assert w[0] == '$';
    assert w[1..] == count + CRLF + after;
    IntToStringFramed(|s|);
    ReadLineFrames(count, after);
    ParseIntToString(|s|);
    assert after[..|s|] == s;
    assert after[|s|..|s| + 2] == CRLF;
    assert after[|s| + 2..] == rest;
  }

  /** The decimal text of a number holds no CR LF pair. */
  lemma IntToStringFramed(n: int)
    ensures NoCrLf(IntToString(n))
  {
  }

  // ----- numbers and errors -------------------------------------------------

  /**
   * A number serializes exactly when it is whole, and then reads back as that
   * integer; a fractional number fails with the invalid-integer error.
   */
  lemma IntegerEncoding(x: real, useBulkString: bool, rest: string)
    ensures Serialize(Num(x), useBulkString).Ok? <==> x == x.Floor as real
    ensures Serialize(Num(x), useBulkString).Fail? ==> Serialize(Num(x), useBulkString).error == InvalidInteger(x)
    ensures Serialize(Num(x), useBulkString).Ok? ==>
      Parse(Serialize(Num(x), useBulkString).value + rest) == Some((RInt(x.Floor), rest))
  {
    if x == x.Floor as real {
      var digits := IntToString(x.Floor);
      var w := ":" + digits + CRLF + rest;
      assert w[1..] == digits + CRLF + rest;
      IntToStringFramed(x.Floor);
      ReadLineFrames(digits, rest);
      ParseIntToString(x.Floor);
    }
  }

  /**
   * An error is written as `-<message>\r\n` with no CR/LF test on the
   * message; it reads back whole when the message holds no CR LF pair.
   */
  lemma ErrorEncoding(message: string, useBulkString: bool, rest: string)
    ensures Serialize(Err(message), useBulkString) == Ok("-" + message + "\r\n")
    ensures NoCrLf(message) ==> Parse("-" + message + "\r\n" + rest) == Some((RError(message), rest))
  {
    if NoCrLf(message) {
      var w := "-" + message + CRLF + rest;
      assert w[1..] == message + CRLF + rest;
      ReadLineFrames(message, rest);
    }
  }

  /** An error message holding CR LF is accepted, but a reader stops at that CR LF and sees another reply. */
  lemma ErrorMessageBreaksFraming()
    ensures Serialize(Err("a\r\nb"), false) == Ok("-a\r\nb\r\n")
    ensures Parse("-a\r\nb\r\n") == Some((RError("a"), "b\r\n"))
  {
    assert SerializeError("a\r\nb") == "-a\r\nb\r\n";
    var w := "-a\r\nb\r\n";
    assert w[1..] == "a" + "\r\n" + "b\r\n";
    ReadLineFrames("a", "b\r\n");
  }

  // ----- arrays and rejection -------------------------------------------------

  lemma {:induction false} ItemsConcat(elems: seq<Value>, useBulkString: bool)
    requires forall i :: 0 <= i < |elems| ==> Serialize(elems[i], useBulkString).Ok?
    ensures SerializeItems(elems, useBulkString) == Ok(Concat(ElementOutputs(elems, useBulkString)))
  {
    if elems != [] {
      ItemsConcat(elems[1..], useBulkString);
      assert ElementOutputs(elems, useBulkString)[1..] == ElementOutputs(elems[1..], useBulkString);
    }
  }

  /**
   * When every element serializes, the array is its count line followed by
   * the elements' encodings in order, each made in the same mode.
   */
  lemma ArrayEncodesElementsInOrder(elems: seq<Value>, useBulkString: bool)
    requires forall i :: 0 <= i < |elems| ==> Serialize(elems[i], useBulkString).Ok?
    ensures Serialize(Arr(elems), useBulkString) ==
      Ok("*" + IntToString(|elems|) + "\r\n" + Concat(ElementOutputs(elems, useBulkString)))
  {
    ItemsConcat(elems, useBulkString);
  }

  /** The empty array is `*0\r\n`. */
  lemma EmptyArrayEncoding(useBulkString: bool)
    ensures Serialize(Arr([]), useBulkString) == Ok("*0\r\n")
  {
    assert IntToString(0) == "0";
    assert SerializeItems([], useBulkString) == Ok("");
    assert "*" + "0" + CRLF + "" == "*0\r\n";
  }

  lemma {:induction false} ItemsFailAtFirstFailure(elems: seq<Value>, useBulkString: bool, k: nat)
    requires k < |elems| && Serialize(elems[k], useBulkString).Fail?
    requires forall j :: 0 <= j < k ==> Serialize(elems[j], useBulkString).Ok?
    ensures SerializeItems(elems, useBulkString) == Fail(Serialize(elems[k], useBulkString).error)
  {
    if k > 0 {
      ItemsFailAtFirstFailure(elems[1..], useBulkString, k - 1);
    }
  }

  /**
   * An array with a failing element fails as a whole, with the failure of its
   * first failing element: no partial output.
   */
  lemma ArrayFailsAtFirstFailure(elems: seq<Value>, useBulkString: bool, k: nat)
    requires k < |elems| && Serialize(elems[k], useBulkString).Fail?
    requires forall j :: 0 <= j < k ==> Serialize(elems[j], useBulkString).Ok?
    ensures Serialize(Arr(elems), useBulkString) == Fail(Serialize(elems[k], useBulkString).error)
  {
    ItemsFailAtFirstFailure(elems, useBulkString, k);
  }

  /** A value of no RESP kind is rejected with the invalid-input error. */
  lemma OtherRejected(useBulkString: bool)
    ensures Serialize(Other, useBulkString) == Fail(InvalidInput)
  {
  }

  /**
   * Whatever serializes is a RESP value through and through: an array with a
   * non-RESP element at any depth is rejected.
   */
  lemma {:induction false} SerializedIsRespValue(v: Value, useBulkString: bool)
    requires Serialize(v, useBulkString).Ok?
    ensures IsRespValue(v)
    decreases v
  {
    if v.Arr? {
      ItemsAreRespValues(v.elems, useBulkString);
    }
  }

  lemma {:induction false} ItemsAreRespValues(elems: seq<Value>, useBulkString: bool)
    requires SerializeItems(elems, useBulkString).Ok?
    ensures forall i :: 0 <= i < |elems| ==> IsRespValue(elems[i])
    decreases elems
  {
    if elems != [] {
      SerializedIsRespValue(elems[0], useBulkString);
      ItemsAreRespValues(elems[1..], useBulkString);
      forall i | 0 < i < |elems|
        ensures IsRespValue(elems[i])
      {
        assert elems[i] == elems[1..][i - 1];
      }
    }
  }

  // ----- round trip -----------------------------------------------------------

  /**
   * Every value the encoder accepts is read back by a RESP2 reader as the
   * reply it stands for, with whatever follows left unread, provided its
   * error messages hold no CR LF pair (error messages are not checked).
   */
  lemma {:induction false} SerializeRoundTrip(v: Value, useBulkString: bool, rest: string)
    requires Serialize(v, useBulkString).Ok?
    requires ErrorMessagesFramed(v)
    ensures IsRespValue(v)
    ensures Parse(Serialize(v, useBulkString).value + rest) == Some((Reading(v, useBulkString), rest))
    decreases v
  {
    SerializedIsRespValue(v, useBulkString);
    match v
    case Null =>
      NullEncoding(useBulkString, rest);
    case Str(s) =>
      if useBulkString {
        BulkStringRoundTrip(s, rest);
      } else {
        var w := "+" + s + CRLF + rest;
        assert w[1..] == s + CRLF + rest;
        AcceptedSimpleStringFramed(s);
        ReadLineFrames(s, rest);
      }
    case Num(x) =>
      IntegerEncoding(x, useBulkString, rest);
    case Err(message) =>
      ErrorEncoding(message, useBulkString, rest);
    case Arr(elems) =>
      ArrayRoundTrip(elems, useBulkString, rest);
  }

  lemma {:induction false} ArrayRoundTrip(elems: seq<Value>, useBulkString: bool, rest: string)
    requires Serialize(Arr(elems), useBulkString).Ok?
    requires ErrorMessagesFramed(Arr(elems))
    ensures IsRespValue(Arr(elems))
    ensures Parse(Serialize(Arr(elems), useBulkString).value + rest) ==
      Some((RArray(ReadingAll(elems, useBulkString)), rest))
    decreases elems, 1
  {
    SerializedIsRespValue(Arr(elems), useBulkString);
    var count := IntToString(|elems|);
    var body := SerializeItems(elems, useBulkString).value;
    var after := body + rest;
    var w := "*" + count + CRLF + after;
    assert Serialize(Arr(elems), useBulkString).value + rest == w;
    assert w[0] == '*' && ReadLine(w[1..]) == Some((count, after)) by {
      assert w[1..] == count + CRLF + after;
      IntToStringFramed(|elems|);
      ReadLineFrames(count, after);
    }
    ParseIntToString(|elems|);
    ItemsRoundTrip(elems, useBulkString, rest);
  }

  lemma {:induction false} ItemsRoundTrip(elems: seq<Value>, useBulkString: bool, rest: string)
    requires SerializeItems(elems, useBulkString).Ok?
    requires forall i :: 0 <= i < |elems| ==> ErrorMessagesFramed(elems[i])
    ensures forall i :: 0 <= i < |elems| ==> IsRespValue(elems[i])
    ensures ParseItems(|elems|, SerializeItems(elems, useBulkString).value + rest) ==
      Some((ReadingAll(elems, useBulkString), rest))
    decreases elems, 0
  {
    ItemsAreRespValues(elems, useBulkString);
    if elems != [] {
      var head := Serialize(elems[0], useBulkString).value;
      var tail := SerializeItems(elems[1..], useBulkString).value;
      var item, items := Reading(elems[0], useBulkString), ReadingAll(elems[1..], useBulkString);
      assert SerializeItems(elems, useBulkString).value + rest == head + (tail + rest);
      SerializeRoundTrip(elems[0], useBulkString, tail + rest);
      forall i | 0 <= i < |elems[1..]|
        ensures ErrorMessagesFramed(elems[1..][i])
      {
        assert elems[1..][i] == elems[i + 1];
      }
      ItemsRoundTrip(elems[1..], useBulkString, rest);
      assert Parse(head + (tail + rest)) == Some((item, tail + rest));
      assert ParseItems(|elems| - 1, tail + rest) == Some((items, rest));
      assert ParseItems(|elems|, head + (tail + rest)) == Some(([item] + items, rest));
      assert ReadingAll(elems, useBulkString) == [item] + items;
    } else {
      assert SerializeItems(elems, useBulkString).value + rest == rest;
    }
  }

  // ----- worked examples ---------------------------------------------------------

  /** The encodings of a few scalar values, written out. */
  lemma ScalarExamples()
    ensures Serialize(Str("PING"), false) == Ok("+PING\r\n")
    ensures Serialize(Str("PING"), true) == Ok("$4\r\nPING\r\n")
    ensures Serialize(Num(42.0), false) == Ok(":42\r\n")
    ensures Serialize(Num(3.5), false) == Fail(InvalidInteger(3.5))
    ensures Serialize(Err("no such key"), false) == Ok("-no such key\r\n")
  {
    assert SerializeSimpleString("PING") == Ok("+PING\r\n") by {
      assert "+" + "PING" + CRLF == "+PING\r\n";
    }
    assert SerializeBulkStrings("PING") == "$4\r\nPING\r\n" by {
      assert IntToString(|"PING"|) == "4";
    }
    assert SerializeInteger(42.0) == Ok(":42\r\n") by {
      assert (42.0).Floor == 42;
      assert IntToString(42) == "42";
      assert ":" + "42" + CRLF == ":42\r\n";
    }
    assert SerializeError("no such key") == "-no such key\r\n";
  }

  /** An array of two simple strings, written out. */
  lemma ArrayExample()
    ensures Serialize(Arr([Str("a"), Str("b")]), false) == Ok("*2\r\n+a\r\n+b\r\n")
  {
    var a, b := Str("a"), Str("b");
    assert Serialize(a, false) == Ok("+a\r\n") by { assert "+" + "a" + CRLF == "+a\r\n"; }
    assert Serialize(b, false) == Ok("+b\r\n") by { assert "+" + "b" + CRLF == "+b\r\n"; }
    assert SerializeItems([b], false) == Ok("+b\r\n") by {
      assert [b][1..] == [];
      assert "+b\r\n" + "" == "+b\r\n";
    }
    assert SerializeItems([a, b], false) == Ok("+a\r\n+b\r\n") by {
      assert [a, b][0] == a && [a, b][1..] == [b];
      assert "+a\r\n" + "+b\r\n" == "+a\r\n+b\r\n";
    }
    assert IntToString(2) == "2";
    assert "*" + "2" + CRLF + "+a\r\n+b\r\n" == "*2\r\n+a\r\n+b\r\n";
  }

  /** `["ok", {}]` is rejected as a whole, although its first element is fine. */
  lemma RejectedArrayExample()
    ensures Serialize(Arr([Str("ok"), Other]), false) == Fail(InvalidInput)
  {
  }
}
