# RESP2 encoder, modelled in Dafny

This project models `RedisSerializer` from `src/serializer.ts`. The class turns
an in-memory JavaScript value into its REdis Serialization Protocol (RESP2) wire text.
It writes a single `null` as the null bulk string, a string as a simple string or
(with `useBulkString === true`) as a bulk string, and a whole number as an
integer. An `Error` becomes an error line and an array becomes a count line
followed by its elements. Anything else, and a fractional number, throws.
A simple string with a CR or LF that the check catches throws as well.

Layout:

- `wrappers.dfy`: `Option` and `Result`. A thrown exception is a `Fail`.
- `values.dfy`: the dispatched-on value (`Null`, `Str`, `Num`, `Err`, `Arr`,
  `Other`), the three failures, and `IsRespValue`, the recursive validity the
  encoder is meant to enforce.
- `decimal.dfy`: `${n}` for a whole number, and the reading of that text back.
- `serializer.dfy`: the encoder. The branch-only members (`serialize`,
  `serializeSimpleString`, `serializeBulkStrings`, `serializeInteger`,
  `serializeError`, `serializeNull`, the unused private `serializeString`) are
  functions. The two members built around a loop are methods.
  `SerializeArrays` is proved, through its loop invariants, equal to the
  function `SerializeArray` (the count line followed by `SerializeItems`).
  `IsARespType` is proved to return true exactly for values that are not
  `Other`.
- `reader.dfy`: an independent RESP2 reader. It reads one reply from the front
  of a text and returns the unread rest.
- `properties.dfy`: the encoder's promises, and the round trip. Every value the
  encoder accepts is read back as the reply it stands for.

Behaviour kept as the code has it, where it differs from a plain reading of the
protocol:

- The simple-string check is `indexOf('\r') > 0 || indexOf('\n') > 0`. It looks
  only at the first CR and the first LF, so a string passes when every CR or LF
  in it equals its first character (`PassesCrLfTest`). A CR or LF at index 0 is
  not rejected. Neither is a later CR in a string that starts with a CR:
  `"\r\r"` is accepted (`RepeatedLeadingCrAccepted`). A string passes the test
  only if it never holds CR followed by LF, so accepted simple strings still
  frame correctly (`AcceptedSimpleStringFramed`).
- The bulk-string length is `input.length`, which counts UTF-16 code units, not
  bytes. The model counts characters (see the text-encodings line under "Left out").
- `isARespType` walks an array with `for ... in`, which visits index keys (strings),
  so it holds for every array. An invalid element is rejected only when
  `serialize` reaches it. The whole array then fails with that element's error.
- `serializeArrays`'s `*-1\r\n` branch cannot be reached from `serialize`,
  because `null` is dispatched first. The method keeps the branch, taking
  `Option<seq<Value>>`. `NullArrayUnreachable` proves that no value encodes to
  that text.
- Error messages are not checked for CR/LF. A message holding CR LF is
  encoded, and a reader then sees a different reply (`ErrorMessageBreaksFraming`).
  The round trip therefore assumes error messages without that pair.

## Model

| member | source | states |
|---|---|---|
| `Decimal.IntToString` | src/serializer.ts:93 | the decimal text of a whole number is non-empty, starts with `-` exactly when the number is negative, holds only `-` and digits, and has no leading zero: the spelling `${n}` gives for whole numbers of magnitude at most 2^53 |
| `Decimal.ParseIntToString` | src/serializer.ts:93 | the decimal text of every integer reads back as that integer |
| `Serializer.IndexOf` | src/serializer.ts:97 | `indexOf` is -1 exactly when the character is absent, else the index of its first occurrence |
| `Serializer.SerializeSimpleString` | src/serializer.ts:96-101 | succeeds exactly when the first CR and the first LF (if any) are at index 0; the output is `+` s CRLF; otherwise the CR/LF failure |
| `Serializer.SerializeInteger` | src/serializer.ts:89-94 | succeeds exactly when `Math.floor` leaves the number unchanged, giving `:` decimal CRLF; otherwise the invalid-integer failure carrying the number |
| `Serializer.SerializeString` | src/serializer.ts:80-83 | the unused private helper picks the same form and failure as `serialize` does for a string |
| `Serializer.Serialize` | src/serializer.ts:36-54 | `null`, an error, and a string in bulk mode always encode; a value of no RESP kind fails with the invalid-input error |
| `Serializer.WireShape` | src/serializer.ts:36-54 | every accepted value is written with its kind's RESP2 type byte first (`$`, `+`, `:`, `-`, `*`) and ends with CR LF, arrays included |
| `Serializer.BulkStringLayout` | src/serializer.ts:56-58 | the bulk form is a `$` line whose number reads back as the character count of the string, then the string verbatim whatever it holds, then CR LF |
| `Serializer.ErrorLineLayout` | src/serializer.ts:85-87 | the error line carries the message verbatim between `-` and CR LF, with no CR/LF test; for a message the simple-string test accepts, it is the simple-string line with `-` for `+` |
| `Serializer.NullIsBulkLengthMinusOne` | src/serializer.ts:103-105 | the null form is a bulk-string length line whose length is -1, with no payload |
| `Serializer.SerializeArrays` | src/serializer.ts:107-116 | a null array gives `*-1\r\n`; otherwise the loop's result is the count line plus every element's encoding in order, or the first element failure, with no partial output |
| `Serializer.IsARespType` | src/serializer.ts:126-152 | true for strings, numbers, null, errors and every array whatever its elements; false for any other value |
| `SerializerProperties.NullEncoding` | src/serializer.ts:37-39 | `null` gives `$-1\r\n` in either mode, which a reader reads as the null bulk string |
| `SerializerProperties.NullArrayUnreachable` | src/serializer.ts:108-110 | no value serializes to `*-1\r\n`: the null-array branch is dead |
| `SerializerProperties.SimpleStringWithoutLateBreaks` | src/serializer.ts:40-41 | a string with no CR or LF after index 0 is encoded as `+` s CRLF when bulk mode is off |
| `SerializerProperties.SimpleStringRejected` | src/serializer.ts:97-98 | a CR or LF at a later index that differs from the first character fails with the CR/LF error |
| `SerializerProperties.RepeatedLeadingCrAccepted` | src/serializer.ts:97 | `"\r\r"` is accepted although it holds a CR at index 1 |
| `SerializerProperties.AcceptedSimpleStringFramed` | src/serializer.ts:97-100 | an accepted simple string never holds CR followed by LF |
| `SerializerProperties.BulkStringRoundTrip` | src/serializer.ts:56-58 | in bulk mode any string, CR/LF included, encodes as `$` length CRLF s CRLF, and a reader gets the string back by its character count |
| `SerializerProperties.IntegerEncoding` | src/serializer.ts:44-45 | a number encodes exactly when it is whole and reads back as that integer (for magnitudes up to 2^53, where the source's text is exact); a fractional one fails with the invalid-integer error |
| `SerializerProperties.ErrorEncoding` | src/serializer.ts:85-87 | an error encodes as `-` message CRLF with no check on the message, and reads back whole when the message holds no CR LF |
| `SerializerProperties.ErrorMessageBreaksFraming` | src/serializer.ts:50-51 | an error message holding CR LF is encoded, and a reader then sees a shorter error and leftover text |
| `SerializerProperties.ArrayEncodesElementsInOrder` | src/serializer.ts:111-115 | when every element encodes, the array is `*` count CRLF followed by the element encodings in order, each made in the same mode |
| `SerializerProperties.EmptyArrayEncoding` | src/serializer.ts:111 | the empty array is `*0\r\n` |
| `SerializerProperties.ArrayFailsAtFirstFailure` | src/serializer.ts:112-114 | an array with a failing element fails as a whole with the failure of its first failing element |
| `SerializerProperties.OtherRejected` | src/serializer.ts:53 | a value of no RESP kind fails with the invalid-input error |
| `SerializerProperties.SerializedIsRespValue` | src/serializer.ts:47-53 | whatever serializes holds only RESP kinds at every depth, so a nested invalid value always rejects the whole |
| `SerializerProperties.SerializeRoundTrip` | src/serializer.ts:36-54 | every accepted value whose error messages hold no CR LF is read back by a RESP2 reader as the reply it stands for, and the text after it is left unread |
| `SerializerProperties.ArrayRoundTrip` | src/serializer.ts:47-48 | an accepted array is read back as an array reply of its elements' replies, in order |
| `SerializerProperties.ScalarExamples` | src/serializer.ts:36-54 | `"PING"` gives `+PING\r\n` and `$4\r\nPING\r\n`, 42 gives `:42\r\n`, 3.5 fails, and an error gives `-no such key\r\n` |
| `SerializerProperties.ArrayExample` | src/serializer.ts:111-115 | `["a", "b"]` gives `*2\r\n+a\r\n+b\r\n` |
| `SerializerProperties.RejectedArrayExample` | src/serializer.ts:53 | `["ok", {}]` fails with the invalid-input error as a whole |

## Left out

- `src/benchmark.ts`: a network client run with concurrent calls, process timers
  and floating-point throughput figures. None of it is encoder logic.
- JavaScript number details. `Num` holds an exact real. `NaN` (which fails),
  `Infinity` (which passes as `:Infinity\r\n`), `-0`, double rounding and the
  exponent form for magnitudes of 1e21 and above are not modelled.
- `Decimal.IntToString` writes every digit exactly. JavaScript does so only for
  whole numbers of magnitude at most 2^53. Above that, `${n}` prints the
  shortest digits that read back to the same double, padded with zeros.
  `2**60` is whole, so it passes the `Math.floor` test, and the source writes
  `:1152921504606847000\r\n` where the model writes
  `:1152921504606846976\r\n`. A peer reading the source's line gets a
  different integer. The integer round trip holds for the source only up to 2^53.
- Text encodings: strings are sequences of characters, and the bulk length is
  their number. `input.length` counts UTF-16 code units instead, so the two
  differ for a character outside the Basic Multilingual Plane. The source
  counts 2 for such a character and the model counts 1. Byte lengths are not
  modelled either.
- Aliasing: a JavaScript array can contain itself (`a.push(a)`), and then
  `serialize` recurses through the array branch until the stack overflows with
  a `RangeError`. `Value` is an inductive datatype, so every array is finite
  and acyclic. Such cyclic arrays, and that failure, are not modelled.
- `Serializer.SerializeBulkStrings` takes a string only. The interface also
  admits `null`, which makes the implementation throw a `TypeError` on
  `input.length`.
- The text of the exception messages. A failure carries its kind, and for the
  invalid-integer case the number, but not the formatted message.
- The commented-out dispatch table and `determineType`, which are comments only.
- `RespArray` from `./types` is not part of this model. Arrays are `seq<Value>`,
  dense, with no inherited enumerable properties for `for ... in` to visit.
- `Serializer.Serialize` does not call `IsARespType`, since a function cannot
  call a method. Its array branch relies on `IsARespType`'s proved contract
  that every array passes.
- Determinism needs no lemma, because every encoder member is a function of its arguments.
