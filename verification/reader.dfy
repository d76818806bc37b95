/**
 * A RESP2 reader: what a peer reading the encoder's output sees. It is the
 * partner the encoder is checked against; it reads one reply from the front
 * of its input and hands back the unread rest.
 */
module RespReader {
  import opened Wrappers
  import opened Decimal

  /** The replies of RESP2, the null bulk string and the null array kept apart. */
  datatype Reply =
    | RNull
    | RNullArray
    | RSimple(s: string)
    | RBulk(s: string)
    | RInt(n: int)
    | RError(message: string)
    | RArray(items: seq<Reply>)

  /** `s` holds no CR immediately followed by LF, so a line reader does not stop inside it. */
  predicate NoCrLf(s: string)
  {
    forall i :: 0 <= i < |s| - 1 ==> !(s[i] == '\r' && s[i + 1] == '\n')
  }

  /** Splits `w` at its first CR LF into the line before it and the rest after it. */
  function ReadLine(w: string): (r: Option<(string, string)>)
    ensures r.Some? ==> w == r.value.0 + "\r\n" + r.value.1 && NoCrLf(r.value.0)
  {
    if |w| < 2 then None
    else if w[0] == '\r' && w[1] == '\n' then Some(("", w[2..]))
    else
      match ReadLine(w[1..])
      case None => None
      case Some((line, rest)) => Some(([w[0]] + line, rest))
  }

  /** Reads one reply from the front of `w`. */
  function Parse(w: string): (r: Option<(Reply, string)>)
    ensures r.Some? ==> |r.value.1| < |w|
    decreases |w|, 0, 0
  {
    if w == [] then None
    else
      match ReadLine(w[1..])
      case None => None
      case Some((line, rest)) =>
        if w[0] == '+' then Some((RSimple(line), rest))
        else if w[0] == '-' then Some((RError(line), rest))
        else if w[0] == ':' then
          (match ParseInt(line)
           case None => None
           case Some(n) => Some((RInt(n), rest)))
        else if w[0] == '$' then
          (match ParseInt(line)
           case None => None
           case Some(n) =>
             if n == -1 then Some((RNull, rest))
             else if 0 <= n && n + 2 <= |rest| && rest[n..n + 2] == "\r\n" then Some((RBulk(rest[..n]), rest[n + 2..]))
             else None)
        else if w[0] == '*' then
          (match ParseInt(line)
           case None => None
           case Some(n) =>
             if n == -1 then Some((RNullArray, rest))
             else if n < 0 then None
             else
               match ParseItems(n, rest)
               case None => None
               case Some((items, after)) => Some((RArray(items), after)))
        else None
  }

  /** Reads `n` replies one after the other from the front of `w`. */
  function ParseItems(n: nat, w: string): (r: Option<(seq<Reply>, string)>)
    ensures r.Some? ==> |r.value.1| <= |w| && |r.value.0| == n
    decreases |w|, 1, n
  {
    if n == 0 then Some(([], w))
    else
      match Parse(w)
      case None => None
      case Some((item, rest)) =>
        match ParseItems(n - 1, rest)
        case None => None
        case Some((items, after)) => Some(([item] + items, after))
  }

  /** A line without CR LF, followed by CR LF, is read back exactly. */
  lemma {:induction false} ReadLineFrames(s: string, rest: string)
    requires NoCrLf(s)
    ensures ReadLine(s + "\r\n" + rest) == Some((s, rest))
  {
    var w := s + "\r\n" + rest;
    if s == [] {
      assert w[2..] == rest;
    } else {
      assert w[1..] == s[1..] + "\r\n" + rest;
      assert NoCrLf(s[1..]) by {
        forall i | 0 <= i < |s[1..]| - 1
          ensures !(s[1..][i] == '\r' && s[1..][i + 1] == '\n')
        {
          assert s[1..][i] == s[i + 1] && s[1..][i + 1] == s[i + 2];
        }
      }
      ReadLineFrames(s[1..], rest);
      assert [s[0]] + s[1..] == s;
    }
  }
}
