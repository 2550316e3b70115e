/** parseRESP of resp/resp3.go, and the encoding of RESP3 messages that it is to read back. */
module Resp {
  import opened Util
  import opened RespText
  import opened MapFill

  /** The nodes the parser returns; `Nothing` is the nil of its default case. A Double keeps its text. */
  datatype Node =
    | Nothing
    | BlobString(value: Bytes)
    | SimpleString(text: Bytes)
    | Error(message: Bytes)
    | Integer(num: int)
    | Null
    | Boolean(flag: bool)
    | Double(digits: Bytes)
    | BigNum(digits: Bytes)
    | BlobError(message: Bytes)
    | Verbatim(format: Bytes, value: Bytes)
    | Array(elements: seq<Node>)
    | Set(elements: seq<Node>)
    | Push(elements: seq<Node>)
    | Map(entries: map<Node, Node>)

  /** A parse ends with a value and the unread bytes, or in a runtime panic. */
  datatype Parsed<+T> = Ok(value: T, rest: Bytes) | Panic

  // ---------------------------------------------------------------- headers

  /** The number on a header line, Atoi(parts[0][1:]), and the bytes after the line. */
  function Header(data: Bytes): (r: Parsed<int>)
    requires data != [] && data[0] != CR
    ensures r.Ok? ==> |r.rest| + 3 <= |data|
  {
    match SplitLine(data)
    case None => Panic
    case Some((line, rest)) => Ok(Atoi(line[1..]), rest)
  }

  function Line(data: Bytes): (r: Parsed<Bytes>)
    requires data != [] && data[0] != CR
    ensures r.Ok? ==> |r.rest| + 3 <= |data|
  {
    match SplitLine(data)
    case None => Panic
    case Some((line, rest)) => Ok(line[1..], rest)
  }

  /** How often `for i := 0; i < count*2; i += 2` goes round, with the product wrapping at 64 bits. */
  function Pairs(count: int): nat {
    var doubled := (count * 2) % 0x1_0000_0000_0000_0000;
    if doubled <= MAX_INT64 then doubled / 2 else 0
  }

  /** A Go map panics on a key that holds a slice or a map. */
  predicate Hashable(n: Node) {
    !n.Array? && !n.Set? && !n.Push? && !n.Map?
  }

  /** Keys and values in turn, taken two by two. */
  function PairUp(kvs: seq<Node>): (ps: seq<(Node, Node)>)
    ensures |ps| == |kvs| / 2
    ensures forall t :: 0 <= t < |ps| ==> ps[t] == (kvs[2 * t], kvs[2 * t + 1])
  {
    seq(|kvs| / 2, t requires 0 <= t < |kvs| / 2 => (kvs[2 * t], kvs[2 * t + 1]))
  }

  predicate KeysHashable(ps: seq<(Node, Node)>) {
    forall t :: 0 <= t < |ps| ==> Hashable(ps[t].0)
  }

  // ---------------------------------------------------------------- the parser

  const ARRAY: byte := 42       // '*'
  const BLOB: byte := 36        // '$'
  const SIMPLE: byte := 43      // '+'
  const ERROR: byte := 45       // '-'
  const INTEGER: byte := 58     // ':'
  const NULL: byte := 95        // '_'
  const DOUBLE: byte := 44      // ','
  const BOOLEAN: byte := 35     // '#'
  const BLOB_ERROR: byte := 33  // '!'
  const VERBATIM: byte := 61    // '='
  const MAP: byte := 37         // '%'
  const SET: byte := 126        // '~'
  const ATTRIBUTE: byte := 124  // '|'
  const PUSH: byte := 62        // '>'
  const BIGNUM: byte := 40      // '('

  predicate IsAggregate(b: byte) {
    b == ARRAY || b == SET || b == PUSH || b == MAP || b == ATTRIBUTE
  }

  /** The cases of parseRESP that do not call it again. */
  function ParseScalar(data: Bytes): (r: Parsed<Node>)
    requires data != [] && !IsAggregate(data[0])
    ensures r.Ok? ==> |r.rest| <= |data|
    ensures r.Ok? && r.value != Nothing ==> |r.rest| < |data|
  {
    var b := data[0];
    if b == BLOB then
      match Header(data)
      case Panic => Panic
      case Ok(length, rest) =>
        if 0 <= length <= |rest| - 2 then Ok(BlobString(rest[..length]), rest[length + 2..]) else Panic
    else if b == INTEGER then
      match Header(data) case Panic => Panic case Ok(num, rest) => Ok(Integer(num), rest)
    else if b == BOOLEAN then
      if |data| < 3 then Panic else Ok(Boolean(data[1] == 116 || data[1] == 84), data[3..])
    else if b == VERBATIM then
      match Header(data)
      case Panic => Panic
      case Ok(total, rest) =>
        if 4 <= total <= |rest| then Ok(Verbatim(rest[..3], rest[4..total]), rest[total..]) else Panic
    else if b == NULL then
      if |data| < 2 then Panic else Ok(Null, data[2..])
    else if b == SIMPLE || b == ERROR || b == BLOB_ERROR || b == DOUBLE || b == BIGNUM then
      match Line(data)
      case Panic => Panic
      case Ok(text, rest) =>
        Ok(if b == SIMPLE then SimpleString(text) else if b == ERROR then Error(text)
           else if b == BLOB_ERROR then BlobError(text) else if b == DOUBLE then Double(text) else BigNum(text), rest)
    else Ok(Nothing, data)
  }

  function Parse(data: Bytes): (r: Parsed<Node>)
    ensures r.Ok? ==> |r.rest| <= |data|
    ensures r.Ok? && r.value != Nothing ==> |r.rest| < |data|
    decreases |data|, 0
  {
    if data == [] then Panic
    else if !IsAggregate(data[0]) then ParseScalar(data)
    else
      match Header(data)
      case Panic => Panic
      case Ok(count, rest) =>
        var b := data[0];
        if b == ARRAY || b == SET || b == PUSH then
          if count < 0 then Panic
          else
            match ParseMany(rest, count)
            case Panic => Panic
            case Ok(ns, rest') => Ok(if b == ARRAY then Array(ns) else if b == SET then Set(ns) else Push(ns), rest')
        else
          match ParseMany(rest, 2 * Pairs(count))
          case Panic => Panic
          case Ok(kvs, rest') =>
            if !KeysHashable(PairUp(kvs)) then Panic
            else if b == MAP then Ok(Map(Fill(map[], PairUp(kvs))), rest')
            else Parse(rest')
  }

  /** n parses one after the other. */
  function ParseMany(data: Bytes, n: nat): (r: Parsed<seq<Node>>)
    ensures r.Ok? ==> |r.rest| <= |data| && |r.value| == n
    decreases |data|, n + 1
  {
    if n == 0 then Ok([], data)
    else
      match Parse(data)
      case Panic => Panic
      case Ok(first, rest) =>
        match ParseMany(rest, n - 1)
        case Panic => Panic
        case Ok(others, rest') => Ok([first] + others, rest')
  }

  // ---------------------------------------------------------------- what is left unread

  predicate Suffix(r: Bytes, data: Bytes) {
    |r| <= |data| && data[|data| - |r|..] == r
  }

  lemma SuffixOfSuffix(a: Bytes, b: Bytes, c: Bytes)
    requires Suffix(a, b) && Suffix(b, c)
    ensures Suffix(a, c)
  {
    assert c[|c| - |a|..] == c[|c| - |b|..][|b| - |a|..];
  }

  lemma HeaderSuffix(data: Bytes)
    requires SplitLine(data).Some?
    ensures Suffix(SplitLine(data).value.1, data)
  {
  }

  /** Whatever the bytes, a parse that does not panic leaves a suffix of them, and a proper one unless it
      returned Nothing. */
  lemma {:induction false} ParseLeavesSuffix(data: Bytes)
    ensures Parse(data).Ok? ==> Suffix(Parse(data).rest, data)
    ensures Parse(data).Ok? && Parse(data).value != Nothing ==> |Parse(data).rest| < |data|
    decreases |data|, 0
  {
    if data != [] && Parse(data).Ok? {
      if SplitLine(data).Some? {
        HeaderSuffix(data);
      }
      if !IsAggregate(data[0]) {
        ScalarLeavesSuffix(data);
      } else {
        var Ok(count, rest) := Header(data);
        var n := if data[0] == ARRAY || data[0] == SET || data[0] == PUSH then count else 2 * Pairs(count);
        ManyLeaveSuffix(rest, n);
        var rest' := ParseMany(rest, n).rest;
        SuffixOfSuffix(rest', rest, data);
        if data[0] == ATTRIBUTE {
          ParseLeavesSuffix(rest');
          SuffixOfSuffix(Parse(rest').rest, rest', data);
        }
      }
    }
  }

  lemma Dropped(data: Bytes, n: nat)
    requires n <= |data|
    ensures Suffix(data[n..], data)
  {
  }

  lemma DroppedBehindHeader(data: Bytes, n: nat)
    requires SplitLine(data).Some? && n <= |SplitLine(data).value.1|
    ensures Suffix(SplitLine(data).value.1[n..], data)
  {
    var rest := SplitLine(data).value.1;
    HeaderSuffix(data);
    Dropped(rest, n);
    SuffixOfSuffix(rest[n..], rest, data);
  }

  lemma ScalarLeavesSuffix(data: Bytes)
    requires data != [] && !IsAggregate(data[0]) && ParseScalar(data).Ok?
    ensures Suffix(ParseScalar(data).rest, data)
  {
    var b, r := data[0], ParseScalar(data).rest;
    if b == BLOB || b == VERBATIM {
      var length := Header(data).value;
      DroppedBehindHeader(data, if b == BLOB then length + 2 else length);
    } else if b == BOOLEAN {
      Dropped(data, 3);
    } else if b == NULL {
      Dropped(data, 2);
    } else if r != data {
      HeaderSuffix(data);
    }
  }

  lemma {:induction false} ManyLeaveSuffix(data: Bytes, n: nat)
    ensures ParseMany(data, n).Ok? ==> Suffix(ParseMany(data, n).rest, data)
    decreases |data|, n + 1
  {
    if n > 0 && ParseMany(data, n).Ok? {
      ParseLeavesSuffix(data);
      var rest := Parse(data).rest;
      ManyLeaveSuffix(rest, n - 1);
      SuffixOfSuffix(ParseMany(rest, n - 1).rest, rest, data);
    }
  }
}
