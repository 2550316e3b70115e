/** The loops of resp/resp3.go and the reply writer of node/object.go and node/client.go. */
module RespIO {
  import opened Util
  import opened RespText
  import opened MapFill
  import opened Resp
  import opened RespWire
  import opened RespRoundTrip

  // ---------------------------------------------------------------- parseRESP as it runs

  function Prepend(ns: seq<Node>, p: Parsed<seq<Node>>): Parsed<seq<Node>> {
    match p case Panic => Panic case Ok(ms, rest) => Ok(ns + ms, rest)
  }

  lemma PrependNothing(p: Parsed<seq<Node>>)
    ensures Prepend([], p) == p
  {
    if p.Ok? {
      assert [] + p.value == p.value;
    }
  }

  lemma PrependTwice(ns: seq<Node>, ms: seq<Node>, p: Parsed<seq<Node>>)
    ensures Prepend(ns, Prepend(ms, p)) == Prepend(ns + ms, p)
  {
    if p.Ok? {
      assert ns + (ms + p.value) == ns + ms + p.value;
    }
  }

  /** The element loop of arrays, sets and pushes. */
  method ParseElements(data: Bytes, count: nat) returns (r: Parsed<seq<Node>>)
    ensures r == ParseMany(data, count)
    decreases |data|, 1
  {
    ghost var whole := ParseMany(data, count);
    PrependNothing(whole);
    var elements: seq<Node>, remaining, left := [], data, count;
    while left > 0
      invariant |remaining| <= |data| && whole == Prepend(elements, ParseMany(remaining, left))
    {
      OneElement(elements, remaining, left);
      var node := ParseRESP(remaining);
      if node.Panic? {
        return Panic;
      }
      elements, remaining := elements + [node.value], node.rest;
      left := left - 1;
    }
    NoneLeft(elements, remaining);
    return Ok(elements, remaining);
  }

  lemma NoneLeft(ns: seq<Node>, data: Bytes)
    ensures Prepend(ns, ParseMany(data, 0)) == Ok(ns, data)
  {
    assert ns + [] == ns;
  }

  lemma OneElement(ns: seq<Node>, data: Bytes, t: nat)
    requires t > 0
    ensures Prepend(ns, ParseMany(data, t)) ==
            match Parse(data)
            case Panic => Panic
            case Ok(n, rest) => Prepend(ns + [n], ParseMany(rest, t - 1))
  {
    if Parse(data).Ok? {
      var n, rest := Parse(data).value, Parse(data).rest;
      PrependTwice(ns, [n], ParseMany(rest, t - 1));
    }
  }

  /** What the pair loop makes of the keys and values it parses, with m filled already. */
  function MapFrom(m: map<Node, Node>, p: Parsed<seq<Node>>): Parsed<map<Node, Node>> {
    match p
    case Panic => Panic
    case Ok(kvs, rest) => if KeysHashable(PairUp(kvs)) then Ok(Fill(m, PairUp(kvs)), rest) else Panic
  }

  /** The pair loop of maps and attributes: a key that cannot be hashed panics as it is inserted. */
  method ParsePairs(data: Bytes, n: nat) returns (r: Parsed<map<Node, Node>>)
    ensures r == MapFrom(map[], ParseMany(data, 2 * n))
    decreases |data|, 1
  {
    var m: map<Node, Node>, remaining, left := map[], data, n;
    ghost var goal := PairLoop(m, data, n);
    PairLoopIs(m, data, n);
    while left > 0
      invariant |remaining| <= |data| && goal == PairLoop(m, remaining, left)
    {
      var key := ParseRESP(remaining);
      if key.Panic? {
        return Panic;
      }
      var value := ParseRESP(key.rest);
      if value.Panic? || !Hashable(key.value) {
        return Panic;
      }
      m, remaining := m[key.value := value.value], value.rest;
      left := left - 1;
    }
    return Ok(m, remaining);
  }

  /** Pair by pair. */
  function PairLoop(m: map<Node, Node>, data: Bytes, t: nat): Parsed<map<Node, Node>>
    decreases t
  {
    if t == 0 then Ok(m, data)
    else
      match Parse(data)
      case Panic => Panic
      case Ok(k, rest) =>
        match Parse(rest)
        case Panic => Panic
        case Ok(v, rest') => if Hashable(k) then PairLoop(m[k := v], rest', t - 1) else Panic
  }

  lemma {:induction false} PairLoopIs(m: map<Node, Node>, data: Bytes, t: nat)
    ensures PairLoop(m, data, t) == MapFrom(m, ParseMany(data, 2 * t))
    decreases t
  {
    if t > 0 {
      OnePair(m, data, t);
      if Parse(data).Ok? && Parse(Parse(data).rest).Ok? {
        var k, v := Parse(data).value, Parse(Parse(data).rest);
        PairLoopIs(m[k := v.value], v.rest, t - 1);
      }
    }
  }

  lemma OnePair(m: map<Node, Node>, data: Bytes, t: nat)
    requires t > 0
    ensures MapFrom(m, ParseMany(data, 2 * t)) ==
            match Parse(data)
            case Panic => Panic
            case Ok(k, rest) =>
              match Parse(rest)
              case Panic => Panic
              case Ok(v, rest') =>
                if Hashable(k) then MapFrom(m[k := v], ParseMany(rest', 2 * (t - 1))) else Panic
  {
    var key := Parse(data);
    if key.Ok? && Parse(key.rest).Ok? {
      var value := Parse(key.rest);
      var others := ParseMany(value.rest, 2 * (t - 1));
      assert ParseMany(data, 2 * t) == Prepend([key.value], Prepend([value.value], others));
      if others.Ok? {
        PairUpFirst(key.value, value.value, others.value);
        assert [key.value] + ([value.value] + others.value) == [key.value, value.value] + others.value;
      }
    }
  }

  lemma PairUpFirst(k: Node, v: Node, kvs: seq<Node>)
    requires |kvs| % 2 == 0
    ensures PairUp([k, v] + kvs) == [(k, v)] + PairUp(kvs)
    ensures KeysHashable(PairUp([k, v] + kvs)) <==> Hashable(k) && KeysHashable(PairUp(kvs))
  {
    var ps := PairUp([k, v] + kvs);
    assert ps == [(k, v)] + PairUp(kvs);
    assert ps[0] == (k, v) && forall t :: 0 <= t < |kvs| / 2 ==> PairUp(kvs)[t] == ps[t + 1];
    assert forall t :: 0 < t < |ps| ==> ps[t] == PairUp(kvs)[t - 1];
  }

  /** parseRESP. */
  method ParseRESP(data: Bytes) returns (r: Parsed<Node>)
    ensures r == Parse(data)
    decreases |data|, 0
  {
    if data == [] {
      return Panic;
    }
    if !IsAggregate(data[0]) {
      return ParseScalar(data);
    }
    var header := Header(data);
    if header.Panic? {
      return Panic;
    }
    var count, remaining := header.value, header.rest;
    if data[0] == ARRAY || data[0] == SET || data[0] == PUSH {
      if count < 0 {
        return Panic;
      }
      var elements := ParseElements(remaining, count);
      match elements {
        case Panic => return Panic;
        case Ok(ns, rest) =>
          return Ok(if data[0] == ARRAY then Array(ns) else if data[0] == SET then Set(ns) else Push(ns), rest);
      }
    }
    var pairs := ParsePairs(remaining, Pairs(count));
    match pairs {
      case Panic => return Panic;
      case Ok(m, rest) =>
        if data[0] == MAP {
          return Ok(Map(m), rest);
        }
        r := ParseRESP(rest);
    }
  }

  // ---------------------------------------------------------------- requests

  function Blobs(ss: seq<Bytes>): (ws: seq<Wire>)
    ensures |ws| == |ss|
  {
    if ss == [] then [] else [WBlob(ss[0])] + Blobs(ss[1..])
  }

  function BlobNodes(ss: seq<Bytes>): seq<Node> {
    if ss == [] then [] else [BlobString(ss[0])] + BlobNodes(ss[1..])
  }

  function Request(command: Bytes, arguments: seq<Bytes>): Bytes {
    Encode(WArray(Blobs([command] + arguments)))
  }

  lemma {:induction false} BlobsOneMore(ss: seq<Bytes>, s: Bytes)
    ensures EncodeAll(Blobs(ss + [s])) == EncodeAll(Blobs(ss)) + Encode(WBlob(s))
  {
    if ss == [] {
      assert Blobs([s]) == [WBlob(s)] && EncodeAll(Blobs([s])) == Encode(WBlob(s)) + [];
    } else {
      BlobsOneMore(ss[1..], s);
      assert (ss + [s])[1..] == ss[1..] + [s];
    }
  }

  /** ConvertToRESP, piece by piece into one builder. */
  method ConvertToRESP(command: Bytes, arguments: seq<Bytes>) returns (r: Bytes)
    ensures r == Request(command, arguments)
  {
    var totalArgs := |arguments| + 1;
    var builder := [ARRAY] + DecInt(totalArgs) + CRLF;
    builder := builder + ([BLOB] + DecInt(|command|) + CRLF + (command + CRLF));
    assert Encode(WBlob(command)) == EncodeAll(Blobs([command])) by {
      BlobsOneMore([], command);
      assert [] + [command] == [command];
    }
    var i := 0;
    while i < |arguments|
      invariant 0 <= i <= |arguments|
      invariant builder == Head(ARRAY, totalArgs) + EncodeAll(Blobs([command] + arguments[..i]))
    {
      var arg := arguments[i];
      builder := builder + ([BLOB] + DecInt(|arg|) + CRLF + (arg + CRLF));
      BlobsOneMore([command] + arguments[..i], arg);
      assert [command] + arguments[..i] + [arg] == [command] + arguments[..i + 1];
      i := i + 1;
    }
    assert arguments[..i] == arguments;
    return builder;
  }

  lemma {:induction false} BlobsRead(ss: seq<Bytes>)
    requires forall s :: s in ss ==> |s| <= MAX_INT64
    ensures AllWellFormed(Blobs(ss)) && AllClean(Blobs(ss)) && DenoteAll(Blobs(ss)) == BlobNodes(ss)
  {
    if ss != [] {
      BlobsRead(ss[1..]);
    }
  }

  /** Any command with any arguments, CRLF and type bytes among them, parses to exactly those strings. */
  lemma RequestParses(command: Bytes, arguments: seq<Bytes>, rest: Bytes)
    requires |arguments| < MAX_INT64 && forall s :: s in [command] + arguments ==> |s| <= MAX_INT64
    ensures Parse(Request(command, arguments) + rest) == Ok(Array(BlobNodes([command] + arguments)), rest)
  {
    BlobsRead([command] + arguments);
    RoundTrip(WArray(Blobs([command] + arguments)), rest);
  }

  // ---------------------------------------------------------------- bulk replies

  predicate Cont(b: byte) { 128 <= b <= 191 }

  /** Bytes of the first rune as Go decodes UTF-8: a byte that starts no valid sequence is a rune by itself. */
  function RuneWidth(s: Bytes): (w: nat)
    requires s != []
    ensures 1 <= w <= |s|
  {
    var b := s[0];
    if 194 <= b <= 223 && |s| >= 2 && Cont(s[1]) then 2
    else if 224 <= b <= 239 && |s| >= 3 && Cont(s[1]) && Cont(s[2])
            && (b == 224 ==> 160 <= s[1]) && (b == 237 ==> s[1] <= 159) then 3
    else if 240 <= b <= 244 && |s| >= 4 && Cont(s[1]) && Cont(s[2]) && Cont(s[3])
            && (b == 240 ==> 144 <= s[1]) && (b == 244 ==> s[1] <= 143) then 4
    else 1
  }

  /** stringObjectLen: the length in runes. */
  function RuneCount(s: Bytes): (n: nat)
    ensures n <= |s|
    decreases |s|
  {
    if s == [] then 0 else 1 + RuneCount(s[RuneWidth(s)..])
  }

  /** Some rune of s takes more than one byte. */
  predicate HasWideRune(s: Bytes)
    decreases |s|
  {
    s != [] && (RuneWidth(s) > 1 || HasWideRune(s[RuneWidth(s)..]))
  }

  lemma {:induction false} RunesAreBytes(s: Bytes)
    ensures RuneCount(s) == |s| <==> !HasWideRune(s)
    decreases |s|
  {
    if s != [] {
      RunesAreBytes(s[RuneWidth(s)..]);
    }
  }

  /** AddReplyBulk: the header gives the length in runes, then come the bytes and a CRLF. */
  function BulkReply(s: Bytes): Bytes {
    [BLOB] + DecInt(RuneCount(s)) + CRLF + s + CRLF
  }

  method AddReplyBulk(s: Bytes, outBuffer: Bytes) returns (out: Bytes)
    requires |s| <= MAX_INT64
    ensures out == outBuffer + BulkReply(s)
  {
    var header := Ll2String(BLOB, RuneCount(s));
    out := outBuffer + header[..] + s + CRLF;
    assert out == outBuffer + BulkReply(s);
  }

  /** A bulk reply parses back to its string exactly when every rune of it is one byte, as in ASCII; the
      parser stops short of the string's end otherwise. */
  lemma BulkReplyExact(s: Bytes, rest: Bytes)
    requires |s| <= MAX_INT64
    ensures Parse(BulkReply(s) + rest) == Ok(BlobString(s), rest) <==> !HasWideRune(s)
  {
    RunesAreBytes(s);
    var n := RuneCount(s);
    var body := s + CRLF + rest;
    ReadsHead(BLOB, n, body);
    Assoc(Head(BLOB, n) + s, CRLF, rest);
    Assoc(Head(BLOB, n), s, CRLF + rest);
    Assoc(s, CRLF, rest);
    assert Parse(BulkReply(s) + rest) == Ok(BlobString(body[..n]), body[n + 2..]);
    assert n == |s| ==> body[..n] == s && body[n + 2..] == rest;
  }

  lemma {:induction false} AsciiIsNarrow(s: Bytes)
    requires forall i :: 0 <= i < |s| ==> s[i] < 128
    ensures !HasWideRune(s)
    decreases |s|
  {
    if s != [] {
      AsciiIsNarrow(s[1..]);
    }
  }
}
