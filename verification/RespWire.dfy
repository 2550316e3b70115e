/** RESP3 messages as the specification writes them, and what parseRESP makes of each. */
module RespWire {
  import opened Util
  import opened RespText
  import opened MapFill
  import opened Resp

  /** A message; kvs lists the keys and values of a map or an attribute in turn. */
  datatype Wire =
    | WBlob(blob: Bytes)
    | WSimple(text: Bytes)
    | WError(text: Bytes)
    | WInteger(num: int)
    | WDouble(text: Bytes)
    | WBigNum(text: Bytes)
    | WNull
    | WBoolean(flag: bool)
    | WBlobError(blob: Bytes)
    | WVerbatim(format: Bytes, blob: Bytes)
    | WArray(items: seq<Wire>)
    | WSet(items: seq<Wire>)
    | WPush(items: seq<Wire>)
    | WMap(kvs: seq<Wire>)
    | WAttribute(kvs: seq<Wire>, payload: Wire)

  const COLON: byte := 58

  /** type byte, number, CRLF */
  function Head(b: byte, n: int): Bytes { [b] + DecInt(n) + CRLF }

  /** The "Simple types" and "Aggregate data types overview" sections of the RESP3 specification, with the type
      bytes as numbers of its own. */
  function Encode(w: Wire): (r: Bytes)
    ensures r != []
    decreases w
  {
    match w
    case WBlob(s) => Head(36, |s|) + (s + CRLF)                                    // '$'
    case WSimple(s) => [43] + s + CRLF                                             // '+'
    case WError(s) => [45] + s + CRLF                                              // '-'
    case WInteger(i) => Head(58, i)                                                // ':'
    case WDouble(s) => [44] + s + CRLF                                             // ','
    case WBigNum(s) => [40] + s + CRLF                                             // '('
    case WNull => [95] + CRLF                                                      // '_'
    case WBoolean(f) => [35, if f then 116 else 102] + CRLF                        // '#'
    case WBlobError(s) => Head(33, |s|) + (s + CRLF)                               // '!'
    case WVerbatim(f, s) => Head(61, |s| + 4) + (f + [COLON] + s + CRLF)           // '='
    case WArray(ws) => Head(42, |ws|) + EncodeAll(ws)                              // '*'
    case WSet(ws) => Head(126, |ws|) + EncodeAll(ws)                               // '~'
    case WPush(ws) => Head(62, |ws|) + EncodeAll(ws)                               // '>'
    case WMap(kvs) => Head(37, |kvs| / 2) + EncodeAll(kvs)                         // '%'
    case WAttribute(kvs, p) => Head(124, |kvs| / 2) + EncodeAll(kvs) + Encode(p)   // '|'
  }

  function EncodeAll(ws: seq<Wire>): Bytes
    decreases ws
  {
    if ws == [] then [] else Encode(ws[0]) + EncodeAll(ws[1..])
  }

  /** The node a message stands for; an attribute is dropped in favour of what follows it. */
  function Denote(w: Wire): (n: Node)
    requires WellFormed(w)
    ensures n != Nothing
    decreases w
  {
    match w
    case WBlob(s) => BlobString(s)
    case WSimple(s) => SimpleString(s)
    case WError(s) => Error(s)
    case WInteger(i) => Integer(i)
    case WDouble(s) => Double(s)
    case WBigNum(s) => BigNum(s)
    case WNull => Null
    case WBoolean(f) => Boolean(f)
    case WBlobError(s) => BlobError(s)
    case WVerbatim(f, s) => Verbatim(f, s)
    case WArray(ws) => Array(DenoteAll(ws))
    case WSet(ws) => Set(DenoteAll(ws))
    case WPush(ws) => Push(DenoteAll(ws))
    case WMap(kvs) => Map(Fill(map[], PairUp(DenoteAll(kvs))))
    case WAttribute(_, p) => Denote(p)
  }

  function DenoteAll(ws: seq<Wire>): (ns: seq<Node>)
    requires AllWellFormed(ws)
    ensures |ns| == |ws| && forall i :: 0 <= i < |ns| ==> ns[i] != Nothing
    decreases ws
  {
    if ws == [] then [] else [Denote(ws[0])] + DenoteAll(ws[1..])
  }

  /** One-line texts hold no CRLF, numbers fit 64 bits, keys are hashable, formats have three bytes. */
  predicate WellFormed(w: Wire)
    decreases w
  {
    match w
    case WBlob(s) => |s| <= MAX_INT64
    case WSimple(s) => OneLine(s)
    case WError(s) => OneLine(s)
    case WInteger(i) => MIN_INT64 <= i <= MAX_INT64
    case WDouble(s) => OneLine(s)
    case WBigNum(s) => OneLine(s)
    case WNull => true
    case WBoolean(_) => true
    case WBlobError(s) => |s| <= MAX_INT64
    case WVerbatim(f, s) => |f| == 3 && |s| + 4 <= MAX_INT64
    case WArray(ws) => |ws| <= MAX_INT64 && AllWellFormed(ws)
    case WSet(ws) => |ws| <= MAX_INT64 && AllWellFormed(ws)
    case WPush(ws) => |ws| <= MAX_INT64 && AllWellFormed(ws)
    case WMap(kvs) => |kvs| <= MAX_INT64 && PlainKeys(kvs) && AllWellFormed(kvs)
    case WAttribute(kvs, p) => |kvs| <= MAX_INT64 && PlainKeys(kvs) && AllWellFormed(kvs) && WellFormed(p)
  }

  predicate AllWellFormed(ws: seq<Wire>)
    decreases ws
  {
    ws == [] || (WellFormed(ws[0]) && AllWellFormed(ws[1..]))
  }

  predicate PlainKeys(kvs: seq<Wire>) {
    |kvs| % 2 == 0 && forall t :: 0 <= t < |kvs| / 2 ==> PlainKey(kvs[2 * t])
  }

  /** What may be a key: anything but an aggregate, also under an attribute. */
  predicate PlainKey(w: Wire) {
    match w
    case WArray(_) => false
    case WSet(_) => false
    case WPush(_) => false
    case WMap(_) => false
    case WAttribute(_, p) => PlainKey(p)
    case _ => true
  }

  /** No Null, Boolean, Verbatim or BlobError anywhere: the types whose terminator the parser misreads. */
  predicate Clean(w: Wire)
    decreases w
  {
    match w
    case WNull => false
    case WBoolean(_) => false
    case WBlobError(_) => false
    case WVerbatim(_, _) => false
    case WArray(ws) => AllClean(ws)
    case WSet(ws) => AllClean(ws)
    case WPush(ws) => AllClean(ws)
    case WMap(kvs) => AllClean(kvs)
    case WAttribute(kvs, p) => AllClean(kvs) && Clean(p)
    case _ => true
  }

  predicate AllClean(ws: seq<Wire>)
    decreases ws
  {
    ws == [] || (Clean(ws[0]) && AllClean(ws[1..]))
  }

  // ---------------------------------------------------------------- what the parser reads off the front

  lemma ReadsHead(b: byte, n: int, rest: Bytes)
    requires b != CR && MIN_INT64 <= n <= MAX_INT64
    ensures Head(b, n) + rest != [] && (Head(b, n) + rest)[0] == b && Header(Head(b, n) + rest) == Ok(n, rest)
  {
    var line := [b] + DecInt(n);
    DecIntIsOneLine(n);
    assert forall i :: 0 < i < |line| ==> line[i] == DecInt(n)[i - 1];
    SplitFirst(line, rest);
    AtoiDec(n);
    assert Head(b, n) + rest == line + CRLF + rest && line[1..] == DecInt(n);
  }

  lemma ReadsLine(b: byte, s: Bytes, rest: Bytes)
    requires b != CR && OneLine(s)
    ensures var data := [b] + s + CRLF + rest; data[0] == b && Line(data) == Ok(s, rest)
  {
    var line := [b] + s;
    assert forall i :: 0 < i < |line| ==> line[i] == s[i - 1];
    SplitFirst(line, rest);
    assert line[1..] == s;
  }

  lemma PairsOfHalf(n: nat)
    requires n % 2 == 0 && n <= MAX_INT64
    ensures 2 * Pairs(n / 2) == n
  {
    assert (n / 2) * 2 == n;
  }

  /** The bytes of a scalar's encoding that the parser does not consume. */
  function LeftBehind(w: Wire): Bytes {
    if w.WNull? || w.WBoolean? then [LF] else if w.WVerbatim? then CRLF else if w.WBlobError? then w.blob + CRLF else []
  }

  /** The scalars, exactly: Boolean and Null leave the line feed, Verbatim its CRLF, and BlobError takes
      its length for its message and leaves the message. */
  lemma ScalarReads(w: Wire, rest: Bytes)
    requires WellFormed(w) && !w.WArray? && !w.WSet? && !w.WPush? && !w.WMap? && !w.WAttribute?
    ensures Parse(Encode(w) + rest) ==
            Ok(if w.WBlobError? then BlobError(Dec(|w.blob|)) else Denote(w), LeftBehind(w) + rest)
  {
    match w {
      case WBlob(s) => BlobReads(s, rest);
      case WSimple(s) => LineReads(w, rest);
      case WError(s) => LineReads(w, rest);
      case WInteger(i) => ReadsHead(INTEGER, i, rest);
      case WDouble(s) => LineReads(w, rest);
      case WBigNum(s) => LineReads(w, rest);
      case WNull => assert (Encode(w) + rest)[2..] == [LF] + rest;
      case WBoolean(f) => assert (Encode(w) + rest)[3..] == [LF] + rest;
      case WBlobError(s) => BlobErrorReads(s, rest);
      case WVerbatim(f, s) => VerbatimReads(f, s, rest);
    }
  }

  lemma LineReads(w: Wire, rest: Bytes)
    requires WellFormed(w) && (w.WSimple? || w.WError? || w.WDouble? || w.WBigNum?)
    ensures Parse(Encode(w) + rest) == Ok(Denote(w), rest)
  {
    ReadsLine(Encode(w)[0], w.text, rest);
  }

  lemma BlobReads(s: Bytes, rest: Bytes)
    requires |s| <= MAX_INT64
    ensures Parse(Encode(WBlob(s)) + rest) == Ok(BlobString(s), rest)
  {
    var r := s + CRLF + rest;
    ReadsHead(BLOB, |s|, r);
    assert Encode(WBlob(s)) + rest == Head(BLOB, |s|) + r;
    assert r[..|s|] == s && r[|s| + 2..] == rest;
  }

  lemma BlobErrorReads(s: Bytes, rest: Bytes)
    ensures Parse(Encode(WBlobError(s)) + rest) == Ok(BlobError(Dec(|s|)), s + CRLF + rest)
  {
    Assoc([BLOB_ERROR] + Dec(|s|) + CRLF, s + CRLF, rest);
    assert Parse(Encode(WBlobError(s)) + rest) == Parse([BLOB_ERROR] + Dec(|s|) + CRLF + (s + CRLF + rest));
    ReadsBlobError(s, s + CRLF + rest);
  }

  lemma Assoc(a: Bytes, b: Bytes, c: Bytes)
    ensures a + b + c == a + (b + c)
  {
  }

  lemma VerbatimReads(f: Bytes, s: Bytes, rest: Bytes)
    requires |f| == 3 && |s| + 4 <= MAX_INT64
    ensures Parse(Encode(WVerbatim(f, s)) + rest) == Ok(Verbatim(f, s), CRLF + rest)
  {
    var body := f + [COLON] + s + CRLF;
    var data := Head(VERBATIM, |s| + 4) + body + rest;
    assert data == Head(VERBATIM, |s| + 4) + (body + rest);
    ReadsHead(VERBATIM, |s| + 4, body + rest);
    VerbatimSlices(f, s, rest);
  }

  lemma VerbatimSlices(f: Bytes, s: Bytes, rest: Bytes)
    requires |f| == 3
    ensures var r := f + [COLON] + s + CRLF + rest; r[..3] == f && r[4..|s| + 4] == s && r[|s| + 4..] == CRLF + rest
  {
  }

  lemma ReadsBlobError(s: Bytes, r: Bytes)
    ensures Parse([BLOB_ERROR] + Dec(|s|) + CRLF + r) == Ok(BlobError(Dec(|s|)), r)
  {
    DecIntIsOneLine(|s|);
    ReadsLine(BLOB_ERROR, Dec(|s|), r);
  }
}
