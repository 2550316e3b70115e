/** Which messages parseRESP reads back, exactly; requests and bulk replies are among them. */
module RespRoundTrip {
  import opened Util
  import opened RespText
  import opened MapFill
  import opened Resp
  import opened RespWire

  // ---------------------------------------------------------------- clean messages come back

  lemma {:induction false} PlainKeyIsHashable(w: Wire)
    requires WellFormed(w) && PlainKey(w)
    ensures Hashable(Denote(w))
  {
    if w.WAttribute? {
      PlainKeyIsHashable(w.payload);
    }
  }

  lemma {:induction false} DenoteAt(ws: seq<Wire>, i: nat)
    requires AllWellFormed(ws) && i < |ws|
    ensures WellFormed(ws[i]) && DenoteAll(ws)[i] == Denote(ws[i])
  {
    if i > 0 {
      DenoteAt(ws[1..], i - 1);
    }
  }

  lemma KeysComeHashable(kvs: seq<Wire>)
    requires AllWellFormed(kvs) && PlainKeys(kvs)
    ensures KeysHashable(PairUp(DenoteAll(kvs)))
  {
    forall t | 0 <= t < |kvs| / 2
      ensures Hashable(PairUp(DenoteAll(kvs))[t].0)
    {
      DenoteAt(kvs, 2 * t);
      PlainKeyIsHashable(kvs[2 * t]);
    }
  }

  /** An array, set or push is read as what ParseMany makes of its body. */
  lemma AggregateParses(b: byte, n: nat, body: Bytes, rest: Bytes)
    requires n <= MAX_INT64 && (b == ARRAY || b == SET || b == PUSH)
    ensures Parse(Head(b, n) + body + rest) ==
            match ParseMany(body + rest, n)
            case Panic => Panic
            case Ok(ns, r) => Ok(if b == ARRAY then Array(ns) else if b == SET then Set(ns) else Push(ns), r)
  {
    Assoc(Head(b, n), body, rest);
    ReadsHead(b, n, body + rest);
  }

  /** A map or an attribute likewise, from its pairs. */
  lemma PairsParse(b: byte, n: nat, body: Bytes, rest: Bytes)
    requires n % 2 == 0 && n <= MAX_INT64 && (b == MAP || b == ATTRIBUTE)
    ensures Parse(Head(b, n / 2) + body + rest) ==
            match ParseMany(body + rest, n)
            case Panic => Panic
            case Ok(kvs, r) =>
              if !KeysHashable(PairUp(kvs)) then Panic
              else if b == MAP then Ok(Map(Fill(map[], PairUp(kvs))), r) else Parse(r)
  {
    Assoc(Head(b, n / 2), body, rest);
    ReadsHead(b, n / 2, body + rest);
    PairsOfHalf(n);
  }

  lemma CleanScalarReads(w: Wire, rest: Bytes)
    requires WellFormed(w) && LeftBehind(w) == []
    requires !w.WArray? && !w.WSet? && !w.WPush? && !w.WMap? && !w.WAttribute?
    ensures Parse(Encode(w) + rest) == Ok(Denote(w), rest)
  {
    ScalarReads(w, rest);
    assert [] + rest == rest;
  }

  /** Every clean message, nested to any depth, is read back, and the bytes after it are left alone. */
  lemma {:induction false} RoundTrip(w: Wire, rest: Bytes)
    requires WellFormed(w) && Clean(w)
    ensures Parse(Encode(w) + rest) == Ok(Denote(w), rest)
    decreases w
  {
    match w {
      case WArray(ws) => AggregateParses(ARRAY, |ws|, EncodeAll(ws), rest); RoundTripAll(ws, rest);
      case WSet(ws) => AggregateParses(SET, |ws|, EncodeAll(ws), rest); RoundTripAll(ws, rest);
      case WPush(ws) => AggregateParses(PUSH, |ws|, EncodeAll(ws), rest); RoundTripAll(ws, rest);
      case WMap(kvs) => PairsParse(MAP, |kvs|, EncodeAll(kvs), rest); RoundTripAll(kvs, rest); KeysComeHashable(kvs);
      case WAttribute(kvs, p) =>
        var after := Encode(p) + rest;
        PairsParse(ATTRIBUTE, |kvs|, EncodeAll(kvs), after);
        RoundTripAll(kvs, after);
        KeysComeHashable(kvs);
        RoundTrip(p, rest);
        Assoc(Head(ATTRIBUTE, |kvs| / 2) + EncodeAll(kvs), Encode(p), rest);
      case _ => CleanScalarReads(w, rest);
    }
  }

  /** A concatenation of clean messages is recovered one by one, in order. */
  lemma {:induction false} RoundTripAll(ws: seq<Wire>, rest: Bytes)
    requires AllWellFormed(ws) && AllClean(ws)
    ensures ParseMany(EncodeAll(ws) + rest, |ws|) == Ok(DenoteAll(ws), rest)
    decreases ws
  {
    if ws == [] {
      assert EncodeAll(ws) + rest == rest;
    } else {
      var more := EncodeAll(ws[1..]);
      RoundTrip(ws[0], more + rest);
      RoundTripAll(ws[1..], rest);
      Assoc(Encode(ws[0]), more, rest);
    }
  }

  // ---------------------------------------------------------------- and only clean messages do

  /** A byte that starts no message: the parser answers Nothing and consumes nothing. */
  predicate Junk(b: byte) {
    b == LF || b == CR || b == 49
  }

  /** More than `rest` is left, and it starts with junk. */
  predicate JunkThen(r: Bytes, rest: Bytes) {
    |r| > |rest| && r[|r| - |rest|..] == rest && Junk(r[0])
  }

  /** Its node comes out right, whatever becomes of the bytes after it. */
  predicate Kept(w: Wire) {
    Clean(w) || w.WNull? || w.WBoolean? || w.WVerbatim?
  }

  /** The messages for which clean is also necessary: no attributes, which are thrown away unseen, and
      maps with distinct keys none of which is a blob error. */
  predicate Proper(w: Wire)
    requires WellFormed(w)
    decreases w
  {
    match w
    case WArray(ws) => AllProper(ws)
    case WSet(ws) => AllProper(ws)
    case WPush(ws) => AllProper(ws)
    case WMap(kvs) =>
      && AllProper(kvs) && DistinctKeys(PairUp(DenoteAll(kvs)))
      && forall t :: 0 <= t < |kvs| / 2 ==> !kvs[2 * t].WBlobError?
    case WAttribute(_, _) => false
    case _ => true
  }

  predicate AllProper(ws: seq<Wire>)
    requires AllWellFormed(ws)
    decreases ws
  {
    ws == [] || (Proper(ws[0]) && AllProper(ws[1..]))
  }

  /** What a parse of an unclean message comes to. */
  ghost predicate Off(p: Parsed<Node>, w: Wire, rest: Bytes)
    requires WellFormed(w)
  {
    p.Panic? || (if p.value == Denote(w) then JunkThen(p.rest, rest) else !Kept(w))
  }

  /** What a parse of a list with an unclean message comes to: the right nodes but junk after them, or a
      first wrong node, which is Nothing or stands where even the node is not kept. */
  ghost predicate OffMany(p: Parsed<seq<Node>>, ws: seq<Wire>, rest: Bytes)
    requires AllWellFormed(ws)
  {
    p.Panic? ||
    if p.value == DenoteAll(ws) then JunkThen(p.rest, rest)
    else
      && |p.value| == |ws|
      && exists i :: 0 <= i < |ws| && p.value[..i] == DenoteAll(ws)[..i] && p.value[i] != DenoteAll(ws)[i]
                     && (p.value[i] == Nothing || !Kept(ws[i]))
  }

  lemma BlobErrorIsOff(s: Bytes, rest: Bytes)
    requires |s| <= MAX_INT64
    ensures Off(Parse(Encode(WBlobError(s)) + rest), WBlobError(s), rest)
  {
    BlobErrorReads(s, rest);
    DecLength(|s|);
    if Dec(|s|) == s {
      var r := s + CRLF + rest;
      assert s == Dec(1) && r[0] == 49;
      assert r[|r| - |rest|..] == rest;
    }
  }

  lemma ScalarIsOff(w: Wire, rest: Bytes)
    requires w.WNull? || w.WBoolean? || (w.WVerbatim? && WellFormed(w))
    ensures Off(Parse(Encode(w) + rest), w, rest)
  {
    ScalarReads(w, rest);
    var r := LeftBehind(w) + rest;
    assert r[|r| - |rest|..] == rest;
  }

  lemma JunkReads(data: Bytes)
    requires data != [] && Junk(data[0])
    ensures Parse(data) == Ok(Nothing, data)
  {
  }

  lemma {:induction false} UncleanIsOff(w: Wire, rest: Bytes)
    requires WellFormed(w) && Proper(w) && !Clean(w)
    ensures Off(Parse(Encode(w) + rest), w, rest)
    decreases w
  {
    match w {
      case WArray(ws) => AggregateParses(ARRAY, |ws|, EncodeAll(ws), rest); UncleanListIsOff(ws, rest);
      case WSet(ws) => AggregateParses(SET, |ws|, EncodeAll(ws), rest); UncleanListIsOff(ws, rest);
      case WPush(ws) => AggregateParses(PUSH, |ws|, EncodeAll(ws), rest); UncleanListIsOff(ws, rest);
      case WMap(kvs) =>
        PairsParse(MAP, |kvs|, EncodeAll(kvs), rest);
        UncleanListIsOff(kvs, rest);
        UncleanMapIsOff(kvs, ParseMany(EncodeAll(kvs) + rest, |kvs|), rest);
      case WBlobError(s) => BlobErrorIsOff(s, rest);
      case WNull => ScalarIsOff(w, rest);
      case WBoolean(_) => ScalarIsOff(w, rest);
      case WVerbatim(_, _) => ScalarIsOff(w, rest);
    }
  }

  lemma {:induction false} UncleanListIsOff(ws: seq<Wire>, rest: Bytes)
    requires AllWellFormed(ws) && AllProper(ws) && !AllClean(ws)
    ensures OffMany(ParseMany(EncodeAll(ws) + rest, |ws|), ws, rest)
    decreases ws
  {
    var more := EncodeAll(ws[1..]);
    Assoc(Encode(ws[0]), more, rest);
    if Clean(ws[0]) {
      RoundTrip(ws[0], more + rest);
      UncleanListIsOff(ws[1..], rest);
      LaterIsOff(ws, ParseMany(more + rest, |ws| - 1), rest);
    } else {
      UncleanIsOff(ws[0], more + rest);
      FirstIsOff(ws, Parse(Encode(ws[0]) + (more + rest)), rest);
    }
  }

  lemma LaterIsOff(ws: seq<Wire>, p: Parsed<seq<Node>>, rest: Bytes)
    requires ws != [] && AllWellFormed(ws) && OffMany(p, ws[1..], rest)
    ensures p.Panic? || OffMany(Ok([Denote(ws[0])] + p.value, p.rest), ws, rest)
  {
    if p.Ok? && p.value != DenoteAll(ws[1..]) {
      var ns, ds := [Denote(ws[0])] + p.value, DenoteAll(ws);
      var i :| 0 <= i < |ws[1..]| && p.value[..i] == DenoteAll(ws[1..])[..i] && p.value[i] != DenoteAll(ws[1..])[i]
               && (p.value[i] == Nothing || !Kept(ws[1..][i]));
      assert ns[..i + 1] == [Denote(ws[0])] + p.value[..i] == ds[..i + 1];
      assert ns[i + 1] == p.value[i] && ds[i + 1] == DenoteAll(ws[1..])[i] && ws[i + 1] == ws[1..][i];
    }
  }

  lemma FirstIsOff(ws: seq<Wire>, p: Parsed<Node>, rest: Bytes)
    requires ws != [] && AllWellFormed(ws) && Off(p, ws[0], EncodeAll(ws[1..]) + rest)
    ensures p.Panic? || ParseMany(p.rest, |ws| - 1).Panic? ||
            OffMany(Ok([p.value] + ParseMany(p.rest, |ws| - 1).value, ParseMany(p.rest, |ws| - 1).rest), ws, rest)
  {
    if p.Ok? && ParseMany(p.rest, |ws| - 1).Ok? {
      var others := ParseMany(p.rest, |ws| - 1);
      var ns, ds := [p.value] + others.value, DenoteAll(ws);
      if p.value != Denote(ws[0]) {
        assert ns[..0] == ds[..0] && ns[0] != ds[0];
      } else if |ws| == 1 {
        assert EncodeAll(ws[1..]) + rest == rest && ns == ds;
      } else {
        JunkReads(p.rest);
        assert ns[1] == Nothing && ns[..1] == ds[..1];
      }
    }
  }

  lemma UncleanMapIsOff(kvs: seq<Wire>, p: Parsed<seq<Node>>, rest: Bytes)
    requires WellFormed(WMap(kvs)) && Proper(WMap(kvs)) && OffMany(p, kvs, rest)
    ensures p.Panic? || p.value == DenoteAll(kvs) || Fill(map[], PairUp(p.value)) != Fill(map[], PairUp(DenoteAll(kvs)))
  {
    if p.Ok? && p.value != DenoteAll(kvs) {
      var ds := DenoteAll(kvs);
      var i :| 0 <= i < |kvs| && p.value[..i] == ds[..i] && p.value[i] != ds[i] && (p.value[i] == Nothing || !Kept(kvs[i]));
      if i % 2 == 0 {
        KeyIsKept(kvs, i / 2);
      }
      PairsDiffer(p.value, ds, i);
    }
  }

  lemma PairsDiffer(ns: seq<Node>, ds: seq<Node>, i: nat)
    requires |ns| == |ds| && |ds| % 2 == 0 && i < |ds| && DistinctKeys(PairUp(ds)) && Nothing !in ds
    requires ns[..i] == ds[..i] && ns[i] != ds[i] && (ns[i] == Nothing || i % 2 == 1)
    ensures Fill(map[], PairUp(ns)) != Fill(map[], PairUp(ds))
  {
    if i % 2 == 0 {
      HasNot(PairUp(ds), Nothing);
    } else {
      assert ns[..i][i - 1] == ds[..i][i - 1];
    }
    FillsDiffer(PairUp(ns), PairUp(ds), i / 2);
  }

  lemma KeyIsKept(kvs: seq<Wire>, t: nat)
    requires WellFormed(WMap(kvs)) && Proper(WMap(kvs)) && t < |kvs| / 2
    ensures Kept(kvs[2 * t])
  {
    assert PlainKey(kvs[2 * t]) && !kvs[2 * t].WBlobError?;
    ProperAt(kvs, 2 * t);
  }

  lemma {:induction false} ProperAt(ws: seq<Wire>, i: nat)
    requires AllWellFormed(ws) && AllProper(ws) && i < |ws|
    ensures WellFormed(ws[i]) && Proper(ws[i])
  {
    if i > 0 {
      ProperAt(ws[1..], i - 1);
    }
  }

  /** A proper message, nested to any depth and before any bytes, is read back exactly when it is clean. */
  lemma RoundTripExact(w: Wire, rest: Bytes)
    requires WellFormed(w) && Proper(w)
    ensures Parse(Encode(w) + rest) == Ok(Denote(w), rest) <==> Clean(w)
  {
    if Clean(w) {
      RoundTrip(w, rest);
    } else {
      UncleanIsOff(w, rest);
    }
  }
}
