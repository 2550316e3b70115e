/** The bytes of the RESP3 wire format, as numbers: what decimal text reads as, what parseRESP does with each
    first byte, and how requests and bulk replies are spelled. */
module RespBytes {
  import opened Util
  import opened RespText
  import opened MapFill
  import opened Resp
  import opened RespWire
  import opened RespIO

  // ---------------------------------------------------------------- decimal text

  /** The number that a text of digits stands for. */
  function Number(s: Bytes): int {
    if s == [] then 0 else 10 * Number(s[..|s| - 1]) + (s[|s| - 1] as int - 48)
  }

  predicate Digits(s: Bytes) { forall i :: 0 <= i < |s| ==> 48 <= s[i] <= 57 }

  /** Dec writes the number in decimal, without leading zeros. */
  lemma {:induction false} DecIsDecimal(n: nat)
    ensures Digits(Dec(n)) && Number(Dec(n)) == n && (Dec(n)[0] == 48 ==> n == 0 && |Dec(n)| == 1)
  {
    if n >= 10 {
      DecIsDecimal(n / 10);
      assert Dec(n)[..|Dec(n)| - 1] == Dec(n / 10);
    } else {
      assert Dec(n)[..0] == [];
    }
  }

  /** j is where the digits of t end. */
  predicate DigitsEnd(t: Bytes, j: nat) {
    j <= |t| && Digits(t[..j]) && (j < |t| ==> !(48 <= t[j] <= 57))
  }

  lemma {:induction false} ScanSplit(s: Bytes, u: Bytes, acc: nat)
    ensures Scan(s + u, acc) == if Scan(s, acc).Value? then Scan(u, Scan(s, acc).n) else Scan(s, acc)
  {
    if s == [] {
      assert s + u == u;
    } else {
      assert (s + u)[1..] == s[1..] + u;
      var n := acc * 10 + (s[0] as int - 48);
      if 48 <= s[0] <= 57 && n <= 18446744073709551615 {
        ScanSplit(s[1..], u, n);
      }
    }
  }

  lemma {:induction false} ScanNumber(s: Bytes)
    requires Digits(s)
    ensures Number(s) >= 0
    ensures Scan(s, 0) == if Number(s) <= 18446744073709551615 then Value(Number(s)) else OutOfRange
    decreases |s|
  {
    if s != [] {
      var t, d := s[..|s| - 1], s[|s| - 1];
      ScanNumber(t);
      ScanSplit(t, [d], 0);
      assert t + [d] == s && [d][1..] == [];
    }
  }

  lemma ScanIs(t: Bytes, j: nat)
    requires DigitsEnd(t, j)
    ensures Number(t[..j]) >= 0
    ensures Scan(t, 0) ==
            if Number(t[..j]) > 18446744073709551615 then OutOfRange else if j < |t| then Syntax else Value(Number(t[..j]))
  {
    ScanNumber(t[..j]);
    ScanSplit(t[..j], t[j..], 0);
    assert t[..j] + t[j..] == t && (j < |t| ==> t[j..][0] == t[j]);
  }

  /** What Atoi makes of any text: with at most one sign before its digits, their number, or the nearest 64-bit
      one; 0 where no digit comes, or something else after digits that are not already too large. */
  lemma AtoiExact(sign: Bytes, t: Bytes, j: nat)
    requires DigitsEnd(t, j) && (sign == [] || sign == [43] || sign == [45])
    requires sign == [] && t != [] ==> t[0] != 43 && t[0] != 45
    ensures var i := if sign == [45] then -Number(t[..j]) else Number(t[..j]);
      Atoi(sign + t) ==
      if t == [] || (j < |t| && Number(t[..j]) <= 18446744073709551615) then 0
      else if i > 9223372036854775807 then 9223372036854775807
      else if i < -9223372036854775808 then -9223372036854775808
      else i
  {
    var s := sign + t;
    assert (if sign == [] then s else s[1..]) == t;
    ScanIs(t, j);
    if j == |t| {
      assert t[..j] == t;
    }
  }

  // ---------------------------------------------------------------- parseRESP by its first byte

  /** No carriage return is followed by a line feed. */
  predicate NoLineEnd(s: Bytes) { forall i :: 0 <= i < |s| - 1 ==> !(s[i] == 13 && s[i + 1] == 10) }

  lemma {:induction false} NoLine(data: Bytes)
    ensures NoLineEnd(data) <==> SplitLine(data) == None
  {
    if |data| >= 2 && data[..2] != CRLF {
      NoLine(data[1..]);
      assert data[..2] == [data[0], data[1]];
      assert forall i {:trigger data[1..][i]} :: 0 <= i < |data| - 1 ==> data[1..][i] == data[i + 1];
      assert !NoLineEnd(data[1..]) ==> !NoLineEnd(data);
      assert NoLineEnd(data[1..]) ==> NoLineEnd(data);
    } else if |data| >= 2 {
      assert data[0] == data[..2][0] == 13 && data[1] == data[..2][1] == 10;
    }
  }

  lemma FirstLine(b: byte, text: Bytes, rest: Bytes)
    requires b != 13 && NoLineEnd(text)
    ensures var data := [b] + text + [13, 10] + rest;
      data[0] == b && Line(data) == Ok(text, rest) && Header(data) == Ok(Atoi(text), rest)
  {
    ReadsLine(b, text, rest);
    var data := [b] + text + [13, 10] + rest;
    assert data == [b] + text + CRLF + rest;
    assert Line(data) == Ok(text, rest);
  }

  /** The one-line types. */
  lemma LineTypes(text: Bytes, rest: Bytes)
    requires NoLineEnd(text)
    ensures Parse([43] + text + [13, 10] + rest) == Ok(SimpleString(text), rest)
    ensures Parse([45] + text + [13, 10] + rest) == Ok(Error(text), rest)
    ensures Parse([58] + text + [13, 10] + rest) == Ok(Integer(Atoi(text)), rest)
    ensures Parse([44] + text + [13, 10] + rest) == Ok(Double(text), rest)
    ensures Parse([40] + text + [13, 10] + rest) == Ok(BigNum(text), rest)
    ensures Parse([33] + text + [13, 10] + rest) == Ok(BlobError(text), rest)
  {
    OneLineType(43, text, rest, SimpleString(text));
    OneLineType(45, text, rest, Error(text));
    OneLineType(58, text, rest, Integer(Atoi(text)));
    OneLineType(44, text, rest, Double(text));
    OneLineType(40, text, rest, BigNum(text));
    OneLineType(33, text, rest, BlobError(text));
  }

  lemma OneLineType(b: byte, text: Bytes, rest: Bytes, n: Node)
    requires NoLineEnd(text) && b in [43, 45, 58, 44, 40, 33]
    requires n == if b == 43 then SimpleString(text) else if b == 45 then Error(text) else if b == 58 then Integer(Atoi(text))
                  else if b == 44 then Double(text) else if b == 40 then BigNum(text) else BlobError(text)
    ensures Parse([b] + text + [13, 10] + rest) == Ok(n, rest)
  {
    FirstLine(b, text, rest);
  }

  /** The types with a length: a blob string takes its terminator unseen, a verbatim string leaves it; a length
      that does not fit panics. */
  lemma LengthTypes(text: Bytes, rest: Bytes)
    requires NoLineEnd(text)
    ensures var n := Atoi(text);
      && Parse([36] + text + [13, 10] + rest) ==
         (if 0 <= n <= |rest| - 2 then Ok(BlobString(rest[..n]), rest[n + 2..]) else Panic)
      && Parse([61] + text + [13, 10] + rest) ==
         (if 4 <= n <= |rest| then Ok(Verbatim(rest[..3], rest[4..n]), rest[n..]) else Panic)
  {
    FirstLine(36, text, rest);
    FirstLine(61, text, rest);
  }

  /** The aggregates: as many values as the number says, or twice as many for a map and an attribute, of which
      the last one is followed by the value proper. */
  lemma AggregateTypes(text: Bytes, rest: Bytes)
    requires NoLineEnd(text)
    ensures var n := Atoi(text);
      && Parse([42] + text + [13, 10] + rest) == (if n < 0 then Panic else Collected(ParseMany(rest, n), 42))
      && Parse([126] + text + [13, 10] + rest) == (if n < 0 then Panic else Collected(ParseMany(rest, n), 126))
      && Parse([62] + text + [13, 10] + rest) == (if n < 0 then Panic else Collected(ParseMany(rest, n), 62))
    ensures var kvs := ParseMany(rest, 2 * Pairs(Atoi(text)));
      && Parse([37] + text + [13, 10] + rest) ==
         (if kvs.Panic? || !KeysHashable(PairUp(kvs.value)) then Panic else Ok(Map(Fill(map[], PairUp(kvs.value))), kvs.rest))
      && Parse([124] + text + [13, 10] + rest) ==
         (if kvs.Panic? || !KeysHashable(PairUp(kvs.value)) then Panic else Parse(kvs.rest))
  {
    FirstLine(42, text, rest);
    FirstLine(126, text, rest);
    FirstLine(62, text, rest);
    FirstLine(37, text, rest);
    FirstLine(124, text, rest);
  }

  function Collected(p: Parsed<seq<Node>>, b: byte): Parsed<Node> {
    match p
    case Panic => Panic
    case Ok(ns, rest) => Ok(if b == 42 then Array(ns) else if b == 126 then Set(ns) else Push(ns), rest)
  }

  /** The pairs of a map with header number n, of which the loop counts 2 n entries in 64 bits. */
  lemma PairsAre(n: int)
    requires -9223372036854775808 <= n <= 9223372036854775807
    ensures Pairs(n) == if 0 <= n < 4611686018427387904 then n
                        else if n < -4611686018427387904 then n + 9223372036854775808 else 0
  {
  }

  /** The keys at which it panics are lists and maps. */
  lemma KeysThatPanic(kvs: seq<Node>)
    ensures KeysHashable(PairUp(kvs)) <==>
            forall t :: 0 <= t < |kvs| / 2 ==> !(kvs[2 * t].Array? || kvs[2 * t].Set? || kvs[2 * t].Push? || kvs[2 * t].Map?)
  {
    var ps := PairUp(kvs);
    forall t | 0 <= t < |kvs| / 2
      ensures Hashable(ps[t].0) <==> !(kvs[2 * t].Array? || kvs[2 * t].Set? || kvs[2 * t].Push? || kvs[2 * t].Map?)
    {
    }
  }

  /** The types of fixed length, which look at no terminator, and all other bytes. */
  lemma FixedTypes(data: Bytes)
    requires data != []
    ensures data[0] == 35 ==> Parse(data) == if |data| < 3 then Panic else Ok(Boolean(data[1] == 116 || data[1] == 84), data[3..])
    ensures data[0] == 95 ==> Parse(data) == if |data| < 2 then Panic else Ok(Null, data[2..])
    ensures data[0] !in [33, 35, 36, 37, 40, 42, 43, 44, 45, 58, 61, 62, 95, 124, 126] ==> Parse(data) == Ok(Nothing, data)
  {
  }

  /** Without a line end, and on no bytes at all, the parser panics. */
  lemma NoLinePanics(data: Bytes)
    requires NoLineEnd(data)
    ensures data == [] || data[0] in [33, 36, 37, 40, 42, 43, 44, 45, 58, 61, 62, 124, 126] ==> Parse(data) == Panic
  {
    NoLine(data);
  }

  /** A filled map holds each key's last value. */
  lemma {:induction false} FillKeepsLast<K, V>(m: map<K, V>, ps: seq<(K, V)>, t: nat)
    requires t < |ps| && forall i :: t < i < |ps| ==> ps[i].0 != ps[t].0
    ensures ps[t].0 in Fill(m, ps) && Fill(m, ps)[ps[t].0] == ps[t].1
    decreases |ps|
  {
    if t == 0 {
      FillLeaves(m[ps[0].0 := ps[0].1], ps[1..], ps[0].0);
    } else {
      FillKeepsLast(m[ps[0].0 := ps[0].1], ps[1..], t - 1);
    }
  }

  lemma {:induction false} FillLeaves<K, V>(m: map<K, V>, ps: seq<(K, V)>, k: K)
    requires k in m && forall i :: 0 <= i < |ps| ==> ps[i].0 != k
    ensures k in Fill(m, ps) && Fill(m, ps)[k] == m[k]
    decreases |ps|
  {
    if ps != [] {
      FillLeaves(m[ps[0].0 := ps[0].1], ps[1..], k);
    }
  }

  // ---------------------------------------------------------------- requests

  function Bulk(s: Bytes): Bytes { [36] + DecInt(|s|) + [13, 10] + s + [13, 10] }

  function Bulks(ss: seq<Bytes>): Bytes { if ss == [] then [] else Bulk(ss[0]) + Bulks(ss[1..]) }

  lemma {:induction false} BlobsAreBulks(ss: seq<Bytes>)
    ensures EncodeAll(Blobs(ss)) == Bulks(ss)
  {
    if ss != [] {
      BlobsAreBulks(ss[1..]);
      assert Encode(WBlob(ss[0])) == Bulk(ss[0]);
    }
  }

  /** A request is "*", the number of its strings, and each of them as "$", its length and its bytes. */
  lemma RequestBytes(command: Bytes, arguments: seq<Bytes>)
    ensures Request(command, arguments) == [42] + DecInt(|arguments| + 1) + [13, 10] + Bulks([command] + arguments)
  {
    BlobsAreBulks([command] + arguments);
  }

  /** A bulk reply, byte for byte. */
  lemma BulkReplyBytes(s: Bytes)
    ensures BulkReply(s) == [36] + DecInt(RuneCount(s)) + [13, 10] + s + [13, 10]
  {
  }
}
