/** Lines and decimal numbers as resp/resp3.go reads and writes them. */
module RespText {
  import opened Util

  const CR: byte := 13
  const LF: byte := 10
  const CRLF: Bytes := [CR, LF]

  const MAX_INT64 := 0x7FFF_FFFF_FFFF_FFFF
  const MIN_INT64 := -0x8000_0000_0000_0000
  const MAX_UINT64 := 0xFFFF_FFFF_FFFF_FFFF

  // ---------------------------------------------------------------- lines

  /** bytes.SplitN(data, CRLF, 2): the part before the first CRLF and the part after it. */
  function SplitLine(data: Bytes): (r: Option<(Bytes, Bytes)>)
    ensures r.Some? ==> data == r.value.0 + CRLF + r.value.1
  {
    if |data| < 2 then None
    else if data[..2] == CRLF then Some(([], data[2..]))
    else
      match SplitLine(data[1..])
      case None => None
      case Some((line, rest)) => Some(([data[0]] + line, rest))
  }

  predicate OneLine(s: Bytes) {
    forall i :: 0 <= i < |s| - 1 ==> !(s[i] == CR && s[i + 1] == LF)
  }

  lemma {:induction false} SplitFirst(line: Bytes, rest: Bytes)
    requires OneLine(line)
    ensures SplitLine(line + CRLF + rest) == Some((line, rest))
  {
    var data := line + CRLF + rest;
    if line == [] {
      assert data[..2] == CRLF && data[2..] == rest;
    } else {
      SplitFirst(line[1..], rest);
      assert data[1..] == line[1..] + CRLF + rest;
      assert [data[0]] + line[1..] == line;
      assert data[..2][0] == line[0] && data[..2][1] == if |line| > 1 then line[1] else CR;
    }
  }

  // ---------------------------------------------------------------- numbers

  function Digit(d: int): byte
    requires 0 <= d < 10
  {
    (48 + d) as byte
  }

  /** strconv.FormatInt in base 10. */
  function Dec(n: nat): (r: Bytes)
    ensures r != [] && forall i :: 0 <= i < |r| ==> 48 <= r[i] <= 57
  {
    if n < 10 then [Digit(n)] else Dec(n / 10) + [Digit(n % 10)]
  }

  function DecInt(i: int): Bytes {
    if i < 0 then [45] + Dec(-i) else Dec(i)
  }

  datatype Scanned = Value(n: nat) | OutOfRange | Syntax

  /** The digit loop of strconv.ParseUint, which stops at the first bad digit or at the overflow. */
  function Scan(s: Bytes, acc: nat): Scanned {
    if s == [] then Value(acc)
    else if s[0] < 48 || 57 < s[0] then Syntax
    else
      var n := acc * 10 + (s[0] as int - 48);
      if n > MAX_UINT64 then OutOfRange else Scan(s[1..], n)
  }

  function Clip(i: int): int {
    if i > MAX_INT64 then MAX_INT64 else if i < MIN_INT64 then MIN_INT64 else i
  }

  /** strconv.Atoi with its error dropped: 0 on a syntax error, the nearest bound when out of range. */
  function Atoi(s: Bytes): (r: int)
    ensures MIN_INT64 <= r <= MAX_INT64
  {
    var negative := s != [] && s[0] == 45;
    var digits := if s != [] && (s[0] == 45 || s[0] == 43) then s[1..] else s;
    if digits == [] then 0
    else
      match Scan(digits, 0)
      case Value(n) => (var v: int := n; Clip(if negative then -v else v))
      case OutOfRange => if negative then MIN_INT64 else MAX_INT64
      case Syntax => 0
  }

  lemma {:induction false} ScanAppend(s: Bytes, acc: nat, d: int)
    requires 0 <= d < 10 && Scan(s, acc).Value? && Scan(s, acc).n * 10 + d <= MAX_UINT64
    ensures Scan(s + [Digit(d)], acc) == Value(Scan(s, acc).n * 10 + d)
  {
    if s != [] {
      ScanAppend(s[1..], acc * 10 + (s[0] as int - 48), d);
      assert (s + [Digit(d)])[1..] == s[1..] + [Digit(d)];
    }
  }

  lemma {:induction false} ScanDec(n: nat)
    requires n <= MAX_UINT64
    ensures Scan(Dec(n), 0) == Value(n)
  {
    if n >= 10 {
      ScanDec(n / 10);
      ScanAppend(Dec(n / 10), 0, n % 10);
    }
  }

  /** Printing and reading a 64-bit integer are inverse. */
  lemma AtoiDec(i: int)
    requires MIN_INT64 <= i <= MAX_INT64
    ensures Atoi(DecInt(i)) == i
  {
    if i < 0 {
      ScanDec(-i);
      assert DecInt(i)[1..] == Dec(-i);
    } else {
      ScanDec(i);
    }
  }

  lemma DecIntIsOneLine(i: int)
    ensures OneLine(DecInt(i))
  {
    var s := DecInt(i);
    assert forall k :: 0 <= k < |s| ==> s[k] != CR;
  }

  /** The only number that prints as its own length in digits is 1. */
  lemma {:induction false} DecLength(n: nat)
    ensures |Dec(n)| == n <==> n == 1
    ensures n >= 2 ==> |Dec(n)| < n
  {
    if n >= 10 {
      DecLength(n / 10);
    }
  }

  /** ll2String: prefix, number and CRLF written into one buffer. */
  method Ll2String(prefix: byte, ll: int) returns (buf: array<byte>)
    requires MIN_INT64 <= ll <= MAX_INT64
    ensures fresh(buf) && buf[..] == [prefix] + DecInt(ll) + CRLF
  {
    var s := DecInt(ll);
    buf := new byte[1 + |s| + 2];
    buf[0] := prefix;
    var i := 0;
    while i < |s|
      invariant 0 <= i <= |s| && buf[..i + 1] == [prefix] + s[..i]
    {
      buf[i + 1] := s[i];
      assert buf[..i + 2] == buf[..i + 1] + [s[i]];
      i := i + 1;
    }
    buf[|s| + 1] := CR;
    buf[|s| + 2] := LF;
    assert buf[..|s| + 1] == [prefix] + s && buf[..] == buf[..|s| + 1] + CRLF;
  }
}
