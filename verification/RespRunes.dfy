/** Runes, as the length of a bulk reply counts them: the code points of UTF-8 (RFC 3629, section 3), and single
    bytes where there is none. */
module RespRunes {
  import opened Util
  import opened RespIO

  /** A code point that UTF-8 can encode: surrogates are none. */
  predicate CodePoint(r: int) { 0 <= r < 0x11_0000 && !(0xD800 <= r < 0xE000) }

  function Tail(n: int): byte
    requires n >= 0
  {
    (128 + n % 64) as byte
  }

  function Utf8(r: int): Bytes
    requires CodePoint(r)
  {
    if r < 0x80 then [r as byte]
    else if r < 0x800 then [(192 + r / 64) as byte, Tail(r)]
    else if r < 0x1_0000 then [(224 + r / 4096) as byte, Tail(r / 64), Tail(r)]
    else [(240 + r / 262144) as byte, Tail(r / 4096), Tail(r / 64), Tail(r)]
  }

  /** The rune at the front of an encoded code point is that code point, whatever follows. */
  lemma WidthOfCodePoint(r: int, rest: Bytes)
    requires CodePoint(r)
    ensures RuneWidth(Utf8(r) + rest) == |Utf8(r)|
  {
    var s := Utf8(r) + rest;
    if 0x800 <= r < 0x1_0000 {
      assert s[0] as int == 224 + r / 4096 && s[1] as int == 128 + (r / 64) % 64;
      assert r / 4096 == (r / 64) / 64;
    } else if 0x1_0000 <= r {
      assert s[0] as int == 240 + r / 262144 && s[1] as int == 128 + (r / 4096) % 64;
      assert r / 262144 == (r / 4096) / 64;
    }
  }

  /** A rune of several bytes is an encoded code point. */
  lemma WideIsCodePoint(s: Bytes) returns (r: int)
    requires s != [] && RuneWidth(s) > 1
    ensures CodePoint(r) && Utf8(r) == s[..RuneWidth(s)]
  {
    var w := RuneWidth(s);
    var a, b := s[0] as int, s[1] as int - 128;
    if w == 2 {
      r := (a - 192) * 64 + b;
      assert r / 64 == a - 192 && r % 64 == b;
    } else if w == 3 {
      var c := s[2] as int - 128;
      var m := (a - 224) * 64 + b;
      r := m * 64 + c;
      assert r / 64 == m && r % 64 == c && m / 64 == a - 224 && m % 64 == b;
      assert r / 4096 == m / 64;
    } else {
      var c, d := s[2] as int - 128, s[3] as int - 128;
      var m := (a - 240) * 64 + b;
      var l := m * 64 + c;
      r := l * 64 + d;
      assert r / 64 == l && r % 64 == d && l / 64 == m && l % 64 == c && m / 64 == a - 240 && m % 64 == b;
      assert r / 4096 == l / 64 && r / 262144 == m / 64;
    }
  }

  /** So a rune is what UTF-8 says it is, and one byte where it says nothing. */
  lemma RuneIs(s: Bytes)
    requires s != []
    ensures forall r :: CodePoint(r) && Utf8(r) <= s ==> RuneWidth(s) == |Utf8(r)|
    ensures (forall r :: CodePoint(r) ==> !(Utf8(r) <= s)) ==> RuneWidth(s) == 1
  {
    forall r | CodePoint(r) && Utf8(r) <= s
      ensures RuneWidth(s) == |Utf8(r)|
    {
      assert s == Utf8(r) + s[|Utf8(r)|..];
      WidthOfCodePoint(r, s[|Utf8(r)|..]);
    }
    if RuneWidth(s) > 1 {
      var r := WideIsCodePoint(s);
      assert Utf8(r) <= s;
    }
  }

  function Text(rs: seq<int>): Bytes
    requires forall i :: 0 <= i < |rs| ==> CodePoint(rs[i])
  {
    if rs == [] then [] else Utf8(rs[0]) + Text(rs[1..])
  }

  /** The length of a text in runes is the number of its code points. */
  lemma {:induction false} CountsCodePoints(rs: seq<int>)
    requires forall i :: 0 <= i < |rs| ==> CodePoint(rs[i])
    ensures RuneCount(Text(rs)) == |rs|
  {
    if rs != [] {
      WidthOfCodePoint(rs[0], Text(rs[1..]));
      CountsCodePoints(rs[1..]);
      assert Text(rs)[|Utf8(rs[0])|..] == Text(rs[1..]);
    }
  }
}
