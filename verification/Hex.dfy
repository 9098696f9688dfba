/**
 Hexadecimal text, as `$sscanf("%h")` reads it and `$sformatf("%0Nh")` writes it, and byte order.
 */
module Hex {
  import opened MemoryMap

  // ---------- digits ----------

  predicate IsHex(c: char) {
    '0' <= c <= '9' || 'a' <= c <= 'f' || 'A' <= c <= 'F'
  }

  predicate AllHex(s: string) {
    forall i :: 0 <= i < |s| ==> IsHex(s[i])
  }

  function Digit(c: char): (d: nat)
    requires IsHex(c)
    ensures d < 16
  {
    if '0' <= c <= '9' then c as int - '0' as int
    else if 'a' <= c <= 'f' then c as int - 'a' as int + 10
    else c as int - 'A' as int + 10
  }

  function HexChar(d: nat): (c: char)
    requires d < 16
    ensures IsHex(c) && Digit(c) == d
  {
    if d < 10 then ('0' as int + d) as char else ('a' as int + d - 10) as char
  }

  /** The digits are the usual ones, and letters are read in either case. */
  lemma DigitsAreUsual(d: nat)
    requires d < 16
    ensures HexChar(d) == "0123456789abcdef"[d]
    ensures IsHex("0123456789abcdef"[d]) && Digit("0123456789abcdef"[d]) == d
    ensures IsHex("0123456789ABCDEF"[d]) && Digit("0123456789ABCDEF"[d]) == d
  {
  }

  function LowerChar(c: char): char {
    if 'A' <= c <= 'Z' then (c as int + 32) as char else c
  }

  function Lower(s: string): string {
    seq(|s|, i requires 0 <= i < |s| => LowerChar(s[i]))
  }

  lemma LowerConcat(a: string, b: string)
    ensures Lower(a + b) == Lower(a) + Lower(b)
  {
  }

  // ---------- numbers ----------

  function Parse(s: string): nat
    requires AllHex(s)
  {
    if s == "" then 0 else 16 * Parse(s[..|s| - 1]) + Digit(s[|s| - 1])
  }

  function Format(v: nat, n: nat): (s: string)
    ensures |s| == n && AllHex(s)
  {
    if n == 0 then "" else Format(v / 16, n - 1) + [HexChar(v % 16)]
  }

  // ---------- bytes as text ----------

  function HexByte(b: Byte): (s: string)
    ensures |s| == 2 && AllHex(s)
  {
    [HexChar(b / 16), HexChar(b % 16)]
  }

  function ByteOfHex(hi: char, lo: char): Byte
    requires IsHex(hi) && IsHex(lo)
  {
    16 * Digit(hi) + Digit(lo)
  }

  function HexOf(d: seq<Byte>): (s: string)
    ensures |s| == 2 * |d| && AllHex(s)
  {
    if d == [] then "" else HexOf(d[..|d| - 1]) + HexByte(d[|d| - 1])
  }

  /** The bytes of a text of digit pairs. */
  function BytesOf(s: string): (d: seq<Byte>)
    requires AllHex(s)
    ensures 2 * |d| <= |s| <= 2 * |d| + 1
    decreases |s|
  {
    if |s| < 2 then [] else BytesOf(s[..|s| - 2]) + [ByteOfHex(s[|s| - 2], s[|s| - 1])]
  }

  lemma FormatByte(b: Byte)
    ensures Format(b, 2) == HexByte(b)
  {
    assert Format(b, 2) == Format(b / 16, 1) + [HexChar(b % 16)];
    assert Format(b / 16, 1) == Format(b / 16 / 16, 0) + [HexChar(b / 16 % 16)];
  }

  lemma ParsePair(s: string)
    requires |s| == 2 && AllHex(s)
    ensures Parse(s) == ByteOfHex(s[0], s[1])
  {
    assert Parse(s[..1]) == 16 * Parse(s[..1][..0]) + Digit(s[0]);
  }

  lemma HexOfExtends(d: seq<Byte>, b: Byte)
    ensures HexOf(d + [b]) == HexOf(d) + HexByte(b)
  {
    assert (d + [b])[..|d|] == d;
  }

  lemma BytesOfExtends(s: string, hi: char, lo: char)
    requires AllHex(s) && IsHex(hi) && IsHex(lo)
    ensures AllHex(s + [hi, lo]) && BytesOf(s + [hi, lo]) == BytesOf(s) + [ByteOfHex(hi, lo)]
  {
    var t := s + [hi, lo];
    assert t[..|t| - 2] == s;
  }

  /** Byte `i` of a text is the number its digit pair `i` spells. */
  lemma {:induction false} BytesOfAt(s: string, n: nat, i: nat)
    requires |s| == 2 * n && AllHex(s) && i < n
    ensures |BytesOf(s)| == n && BytesOf(s)[i] == Parse(s[2 * i..2 * i + 2])
    decreases n
  {
    var t := s[..|s| - 2];
    if i < n - 1 {
      BytesOfAt(t, n - 1, i);
      assert t[2 * i..2 * i + 2] == s[2 * i..2 * i + 2];
    } else {
      ParsePair(s[2 * i..2 * i + 2]);
    }
  }

  /** Byte `i` of a text from the two digits that spell it. */
  lemma BytesOfDigits(s: string, n: nat, i: nat)
    requires |s| == 2 * n && AllHex(s) && i < n
    ensures |BytesOf(s)| == n && BytesOf(s)[i] == 16 * Digit(s[2 * i]) + Digit(s[2 * i + 1])
  {
    BytesOfAt(s, n, i);
    ParsePair(s[2 * i..2 * i + 2]);
  }

  lemma BytesOfHexByte(b: Byte)
    ensures var h := HexByte(b); ByteOfHex(h[0], h[1]) == b
  {
  }

  lemma {:induction false} BytesOfHexOf(d: seq<Byte>)
    ensures BytesOf(HexOf(d)) == d
  {
    if d != [] {
      var n := |d| - 1;
      var h := HexByte(d[n]);
      BytesOfHexOf(d[..n]);
      BytesOfExtends(HexOf(d[..n]), h[0], h[1]);
      BytesOfHexByte(d[n]);
      assert HexOf(d) == HexOf(d[..n]) + [h[0], h[1]];
      assert d == d[..n] + [d[n]];
    }
  }

  lemma HexOfDigit(c: char)
    requires IsHex(c)
    ensures HexChar(Digit(c)) == LowerChar(c)
  {
  }

  lemma HexByteOfPair(hi: char, lo: char)
    requires IsHex(hi) && IsHex(lo)
    ensures HexByte(ByteOfHex(hi, lo)) == Lower([hi, lo])
  {
    var b := ByteOfHex(hi, lo);
    assert b / 16 == Digit(hi) && b % 16 == Digit(lo);
    HexOfDigit(hi);
    HexOfDigit(lo);
  }

  /** Text decoded to bytes and printed again is the same text in lower case. */
  lemma {:induction false} HexOfBytesOf(s: string, n: nat)
    requires |s| == 2 * n && AllHex(s)
    ensures HexOf(BytesOf(s)) == Lower(s)
    decreases n
  {
    if n > 0 {
      var t, hi, lo := s[..|s| - 2], s[|s| - 2], s[|s| - 1];
      HexOfBytesOf(t, n - 1);
      HexOfExtends(BytesOf(t), ByteOfHex(hi, lo));
      HexByteOfPair(hi, lo);
      LowerConcat(t, [hi, lo]);
      assert t + [hi, lo] == s;
    }
  }

  // ---------- byte order ----------

  function Reverse(d: seq<Byte>): (r: seq<Byte>)
    ensures |r| == |d| && forall i :: 0 <= i < |d| ==> r[i] == d[|d| - 1 - i]
  {
    seq<Byte>(|d|, i requires 0 <= i < |d| => d[|d| - 1 - i])
  }

  /** The value of a byte string, least significant byte first. */
  function FromLE(d: seq<Byte>): nat {
    if d == [] then 0 else d[0] + 256 * FromLE(d[1..])
  }

  function ToLE(v: nat, n: nat): (d: seq<Byte>)
    ensures |d| == n
  {
    if n == 0 then [] else [v % 256] + ToLE(v / 256, n - 1)
  }

  function Pow256(n: nat): (p: nat)
    ensures p >= 1
  {
    if n == 0 then 1 else 256 * Pow256(n - 1)
  }

  lemma {:induction false} FromToLE(v: nat, n: nat)
    requires v < Pow256(n)
    ensures FromLE(ToLE(v, n)) == v
  {
    if n > 0 {
      FromToLE(v / 256, n - 1);
      assert ToLE(v, n)[1..] == ToLE(v / 256, n - 1);
    }
  }

  lemma {:induction false} ToFromLE(d: seq<Byte>)
    ensures ToLE(FromLE(d), |d|) == d && FromLE(d) < Pow256(|d|)
  {
    if d != [] {
      ToFromLE(d[1..]);
      assert FromLE(d) / 256 == FromLE(d[1..]) && FromLE(d) % 256 == d[0];
      assert d == [d[0]] + d[1..];
    }
  }

  /** Byte `j` of a number stored least significant byte first. */
  lemma {:induction false} ToLEAt(v: nat, n: nat, j: nat)
    requires j < n
    ensures ToLE(v, n)[j] == v / Pow256(j) % 256
  {
    if j > 0 {
      ToLEAt(v / 256, n - 1, j - 1);
      DivideTwice(v, Pow256(j - 1));
    }
  }

  lemma DivideTwice(v: nat, b: nat)
    requires b > 0
    ensures v / 256 / b == v / (256 * b)
  {
    var w, q := v / 256, v / 256 / b;
    assert b * q <= w < b * q + b;
    assert (256 * b) * q == 256 * (b * q);
    QuotientIs(v, 256 * b, q);
  }

  lemma QuotientIs(v: nat, m: nat, q: nat)
    requires m > 0 && m * q <= v < m * q + m
    ensures v / m == q
  {
    MultiplesGrow(m, v / m, q);
    MultiplesGrow(m, q, v / m);
  }

  lemma {:induction false} MultiplesGrow(m: nat, p: nat, q: nat)
    ensures p < q ==> m * p + m <= m * q
    decreases q
  {
    if p < q {
      assert m * q == m * (q - 1) + m;
      MultiplesGrow(m, p, q - 1);
    }
  }

  /** The characters at byte `i` of a printed byte string. */
  lemma {:induction false} HexOfAt(d: seq<Byte>, i: nat)
    requires i < |d|
    ensures HexOf(d)[2 * i] == "0123456789abcdef"[d[i] / 16]
    ensures HexOf(d)[2 * i + 1] == "0123456789abcdef"[d[i] % 16]
  {
    var n := |d| - 1;
    if i < n {
      HexOfAt(d[..n], i);
    } else {
      DigitsAreUsual(d[n] / 16);
      DigitsAreUsual(d[n] % 16);
    }
  }

  /** The byte swap `{<<8{v}}` of a register of `n` bytes. */
  function Swap(v: nat, n: nat): nat {
    FromLE(Reverse(ToLE(v, n)))
  }

  lemma ReverseExtends(d: seq<Byte>, b: Byte)
    ensures Reverse(d + [b]) == [b] + Reverse(d)
    ensures Reverse([b] + d) == Reverse(d) + [b]
  {
  }

  lemma ParseExtends(s: string, hi: char, lo: char)
    requires AllHex(s) && IsHex(hi) && IsHex(lo)
    ensures AllHex(s + [hi, lo]) && Parse(s + [hi, lo]) == 256 * Parse(s) + ByteOfHex(hi, lo)
  {
    var t := s + [hi, lo];
    assert t[..|t| - 1] == s + [hi];
    assert (s + [hi])[..|s|] == s;
  }

  lemma {:induction false} ParseIsBigEndian(s: string, n: nat)
    requires |s| == 2 * n && AllHex(s)
    ensures Parse(s) == FromLE(Reverse(BytesOf(s)))
    decreases n
  {
    if n > 0 {
      var t, hi, lo := s[..|s| - 2], s[|s| - 2], s[|s| - 1];
      var b := ByteOfHex(hi, lo);
      ParseIsBigEndian(t, n - 1);
      ParseExtends(t, hi, lo);
      assert s == t + [hi, lo];
      ReverseExtends(BytesOf(t), b);
      assert ([b] + Reverse(BytesOf(t)))[1..] == Reverse(BytesOf(t));
    }
  }

  lemma FormatExtends(v: nat, n: nat)
    ensures Format(v, n + 2) == Format(v / 256, n) + HexByte(v % 256)
  {
    assert Format(v, n + 2) == Format(v / 16, n + 1) + [HexChar(v % 16)];
    assert Format(v / 16, n + 1) == Format(v / 16 / 16, n) + [HexChar(v / 16 % 16)];
    assert v / 16 / 16 == v / 256 && v / 16 % 16 == v % 256 / 16 && v % 16 == v % 256 % 16;
  }

  lemma {:induction false} FormatIsBigEndian(v: nat, n: nat)
    ensures Format(v, 2 * n) == HexOf(Reverse(ToLE(v, n)))
  {
    if n > 0 {
      FormatIsBigEndian(v / 256, n - 1);
      FormatExtends(v, 2 * n - 2);
      ReverseExtends(ToLE(v / 256, n - 1), v % 256);
      HexOfExtends(Reverse(ToLE(v / 256, n - 1)), v % 256);
    }
  }

  lemma SwapOfReversed(d: seq<Byte>, n: nat)
    requires |d| == n
    ensures Swap(FromLE(Reverse(d)), n) == FromLE(d)
  {
    ToFromLE(Reverse(d));
    assert Reverse(Reverse(d)) == d;
  }

  /** Reading text into a byte-swapped register stores its bytes least significant first. */
  lemma SwappedParse(s: string, n: nat)
    requires |s| == 2 * n && AllHex(s)
    ensures Swap(Parse(s), n) == FromLE(BytesOf(s))
  {
    ParseIsBigEndian(s, n);
    SwapOfReversed(BytesOf(s), n);
  }

  /** Printing a byte-swapped register lists its bytes least significant first. */
  lemma SwappedFormat(v: nat, n: nat)
    requires v < Pow256(n)
    ensures Format(Swap(v, n), 2 * n) == HexOf(ToLE(v, n))
  {
    FormatIsBigEndian(Swap(v, n), n);
    ToFromLE(Reverse(ToLE(v, n)));
    assert Reverse(Reverse(ToLE(v, n))) == ToLE(v, n);
  }
}
