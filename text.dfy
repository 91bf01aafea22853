/** Number formatting and parsing shared by the log writer (pscnv's `%llx`,
    `%04x`, `%llu`) and the log reader (Ruby's `to_i(16)`). */
module Text {

  predicate IsHexChar(c: char)
  {
    ('0' <= c <= '9') || ('a' <= c <= 'f') || ('A' <= c <= 'F')
  }

  predicate IsDecChar(c: char)
  {
    '0' <= c <= '9'
  }

  /** The value of one hexadecimal digit, either case. */
  function HexVal(c: char): (v: nat)
    requires IsHexChar(c)
    ensures v < 16
  {
    if '0' <= c <= '9' then c as int - '0' as int
    else if 'a' <= c <= 'f' then c as int - 'a' as int + 10
    else c as int - 'A' as int + 10
  }

  /** The lower-case digit `printf` uses for the value d. */
  function HexDigit(d: nat): (c: char)
    requires d < 16
    ensures IsHexChar(c) && HexVal(c) == d
    ensures !('A' <= c <= 'F')
  {
    if d < 10 then (d + '0' as int) as char else (d - 10 + 'a' as int) as char
  }

  predicate AllHex(s: string)
  {
    forall i :: 0 <= i < |s| ==> IsHexChar(s[i])
  }

  predicate AllDec(s: string)
  {
    forall i :: 0 <= i < |s| ==> IsDecChar(s[i])
  }

  /** Ruby's `String#to_i(16)` on a string of hex digits. */
  function ParseHex(s: string): nat
    requires AllHex(s)
  {
    if s == [] then 0 else ParseHex(s[..|s| - 1]) * 16 + HexVal(s[|s| - 1])
  }

  /** C's `%llx`: lower case, no padding, "0" for zero. */
  function HexOf(n: nat): (s: string)
    ensures |s| >= 1 && AllHex(s)
    ensures n < 16 <==> |s| == 1
  {
    if n < 16 then [HexDigit(n)] else HexOf(n / 16) + [HexDigit(n % 16)]
  }

  lemma {:induction false} ParseHexOf(n: nat)
    ensures ParseHex(HexOf(n)) == n
  {
    if n >= 16 {
      var s := HexOf(n / 16) + [HexDigit(n % 16)];
      assert s[..|s| - 1] == HexOf(n / 16);
      ParseHexOf(n / 16);
    }
  }

  /** Leading zeros do not change the value of a hex string. */
  lemma {:induction false} ParseHexLeadingZero(s: string)
    requires AllHex(s)
    ensures AllHex("0" + s) && ParseHex("0" + s) == ParseHex(s)
  {
    if s != [] {
      var t := "0" + s;
      assert t[..|t| - 1] == "0" + s[..|s| - 1];
      ParseHexLeadingZero(s[..|s| - 1]);
    }
  }

  function Zeros(k: nat): (s: string)
    ensures |s| == k && forall i :: 0 <= i < k ==> s[i] == '0'
  {
    if k == 0 then "" else "0" + Zeros(k - 1)
  }

  lemma {:induction false} ParseHexZeros(k: nat, s: string)
    requires AllHex(s)
    ensures AllHex(Zeros(k) + s) && ParseHex(Zeros(k) + s) == ParseHex(s)
  {
    if k > 0 {
      ParseHexZeros(k - 1, s);
      assert Zeros(k) + s == "0" + (Zeros(k - 1) + s);
      ParseHexLeadingZero(Zeros(k - 1) + s);
    } else {
      assert Zeros(k) + s == s;
    }
  }

  /** C's `%04x`: lower-case hex, zero-padded to at least four digits. */
  function Hex4(n: nat): (s: string)
    ensures |s| >= 4 && AllHex(s)
    ensures ParseHex(s) == n
    ensures n < 0x1_0000 ==> |s| == 4
  {
    var h := HexOf(n);
    HexLength(n);
    ParseHexOf(n);
    ParseHexZeros(if |h| < 4 then 4 - |h| else 0, h);
    if |h| < 4 then Zeros(4 - |h|) + h else h
  }

  /** `%llx` of n has at most k digits exactly when n < 16^k. */
  lemma {:induction false} HexLength(n: nat)
    ensures n < 0x1_0000 ==> |HexOf(n)| <= 4
  {
    if n >= 16 {
      HexLength(n / 16);
      if n < 0x1_0000 {
        assert n / 16 < 0x1000;
        if n / 16 >= 16 {
          HexLength(n / 256);
          assert n / 16 / 16 == n / 256;
          if n / 256 >= 16 {
            assert n / 256 / 16 < 16;
          }
        }
      }
    }
  }

  function DecVal(c: char): (v: nat)
    requires IsDecChar(c)
    ensures v < 10
  {
    c as int - '0' as int
  }

  function DecDigit(d: nat): (c: char)
    requires d < 10
    ensures IsDecChar(c) && DecVal(c) == d
  {
    (d + '0' as int) as char
  }

  function ParseDec(s: string): nat
    requires AllDec(s)
  {
    if s == [] then 0 else ParseDec(s[..|s| - 1]) * 10 + DecVal(s[|s| - 1])
  }

  /** C's `%llu` (and `%d` of a non-negative value). */
  function DecOf(n: nat): (s: string)
    ensures |s| >= 1 && AllDec(s)
  {
    if n < 10 then [DecDigit(n)] else DecOf(n / 10) + [DecDigit(n % 10)]
  }

  lemma {:induction false} ParseDecOf(n: nat)
    ensures ParseDec(DecOf(n)) == n
  {
    if n >= 10 {
      var s := DecOf(n / 10) + [DecDigit(n % 10)];
      assert s[..|s| - 1] == DecOf(n / 10);
      ParseDecOf(n / 10);
    }
  }

  /** `%llu` of n has at most k digits when n < 10^k. */
  lemma {:induction false} DecLength(n: nat, k: nat)
    requires k >= 1 && n < Pow10(k)
    ensures |DecOf(n)| <= k
  {
    if k == 1 {
      assert Pow10(1) == 10;
    } else if n >= 10 {
      assert n / 10 < Pow10(k - 1);
      DecLength(n / 10, k - 1);
    }
  }

  function Pow10(k: nat): (r: nat)
    ensures r >= 1
  {
    if k == 0 then 1 else 10 * Pow10(k - 1)
  }
}
