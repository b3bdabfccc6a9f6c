/** Hexadecimal rendering as the source writes it: `n.toString(16)` and
    `n.toString(16).padStart(2, "0")` (used by `stringToHex` in app/utils/helper.ts and by the
    digest rendering in app/utils/cleanup.ts), with the digit values that read it back. */
module Hex {
  import opened Strings

  predicate IsLowerHexDigit(c: char) {
    ('0' <= c <= '9') || ('a' <= c <= 'f')
  }

  /** A digit `parseInt(_, 16)` accepts: either case. */
  predicate IsHexDigit(c: char) {
    IsLowerHexDigit(c) || ('A' <= c <= 'F')
  }

  predicate AllLowerHex(s: string) {
    forall i :: 0 <= i < |s| ==> IsLowerHexDigit(s[i])
  }

  predicate AllHex(s: string) {
    forall i :: 0 <= i < |s| ==> IsHexDigit(s[i])
  }

  function DigitValue(c: char): (d: nat)
    requires IsHexDigit(c)
    ensures d < 16
  {
    if '0' <= c <= '9' then c as int - '0' as int
    else if 'a' <= c <= 'f' then c as int - 'a' as int + 10
    else c as int - 'A' as int + 10
  }

  /** The lower-case digit `toString(16)` prints for `d`. */
  function HexDigit(d: nat): (c: char)
    requires d < 16
    ensures IsLowerHexDigit(c) && DigitValue(c) == d
  {
    if d < 10 then ('0' as int + d) as char else ('a' as int + d - 10) as char
  }

  /** The number a string of hex digits denotes (most significant digit first). */
  function HexValue(s: string): nat
    requires AllHex(s)
  {
    if s == [] then 0 else HexValue(s[..|s| - 1]) * 16 + DigitValue(s[|s| - 1])
  }

  /** `n.toString(16)` for a non-negative integer: lower-case digits, no leading zeros, and
      reading it back gives `n`. */
  function ToHexString(n: nat): (s: string)
    ensures 1 <= |s| && AllLowerHex(s) && AllHex(s)
    ensures HexValue(s) == n
    ensures n < 16 <==> |s| == 1
    ensures n < 256 ==> |s| <= 2
    decreases n
  {
    if n < 16 then [HexDigit(n)]
    else
      var s := ToHexString(n / 16) + [HexDigit(n % 16)];
      assert s[..|s| - 1] == ToHexString(n / 16);
      s
  }

  /** Leading zeros do not change the value of a digit string. */
  lemma {:induction false} LeadingZero(s: string)
    requires AllHex(s)
    ensures AllHex("0" + s) && HexValue("0" + s) == HexValue(s)
  {
    if s != [] {
      var t := "0" + s;
      assert t[..|t| - 1] == "0" + s[..|s| - 1];
      LeadingZero(s[..|s| - 1]);
    }
  }

  /** `b.toString(16).padStart(2, "0")`. */
  function ByteToHex(n: nat): (r: string)
    ensures n >= 256 ==> |r| > 2
  {
    PadStart(ToHexString(n), 2, '0')
  }

  /** A byte renders as exactly two lower-case hex digits that read back as the byte. */
  lemma ByteToHexExact(n: nat)
    requires n < 256
    ensures |ByteToHex(n)| == 2 && AllLowerHex(ByteToHex(n)) && AllHex(ByteToHex(n))
    ensures HexValue(ByteToHex(n)) == n
  {
    var h := ToHexString(n);
    if n < 16 {
      assert ByteToHex(n) == "0" + h;
      LeadingZero(h);
    } else {
      assert ByteToHex(n) == h;
    }
  }
}
