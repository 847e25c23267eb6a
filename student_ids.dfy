/** The student number that registration gives every student profile: the letters "STU"
    followed by the user's id in decimal, zero-padded on the left to at least six digits
    (Python's `f"STU{user.id:06d}"`). Ids are positive database keys, so only naturals
    are formatted. */
module StudentIds {
  import opened Wrappers

  const Prefix: string := "STU"
  const PadWidth: nat := 6

  predicate IsDigit(c: char) {
    '0' <= c <= '9'
  }

  function DigitChar(d: nat): (c: char)
    requires d < 10
    ensures IsDigit(c) && DigitValue(c) == d
  {
    (d + '0' as int) as char
  }

  function DigitValue(c: char): nat
    requires IsDigit(c)
  {
    c as int - '0' as int
  }

  /** Decimal representation without leading zeros ("0" for zero). */
  function Decimal(n: nat): (s: string)
    ensures 1 <= |s|
    ensures forall i :: 0 <= i < |s| ==> IsDigit(s[i])
    ensures n < 10 ==> |s| == 1
  {
    if n < 10 then [DigitChar(n)] else Decimal(n / 10) + [DigitChar(n % 10)]
  }

  /** The value of a string of decimal digits, most significant first. */
  function DigitsValue(s: string): nat
    requires forall i :: 0 <= i < |s| ==> IsDigit(s[i])
  {
    if s == [] then 0 else DigitsValue(s[..|s| - 1]) * 10 + DigitValue(s[|s| - 1])
  }

  function Zeros(k: nat): (s: string)
    ensures |s| == k && forall i :: 0 <= i < k ==> s[i] == '0'
  {
    if k == 0 then [] else Zeros(k - 1) + ['0']
  }

  /** `s` left-padded with '0' to `width` characters; longer strings are left alone. */
  function ZeroPad(s: string, width: nat): (r: string)
    ensures |r| == if |s| < width then width else |s|
    ensures r[|r| - |s|..] == s
    ensures forall i :: 0 <= i < |r| - |s| ==> r[i] == '0'
  {
    if |s| < width then Zeros(width - |s|) + s else s
  }

  /** `f"STU{id:06d}"` */
  function FormatStudentId(id: nat): string {
    Prefix + ZeroPad(Decimal(id), PadWidth)
  }

  /** A student number is "STU" and at least six digits; exactly six below one million. */
  lemma StudentIdShape(id: nat)
    ensures var s := FormatStudentId(id);
      && |s| >= |Prefix| + PadWidth && s[..|Prefix|] == Prefix
      && (forall i :: |Prefix| <= i < |s| ==> IsDigit(s[i]))
      && (id < 1000000 <==> |s| == |Prefix| + PadWidth)
  {
    DecimalLength(id);
  }

  /** Reads a student number back: "STU" and then one or more digits. */
  function ParseStudentId(s: string): (r: Option<nat>)
    ensures r.Some? <==> |s| > |Prefix| && s[..|Prefix|] == Prefix && forall i :: |Prefix| <= i < |s| ==> IsDigit(s[i])
  {
    if |s| > |Prefix| && s[..|Prefix|] == Prefix && forall i :: |Prefix| <= i < |s| ==> IsDigit(s[i])
    then Some(DigitsValue(s[|Prefix|..]))
    else None
  }

  function Pow10(k: nat): (p: nat)
    ensures p >= 1
  {
    if k == 0 then 1 else 10 * Pow10(k - 1)
  }

  /** `k` digits are enough exactly for numbers below `10^k`. */
  lemma {:induction false} DecimalDigits(n: nat, k: nat)
    requires k >= 1
    ensures n < Pow10(k) <==> |Decimal(n)| <= k
  {
    if n >= 10 {
      assert |Decimal(n)| == |Decimal(n / 10)| + 1;
      if k >= 2 {
        DecimalDigits(n / 10, k - 1);
        assert n < Pow10(k) <==> n / 10 < Pow10(k - 1);
      }
    }
  }

  /** Six digits are enough exactly for ids below one million. */
  lemma DecimalLength(n: nat)
    ensures n < 1000000 <==> |Decimal(n)| <= PadWidth
  {
    DecimalDigits(n, PadWidth);
  }

  lemma {:induction false} DecimalRoundTrip(n: nat)
    ensures DigitsValue(Decimal(n)) == n
  {
    var s := Decimal(n);
    if n >= 10 {
      DecimalRoundTrip(n / 10);
      assert s[..|s| - 1] == Decimal(n / 10);
    }
  }

  /** Leading zeros do not change the value of a digit string. */
  lemma {:induction false} LeadingZeros(k: nat, s: string)
    requires forall i :: 0 <= i < |s| ==> IsDigit(s[i])
    ensures DigitsValue(Zeros(k) + s) == DigitsValue(s)
    decreases |s|, k
  {
    var t := Zeros(k) + s;
    if s == [] {
      if k > 0 {
        assert t[..|t| - 1] == Zeros(k - 1) + s;
        LeadingZeros(k - 1, s);
      }
    } else {
      assert t[..|t| - 1] == Zeros(k) + s[..|s| - 1];
      LeadingZeros(k, s[..|s| - 1]);
    }
  }

  /** The digit suffix of a student number parses back to the user id. */
  lemma {:induction false} StudentIdRoundTrip(id: nat)
    ensures ParseStudentId(FormatStudentId(id)) == Some(id)
  {
    var d := Decimal(id);
    var s := FormatStudentId(id);
    assert s[|Prefix|..] == ZeroPad(d, PadWidth);
    if |d| < PadWidth {
      LeadingZeros(PadWidth - |d|, d);
    }
    DecimalRoundTrip(id);
  }

  /** Distinct users never share a student number, so the unique constraint on
      `students.student_id` cannot be violated by registration. */
  lemma StudentIdInjective(a: nat, b: nat)
    requires FormatStudentId(a) == FormatStudentId(b)
    ensures a == b
  {
    StudentIdRoundTrip(a);
    StudentIdRoundTrip(b);
  }
}
