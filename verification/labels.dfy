/** Decimal rendering of integer ranks and the "<k>th" keys built from them. */
module Labels {

  predicate IsDigit(c: char) {
    '0' <= c <= '9'
  }

  function DigitChar(d: int): (c: char)
    requires 0 <= d < 10
  {
    ('0' as int + d) as char
  }

  function DigitValue(c: char): int
    requires IsDigit(c)
  {
    c as int - '0' as int
  }

  /** Decimal digits of a natural number, most significant first, with no leading zero (as `str` renders it). */
  function NatToString(n: nat): (s: string)
    ensures |s| > 0
    ensures forall i :: 0 <= i < |s| ==> IsDigit(s[i])
    ensures s[0] == '0' ==> n == 0
  {
    if n < 10 then [DigitChar(n)]
    else NatToString(n / 10) + [DigitChar(n % 10)]
  }

  /** Decimal rendering of an integer, with a leading '-' for negatives (as `str` does). */
  function IntToString(k: int): (s: string)
    ensures |s| > 0
    ensures s[0] == '-' <==> k < 0
    ensures forall i :: (if k < 0 then 1 else 0) <= i < |s| ==> IsDigit(s[i])
    ensures k < 0 ==> |s| > 1
    ensures k >= 0 && s[0] == '0' ==> s == "0"
    ensures k < 0 ==> s[1] != '0'
  {
    if k < 0 then "-" + NatToString(-k) else NatToString(k)
  }

  /** Reads back a string of decimal digits. */
  function ParseNat(s: string): nat
    requires |s| > 0
    requires forall i :: 0 <= i < |s| ==> IsDigit(s[i])
  {
    if |s| == 1 then DigitValue(s[0])
    else ParseNat(s[..|s| - 1]) * 10 + DigitValue(s[|s| - 1])
  }

  /** Reads back an optionally negative decimal integer. */
  function ParseInt(s: string): int
    requires |s| > 0
    requires s[0] == '-' ==> |s| > 1 && forall i :: 1 <= i < |s| ==> IsDigit(s[i])
    requires s[0] != '-' ==> forall i :: 0 <= i < |s| ==> IsDigit(s[i])
  {
    if s[0] == '-' then -(ParseNat(s[1..]) as int) else ParseNat(s)
  }

  /** Reading back the digits of `n` gives `n`. */
  lemma {:induction false} NatRoundTrip(n: nat)
    ensures ParseNat(NatToString(n)) == n
    decreases n
  {
    if n >= 10 {
      var s := NatToString(n);
      assert s[..|s| - 1] == NatToString(n / 10);
      NatRoundTrip(n / 10);
    }
  }

  /** Reading back the rendering of `k` gives `k`. */
  lemma IntRoundTrip(k: int)
    ensures ParseInt(IntToString(k)) == k
  {
    if k < 0 {
      var s := IntToString(k);
      assert s[1..] == NatToString(-k);
      NatRoundTrip(-k);
    } else {
      NatRoundTrip(k);
    }
  }

  /** The result key of percentile rank `k`, e.g. "50th" for 50. */
  function Label(k: int): string
  {
    IntToString(k) + "th"
  }

  /** The key of rank `k` is a decimal rendering that reads back as `k`, followed by "th". */
  lemma LabelReadsBack(k: int)
    ensures var s := Label(k);
            && |s| >= 3
            && s[|s| - 2..] == "th"
            && var d := s[..|s| - 2];
               && (d[0] == '-' ==> |d| > 1 && forall i :: 1 <= i < |d| ==> IsDigit(d[i]))
               && (d[0] != '-' ==> forall i :: 0 <= i < |d| ==> IsDigit(d[i]))
               && ParseInt(d) == k
  {
    var s := Label(k);
    assert s[..|s| - 2] == IntToString(k);
    IntRoundTrip(k);
  }

  /** Distinct ranks get distinct keys, so no rank's entry overwrites another's. */
  lemma LabelInjective(a: int, b: int)
    ensures Label(a) == Label(b) ==> a == b
  {
    if Label(a) == Label(b) {
      var sa, sb := IntToString(a), IntToString(b);
      assert |sa| == |sb|;
      assert sa == Label(a)[..|sa|] == Label(b)[..|sb|] == sb;
      IntRoundTrip(a);
      IntRoundTrip(b);
    }
  }
}
