/**
 * Default identity labels of the panel slots: slot i is labelled "P" followed
 * by the decimal digits of i + 1.
 */
module Labels {

  function DigitChar(d: nat): (c: char)
    requires d < 10
    ensures '0' <= c <= '9'
  {
    ('0' as int + d) as char
  }

  predicate IsDigit(c: char) {
    '0' <= c <= '9'
  }

  /** The decimal representation of n, without leading zeros. */
  function Decimal(n: nat): (s: string)
    ensures |s| > 0
    ensures forall i :: 0 <= i < |s| ==> IsDigit(s[i])
  {
    if n < 10 then [DigitChar(n)] else Decimal(n / 10) + [DigitChar(n % 10)]
  }

  /** The value of a string of decimal digits. */
  function DecimalValue(s: string): nat
    requires forall i :: 0 <= i < |s| ==> IsDigit(s[i])
  {
    if s == [] then 0
    else
      assert IsDigit(s[|s| - 1]);
      DecimalValue(s[..|s| - 1]) * 10 + (s[|s| - 1] as int - '0' as int)
  }

  lemma {:induction false} DecimalRoundTrip(n: nat)
    ensures DecimalValue(Decimal(n)) == n
  {
    if n >= 10 {
      DecimalRoundTrip(n / 10);
      var s := Decimal(n);
      assert s[..|s| - 1] == Decimal(n / 10);
    }
  }

  /** The label a slot receives when the grid is locked. */
  function PanelLabel(i: nat): string {
    "P" + Decimal(i + 1)
  }

  /** Distinct slots receive distinct labels. */
  lemma PanelLabelInjective(i: nat, j: nat)
    requires PanelLabel(i) == PanelLabel(j)
    ensures i == j
  {
    assert Decimal(i + 1) == PanelLabel(i)[1..];
    assert Decimal(j + 1) == PanelLabel(j)[1..];
    DecimalRoundTrip(i + 1);
    DecimalRoundTrip(j + 1);
  }
}
