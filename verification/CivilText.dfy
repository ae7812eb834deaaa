/** How the text of a date looks in any year (src/application/mod.rs). */
module CivilText {
  import opened Decimals
  import opened CivilDate

  lemma {:induction false} NoLeadingZero(n: nat)
    requires n > 0
    ensures Decimal(n)[0] != '0'
  {
    if n >= 10 { NoLeadingZero(n / 10); } else { DigitValues(n); }
  }

  lemma {:induction false} ZerosFill(digits: string, width: nat)
    ensures |Zeros(digits, width)| >= width
    ensures |digits| >= width ==> Zeros(digits, width) == digits
    ensures |digits| < width ==> |Zeros(digits, width)| == width
    decreases width - |digits|
  {
    if |digits| < width { ZerosFill("0" + digits, width); }
  }

  /** Decimal digits for the absolute value, behind a minus sign for a negative number; zeros fill it up to the
      width and there are no others. */
  lemma PaddedExactly(n: int, width: nat)
    requires width > 0
    ensures var text := Padded(n, width);
      && |text| >= width
      && (if n < 0 then text[0] == '-' && ParseDigits(text[1..]) == -n else ParseDigits(text) == n)
      && (|text| > width ==> var digits := if n < 0 then text[1..] else text; |digits| > 1 ==> digits[0] != '0')
  {
    var m, w := if n < 0 then -n else n, if n < 0 then width - 1 else width;
    ParseDecimal(m);
    ParseZeros(Decimal(m), w);
    ZerosFill(Decimal(m), w);
    if m > 0 { NoLeadingZero(m); }
    var zeros := Zeros(Decimal(m), w);
    assert n < 0 ==> ("-" + zeros)[1..] == zeros;
  }

  /** The epoch, and a year before the common era. */
  lemma RenderedExamples()
    ensures Render(FromDays(0)) == "1970-01-01"
    ensures Render(Date(-44, 3, 15)) == "-044-03-15"
  {
    Gregorian(0);
    RenderFixed(Date(1970, 1, 1));
    assert Fixed(Date(1970, 1, 1)) == "1970-01-01";
    DecimalTwo(3);
    DecimalTwo(15);
    assert Decimal(44) == "44";
    assert Zeros("44", 3) == Zeros("044", 3) == "044";
  }
}
