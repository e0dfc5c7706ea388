/** Python's `float()` on the numerals the score patterns capture,
    `\d+\.?\d*`: the digits before the first dot, plus the digits after it
    over the matching power of ten. The values are exact reals. */
module Numerals {
  import opened Wrappers
  import opened Text

  /** `float(w)` for a numeral `\d+\.?\d*`: integer digits, then the fraction
      after the first dot. */
  function NumeralValue(w: string): (v: real)
    ensures v >= 0.0
  {
    match IndexOf(w, '.')
    case None => DecimalValue(w) as real
    case Some(d) => DecimalValue(w[..d]) as real + DecimalValue(w[d + 1..]) as real / Pow10(|w| - d - 1) as real
  }

  /** Numerals without a fraction read back as the integer they spell. */
  lemma NumeralValueOfInteger(n: nat)
    ensures NumeralValue(DecimalString(n)) == n as real
  {
    assert IndexOf(DecimalString(n), '.').None?;
  }

  /** A numeral with a fraction, digits then a dot at `d` then digits,
      reads as the integer before the dot plus the digits after it over the
      matching power of ten. */
  lemma NumeralValueOfFraction(w: string, d: nat)
    requires 0 < d < |w| && w[d] == '.' && AllDigits(w[..d]) && AllDigits(w[d + 1..])
    ensures NumeralValue(w) == DecimalValue(w[..d]) as real + DecimalValue(w[d + 1..]) as real / Pow10(|w| - d - 1) as real
  {
    FirstDot(w, d);
    ValueAtFirstDot(w, d);
  }

  /** The value of a numeral whose first dot is at `d`. */
  lemma ValueAtFirstDot(w: string, d: nat)
    requires d < |w| && IndexOf(w, '.') == Some(d)
    ensures NumeralValue(w) == DecimalValue(w[..d]) as real + DecimalValue(w[d + 1..]) as real / Pow10(|w| - d - 1) as real
  {
  }

  /** A dot after a run of digits is the first dot. */
  lemma FirstDot(w: string, d: nat)
    requires d < |w| && w[d] == '.' && AllDigits(w[..d])
    ensures IndexOf(w, '.') == Some(d)
  {
    assert '.' !in w[..d] by {
      forall x | 0 <= x < d ensures w[..d][x] != '.' {
        assert IsDigit(w[..d][x]);
      }
    }
  }

  /** "8.5" reads as 8.5. */
  lemma EightAndAHalf()
    ensures NumeralValue("8.5") == 8.5
  {
    var w := "8.5";
    assert w[..1] == "8" && w[2..] == "5";
    NumeralValueOfFraction(w, 1);
    assert Pow10(1) == 10;
    assert DecimalValue("8") == 8 && DecimalValue("5") == 5;
  }
}
