// The binary formats of IEEE 754-2019, section 3.4, and their variants without infinities; and the raw bits of
// the double that holds the largest value of a small format.
module FloatFormats {
  import opened Bits
  import opened Wrappers
  import opened ScalarTypes

  /** Two to the k-th power. */
  function Power(k: int): real {
    if k >= 0 then Pow2(k) as real else 1.0 / Pow2(-k) as real
  }

  function Fraction(M: nat, m: nat): real {
    M as real / Pow2(m) as real
  }

  function Scaled(power: real, significand: real): real {
    power * significand
  }

  /** An exponent width and a mantissa width. */
  datatype Format = Format(e: nat, m: nat) {
    function Bias(): int
      requires e > 0
    {
      Pow2(e - 1) - 1
    }

    /** The exponent of the numbers with biased exponent E; zero marks the subnormal numbers. */
    function Exponent(E: nat): int
      requires e > 0
    {
      if E == 0 then 1 - Bias() else E - Bias()
    }

    /** The number with biased exponent E and trailing significand field M. */
    function Value(E: nat, M: nat): real
      requires e > 0
    {
      Scaled(Power(Exponent(E)), Fraction(M, m) + if E == 0 then 0.0 else 1.0)
    }
  }

  const DOUBLE := Format(11, 52)

  lemma PowerStep(k: int)
    ensures Power(k) > 0.0 && Power(k + 1) == 2.0 * Power(k)
  {
    if k < 0 {
      assert Pow2(-k) == 2 * Pow2(-k - 1);
    }
  }

  lemma {:induction false} PowerMonotone(j: int, k: int)
    requires j <= k
    ensures 0.0 < Power(j) <= Power(k)
    decreases k - j
  {
    PowerStep(j);
    if j < k {
      PowerMonotone(j + 1, k);
    }
  }

  lemma FractionBound(M: nat, m: nat)
    requires M < Pow2(m)
    ensures 0.0 <= Fraction(M, m) < 1.0
  {
    Divide(M as real, 1.0, Pow2(m) as real);
  }

  lemma Divide(x: real, y: real, d: real)
    requires d > 0.0 && 0.0 <= x
    ensures 0.0 <= x / d && (x < y * d <==> x / d < y) && (x <= y * d <==> x / d <= y)
  {
    var q := x / d;
    assert q * d == x;
    NonNegative(y - q, d);
    NonNegative(q - y, d);
    NonNegative(-q, d);
    assert (y - q) * d == y * d - x && (q - y) * d == x - y * d && (-q) * d == -x;
  }

  lemma NonNegative(a: real, d: real)
    requires d > 0.0
    ensures (a >= 0.0 ==> a * d >= 0.0) && (a > 0.0 ==> a * d > 0.0)
  {
  }

  lemma FractionMonotone(M: nat, M': nat, m: nat)
    requires M <= M'
    ensures Fraction(M, m) <= Fraction(M', m)
  {
    var d := Pow2(m) as real;
    var y := M' as real / d;
    assert y * d == M' as real;
    Divide(M as real, y, d);
  }

  lemma ScaledMonotone(p: real, x: real, y: real)
    requires p > 0.0 && x <= y
    ensures Scaled(p, x) <= Scaled(p, y) && (x < y ==> Scaled(p, x) < Scaled(p, y))
    ensures Scaled(p, 1.0) == p && Scaled(p, 2.0) == 2.0 * p
  {
    if x < y {
      assert p * (y - x) > 0.0;
    }
  }

  /** The powers of two between which a number lies. */
  lemma Binade(f: Format, E: nat, M: nat)
    requires f.e > 0 && M < Pow2(f.m)
    ensures E == 0 ==> f.Value(E, M) < Power(f.Exponent(E))
    ensures E > 0 ==> Power(f.Exponent(E)) <= f.Value(E, M) < Power(f.Exponent(E) + 1)
  {
    hide Power, Fraction, Scaled;
    FractionBound(M, f.m);
    var x, p := Fraction(M, f.m), Power(f.Exponent(E));
    PowerStep(f.Exponent(E));
    ScaledMonotone(p, x, 1.0);
    ScaledMonotone(p, 1.0, x + 1.0);
    ScaledMonotone(p, x + 1.0, 2.0);
  }

  /** Encodings are ordered as the numbers they stand for. */
  lemma ValueMonotone(f: Format, E: nat, M: nat, E': nat, M': nat)
    requires f.e > 0 && M < Pow2(f.m) && M' < Pow2(f.m)
    requires E < E' || (E == E' && M <= M')
    ensures f.Value(E, M) <= f.Value(E', M')
  {
    hide Power, Fraction, Scaled;
    if E < E' {
      Binade(f, E, M);
      Binade(f, E', M');
      PowerMonotone(if E == 0 then f.Exponent(E) else f.Exponent(E) + 1, f.Exponent(E'));
    } else {
      var hidden := if E == 0 then 0.0 else 1.0;
      FractionMonotone(M, M', f.m);
      PowerStep(f.Exponent(E));
      ScaledMonotone(Power(f.Exponent(E)), Fraction(M, f.m) + hidden, Fraction(M', f.m) + hidden);
    }
  }

  // ---------- words ----------

  const TWO_52: nat := 0x10_0000_0000_0000
  const TWO_63: nat := 0x8000_0000_0000_0000

  lemma PowersOfTwo()
    ensures Pow2(52) == TWO_52 && Pow2(63) == TWO_63
  {
    hide Pow2;
    Widths();
    Pow2Add(50, 1);
    Pow2Add(51, 1);
    Pow2Add(52, 8);
    Pow2Add(60, 1);
    Pow2Add(61, 1);
    Pow2Add(62, 1);
  }

  /** The fields of a double's word: sign, biased exponent, trailing significand. */
  function Word(sign: nat, E: nat, M: nat): nat {
    sign * TWO_63 + E * TWO_52 + M
  }

  /** What packing an integer as a 64-bit word and reading it as a double gives. */
  datatype Double = PackError | NotFinite | Finite(value: real)

  function Unpacked(raw: int): Double {
    if raw < 0 || raw >= 2 * TWO_63 then PackError
    else
      var sign, E, M := raw / TWO_63, raw / TWO_52 % 0x800, raw % TWO_52;
      if E == 0x7ff then NotFinite
      else if sign == 0 then Finite(DOUBLE.Value(E, M)) else Finite(-DOUBLE.Value(E, M))
  }

  lemma UnpackedWord(sign: nat, E: nat, M: nat)
    requires sign < 2 && E < 0x7ff && M < TWO_52
    ensures Unpacked(Word(sign, E, M)) == Finite(if sign == 0 then DOUBLE.Value(E, M) else -DOUBLE.Value(E, M))
  {
    hide Pow2;
    var raw := Word(sign, E, M);
    assert raw / TWO_52 == sign * 0x800 + E;
  }

  // ---------- the largest value of a format ----------

  /** None stands for a failed assertion or for the ValueError of a negative shift. */
  function FloatingPointMaxInt(t: ScalarType): Option<int> {
    var (e, m) := (t.exponent, t.mantissa);
    if m > 52 || e > 11 || m < 0 || e < 1 then None
    else
      var maxMantissa := Pow2(m) - 1;
      var maxMantissa := if t.nanRepr == EXTD_RANGE_MAX_MIN then maxMantissa - 1 else maxMantissa;
      var maxExponent := Pow2(e) - 2;
      var wide := t.nanRepr == EXTD_RANGE_MAX_MIN || t.nanRepr == NONE;
      if wide && e >= 11 then None
      else
        var maxExponent := if wide then maxExponent + 1 else maxExponent;
        var exponentBias := Pow2(e - 1) - 1;
        var exponentBiasDouble := 0x3ff;
        var maxExponentDouble: nat := maxExponent - exponentBias + exponentBiasDouble;
        Some(Or(maxMantissa * Pow2(52 - m), maxExponentDouble * TWO_52))
  }

  /** The format's parameters are within the asserted limits, and say how its finite values are encoded. */
  predicate Supported(t: ScalarType) {
    && 1 <= t.exponent <= 11 && 0 <= t.mantissa <= 52
    && if t.nanRepr == IEEE_754 then !t.finiteValuesOnly else t.finiteValuesOnly && t.exponent < 11
  }

  function FormatOf(t: ScalarType): Format
    requires Supported(t)
  {
    Format(t.exponent, t.mantissa)
  }

  predicate FiniteEncoding(t: ScalarType, E: nat, M: nat)
    requires Supported(t)
  {
    && E < Pow2(t.exponent) && M < Pow2(t.mantissa)
    && match t.nanRepr
       case IEEE_754 => E < Pow2(t.exponent) - 1
       case EXTD_RANGE_MAX_MIN => E < Pow2(t.exponent) - 1 || M < Pow2(t.mantissa) - 1
       case NONE => true
  }

  /** The largest among the values of all finite encodings. */
  ghost predicate IsLargest(t: ScalarType, v: real)
    requires Supported(t)
  {
    && (exists E: nat, M: nat :: FiniteEncoding(t, E, M) && FormatOf(t).Value(E, M) == v)
    && forall E: nat, M: nat | FiniteEncoding(t, E, M) :: FormatOf(t).Value(E, M) <= v
  }

  /** The last finite encoding. */
  function TopE(t: ScalarType): nat
    requires Supported(t)
  {
    if t.nanRepr == IEEE_754 then Pow2(t.exponent) - 2 else Pow2(t.exponent) - 1
  }

  function TopM(t: ScalarType): int
    requires Supported(t)
  {
    if t.nanRepr == EXTD_RANGE_MAX_MIN then Pow2(t.mantissa) - 2 else Pow2(t.mantissa) - 1
  }

  lemma TopIsLargest(t: ScalarType)
    requires Supported(t) && TopM(t) >= 0
    ensures IsLargest(t, FormatOf(t).Value(TopE(t), TopM(t)))
  {
    var f := FormatOf(t);
    assert FiniteEncoding(t, TopE(t), TopM(t));
    forall E: nat, M: nat | FiniteEncoding(t, E, M) ensures f.Value(E, M) <= f.Value(TopE(t), TopM(t)) {
      ValueMonotone(f, E, M, TopE(t), TopM(t));
    }
  }

  /** The double's biased exponent for the format's top exponent. */
  function DoubleE(t: ScalarType): nat
    requires Supported(t)
  {
    TopE(t) - (Pow2(t.exponent - 1) - 1) + 0x3ff
  }

  lemma DoubleERange(t: ScalarType)
    requires Supported(t)
    ensures 1 <= DoubleE(t) < 0x7ff
    ensures DOUBLE.Exponent(DoubleE(t)) == TopE(t) - FormatOf(t).Bias()
  {
    assert Pow2(t.exponent) == 2 * Pow2(t.exponent - 1);
    assert Pow2(10) == 0x400 && Pow2(9) == 0x200;
    hide Pow2;
    Pow2Monotone(t.exponent - 1, if t.nanRepr == IEEE_754 then 10 else 9);
  }

  /** A significand of m bits, shifted to the top of n bits, below an exponent. */
  lemma Aligned(M: nat, m: nat, E: nat, n: nat)
    requires M < Pow2(m) && m <= n
    ensures Or(M * Pow2(n - m), E * Pow2(n)) == E * Pow2(n) + M * Pow2(n - m)
    ensures 0 <= M * Pow2(n - m) < Pow2(n)
  {
    Pow2Add(m, n - m);
    DigitAbove(0, Pow2(n - m), M, Pow2(m));
    OrDisjoint(M * Pow2(n - m), E, n);
  }

  lemma DoubleMFits(t: ScalarType)
    requires Supported(t) && TopM(t) >= 0
    ensures 0 <= TopM(t) * Pow2(52 - t.mantissa) < TWO_52
  {
    hide Pow2, TopM;
    TopMBound(t);
    var M: nat := TopM(t);
    PowersOfTwo();
    Aligned(M, t.mantissa, 0, 52);
    hide Or;
  }

  lemma TopMBound(t: ScalarType)
    requires Supported(t)
    ensures TopM(t) < Pow2(t.mantissa)
  {
  }

  /** The format's largest significand, as wide as a double's. */
  function DoubleM(t: ScalarType): (M: nat)
    requires Supported(t) && TopM(t) >= 0
    ensures M < TWO_52
  {
    DoubleMFits(t);
    TopM(t) * Pow2(52 - t.mantissa)
  }

  lemma MaxIntIsWord(t: ScalarType)
    requires Supported(t) && TopM(t) >= 0
    ensures FloatingPointMaxInt(t) == Some(Word(0, DoubleE(t), DoubleM(t)))
  {
    hide Pow2, Or;
    PowersOfTwo();
    Aligned(TopM(t), t.mantissa, DoubleE(t), 52);
  }

  /** Widening the significand by zeros does not change a fraction. */
  lemma WidenedFraction(M: nat, m: nat, n: nat)
    requires m <= n
    ensures Fraction(M * Pow2(n - m), n) == Fraction(M, m)
  {
    Pow2Add(m, n - m);
    hide Pow2;
    WidenedQuotient(M, Pow2(m), Pow2(n - m));
  }

  lemma WidenedQuotient(M: nat, d: nat, k: nat)
    requires d > 0 && k > 0
    ensures d * k > 0 && (M * k) as real / (d * k) as real == M as real / d as real
  {
    AtLeast(d, k);
    ProductAsReal(M, k);
    ProductAsReal(d, k);
    Cancel(M as real, d as real, k as real);
  }

  lemma {:induction false} ProductAsReal(x: nat, y: nat)
    ensures (x * y) as real == x as real * y as real
  {
    if y > 0 {
      ProductAsReal(x, y - 1);
      assert x * y == x * (y - 1) + x;
      assert x as real * y as real == x as real * (y - 1) as real + x as real;
    }
  }

  lemma Cancel(x: real, d: real, k: real)
    requires d > 0.0 && k > 0.0
    ensures d * k > 0.0 && (x * k) / (d * k) == x / d
  {
    var q := x / d;
    assert q * (d * k) == (q * d) * k == x * k;
  }

  /** The number that the double holds: one more than the top fraction, scaled by the top exponent. */
  function MaxDouble(t: ScalarType): real
    requires Supported(t) && TopM(t) >= 0
  {
    Scaled(Power(TopE(t) - FormatOf(t).Bias()), Fraction(TopM(t), t.mantissa) + 1.0)
  }

  lemma DoubleValue(t: ScalarType)
    requires Supported(t) && TopM(t) >= 0
    ensures DOUBLE.Value(DoubleE(t), DoubleM(t)) == MaxDouble(t)
  {
    DoubleERange(t);
    WidenedFraction(TopM(t), t.mantissa, 52);
    hide Power, Scaled, Fraction, Pow2, DoubleE, TopM, TopE;
  }

  lemma MaxIntHoldsMax(t: ScalarType)
    requires Supported(t) && TopM(t) >= 0
    ensures FloatingPointMaxInt(t).Some? && Unpacked(FloatingPointMaxInt(t).value) == Finite(MaxDouble(t))
  {
    hide Pow2, FloatingPointMaxInt, Unpacked, Word, MaxDouble, DoubleE, DoubleM, TopM;
    MaxIntIsWord(t);
    DoubleERange(t);
    DoubleValue(t);
    UnpackedWord(0, DoubleE(t), DoubleM(t));
  }

  /** With one exponent bit an IEEE format has only subnormal numbers, and none of them is the double. */
  lemma OneExponentBit(t: ScalarType, E: nat, M: nat)
    requires Supported(t) && t.nanRepr == IEEE_754 && t.exponent == 1 && FiniteEncoding(t, E, M)
    ensures FormatOf(t).Value(E, M) != MaxDouble(t)
  {
    var d := Pow2(t.mantissa);
    assert Pow2(1) == 2 && Pow2(0) == 1;
    assert E == 0 && TopE(t) == 0 && FormatOf(t).Bias() == 0 && TopM(t) == d - 1;
    assert Power(1) == 2.0 && Power(0) == 1.0;
    hide Pow2, Power;
    Parity(M, d);
  }

  lemma Parity(M: nat, d: nat)
    requires d > 0
    ensures 2.0 * (M as real / d as real) != (d - 1) as real / d as real + 1.0
  {
    var x, y := M as real / d as real, (d - 1) as real / d as real;
    assert x * d as real == M as real && y * d as real == (d - 1) as real;
    assert (2.0 * x) * d as real == (2 * M) as real;
    assert (y + 1.0) * d as real == (2 * d - 1) as real;
    assert (2 * M) as real != (2 * d - 1) as real;
  }

  /**
   The double made from the raw bits is the largest finite value of the format, except for IEEE formats with
   one exponent bit, and for formats whose only mantissa pattern with the top exponent is a NaN.
   */
  lemma FloatingPointMaxExact(t: ScalarType)
    requires Supported(t)
    ensures var r := FloatingPointMaxInt(t);
            && r.Some?
            && ((Unpacked(r.value).Finite? && IsLargest(t, Unpacked(r.value).value))
                <==> !(t.nanRepr == IEEE_754 && t.exponent == 1)
                     && !(t.nanRepr == EXTD_RANGE_MAX_MIN && t.mantissa == 0))
  {
    if t.nanRepr == EXTD_RANGE_MAX_MIN && t.mantissa == 0 {
      NegativeWord(t);
    } else {
      TopMIsNatural(t);
      MaxIntHoldsMax(t);
      if t.nanRepr == IEEE_754 && t.exponent == 1 {
        forall E: nat, M: nat | FiniteEncoding(t, E, M)
          ensures FormatOf(t).Value(E, M) != MaxDouble(t)
        {
          OneExponentBit(t, E, M);
        }
      } else {
        TopIsLargest(t);
        TopIsNormal(t);
      }
    }
  }

  /** The smallest formats for which the word is wrong: one exponent bit, and no mantissa bits below NaNs. */
  lemma WrongWords()
    ensures var t := ScalarType(1, 1, true, 0, false, IEEE_754);
            Supported(t) && FloatingPointMaxInt(t).Some?
            && !(Unpacked(FloatingPointMaxInt(t).value).Finite? && IsLargest(t, Unpacked(FloatingPointMaxInt(t).value).value))
    ensures var t := ScalarType(4, 0, true, 0, true, EXTD_RANGE_MAX_MIN);
            Supported(t) && FloatingPointMaxInt(t).Some? && Unpacked(FloatingPointMaxInt(t).value) == PackError
  {
    hide FloatingPointMaxInt, Unpacked, IsLargest;
    FloatingPointMaxExact(ScalarType(1, 1, true, 0, false, IEEE_754));
    NegativeWord(ScalarType(4, 0, true, 0, true, EXTD_RANGE_MAX_MIN));
  }

  lemma TopMIsNatural(t: ScalarType)
    requires Supported(t) && !(t.nanRepr == EXTD_RANGE_MAX_MIN && t.mantissa == 0)
    ensures TopM(t) >= 0
  {
    if t.mantissa > 0 {
      Pow2Monotone(1, t.mantissa);
    }
  }

  lemma TopIsNormal(t: ScalarType)
    requires Supported(t) && !(t.nanRepr == IEEE_754 && t.exponent == 1) && TopM(t) >= 0
    ensures TopE(t) > 0
    ensures FormatOf(t).Value(TopE(t), TopM(t)) == MaxDouble(t)
  {
    Pow2Monotone(if t.nanRepr == IEEE_754 then 2 else 1, t.exponent);
    assert Pow2(2) == 4 && Pow2(1) == 2;
    hide Power, Scaled, Fraction;
  }

  lemma NegativeWord(t: ScalarType)
    requires Supported(t) && t.nanRepr == EXTD_RANGE_MAX_MIN && t.mantissa == 0
    ensures FloatingPointMaxInt(t).Some? && Unpacked(FloatingPointMaxInt(t).value) == PackError
  {
    hide Or;
    OrNegative(-1 * Pow2(52), DoubleE(t) * TWO_52);
  }

  /** Setting the sign bit negates the double, so the raw minimum mirrors the raw maximum. */
  lemma RawMinIsNegated(t: ScalarType)
    requires Supported(t) && TopM(t) >= 0
    ensures var max := FloatingPointMaxInt(t);
            && max.Some? && Unpacked(max.value).Finite?
            && Unpacked(Or(max.value, TWO_63)) == Finite(-Unpacked(max.value).value)
  {
    hide Pow2, FloatingPointMaxInt, Unpacked, Word, Or, DoubleE, DoubleM, TopM;
    MaxIntIsWord(t);
    DoubleERange(t);
    UnpackedWord(0, DoubleE(t), DoubleM(t));
    UnpackedWord(1, DoubleE(t), DoubleM(t));
    SignBit(DoubleE(t), DoubleM(t));
  }

  lemma SignBit(E: nat, M: nat)
    requires E < 0x800 && M < TWO_52
    ensures Or(Word(0, E, M), TWO_63) == Word(1, E, M)
  {
    hide Pow2, Or;
    PowersOfTwo();
    OrDisjoint(Word(0, E, M), 1, 63);
  }
}
