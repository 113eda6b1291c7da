/**
 Gain-map metadata on the numbers it is written from (src/gainmap.rs): every field is narrowed to an f32
 before a fraction is chosen for it. For such numbers no sign is lost, none in range is refused, and
 what is parsed back is the number or misses it by less than one over the cap on denominators.
 */
module GainMapSingles {
  import opened Words
  import opened Arithmetic
  import opened GainMap
  import opened GainMapLaws
  import opened FractionAnswers
  import CF = ContinuedFraction

  function Magnitude(value: real): (r: real)
    ensures r >= 0.0
  {
    if value < 0.0 then -value else value
  }

  /** Unsigned fields: near in range, 0/1 beyond it. */
  lemma UnsignedOfF32(value: real)
    requires IsF32(value) && value >= 0.0
    ensures var f := UnsignedFraction(value);
            if value <= U32_MAX as real then Near(value, U32_MAX, f.numerator, f.denominator) else f == Fraction(0, 1)
  {
    hide CF.Approximate, Near, IsF32;
    F32Approximation(value, U32_MAX);
  }

  /** Negative numbers are clamped: an unsigned field writes them as zero. */
  lemma NegativeIsZero(value: real)
    requires value <= 0.0
    ensures UnsignedFraction(value) == Fraction(0, 1)
  {
  }

  /** Signed fields: near in range with the sign kept and no wrap to i32, 0/1 beyond it. */
  lemma SignedOfF32(value: real)
    requires IsF32(Magnitude(value))
    ensures var f, v := SignedFraction(value), Magnitude(value);
            if v <= I32_MAX as real then
              && (value >= 0.0 ==> f.numerator >= 0) && (value < 0.0 ==> f.numerator <= 0)
              && Near(v, I32_MAX, if value < 0.0 then -f.numerator else f.numerator, f.denominator)
            else f == Fraction(0, 1)
  {
    hide CF.Approximate, Near, IsF32;
    F32Approximation(Magnitude(value), I32_MAX);
  }

  /** Numbers that are no f32 can lose their sign: a positive number is written as a negative fraction. */
  lemma SignFlips()
    ensures OVERRUN > 0.0 && SignedFraction(OVERRUN) == Fraction(-1_378_284_973, 2_955_770_492)
  {
    hide CF.Approximate;
    OverrunExample();
  }

  // ----- what is parsed back -----

  /** w is v, or misses it by less than one over the cap on denominators for v. */
  ghost predicate Within(v: real, w: real, maxNumerator: U32) {
    v == w || -1.0 < CF.Times(v - w, CF.MaxDenominator(Magnitude(v), maxNumerator) as real) < 1.0
  }

  lemma QuotientError(v: real, n: int, d: int, cap: int)
    requires d >= 1 && -1.0 < CF.Times(CF.Scale(d, v) - n as real, cap as real) < 1.0
    ensures -1.0 < CF.Times(v - n as real / d as real, cap as real) < 1.0
  {
    var x, dr := v - n as real / d as real, d as real;
    assert (n as real / dr) * dr == n as real;
    assert x * dr == dr * v - n as real;
    assert (x * cap as real) * dr == (x * dr) * cap as real;
    CompareScaled(x * cap as real, 1.0, dr);
    CompareScaled(-1.0, x * cap as real, dr);
  }

  lemma ExactQuotient(v: real, n: int, d: int)
    requires d >= 1 && CF.Scale(d, v) == n as real
    ensures v == n as real / d as real
  {
    RealQuotient(v, n as real, d as real);
  }

  lemma NearIsWithin(v: real, maxNumerator: U32, n: int, d: U32)
    requires v >= 0.0 && d >= 1 && Near(v, maxNumerator, n, d)
    ensures Within(v, Fraction(n, d).Value(), maxNumerator)
  {
    hide CF.Times, CF.Scale, CF.MaxDenominator;
    if CF.Scale(d, v) == n as real {
      ExactQuotient(v, n, d);
    } else {
      QuotientError(v, n, d, CF.MaxDenominator(v, maxNumerator));
    }
  }

  lemma UnsignedWithin(value: real)
    requires IsF32(value) && 0.0 <= value <= U32_MAX as real
    ensures Within(value, UnsignedFraction(value).Value(), U32_MAX)
  {
    hide Near, IsF32, Within, Fraction.Value;
    UnsignedOfF32(value);
    var f := UnsignedFraction(value);
    NearIsWithin(value, U32_MAX, f.numerator, f.denominator);
  }

  lemma SignedWithin(value: real)
    requires IsF32(Magnitude(value)) && Magnitude(value) <= I32_MAX as real
    ensures Within(value, SignedFraction(value).Value(), I32_MAX)
  {
    hide Near, IsF32, Within, Fraction.Value;
    SignedOfF32(value);
    var f := SignedFraction(value);
    if value < 0.0 {
      NearIsWithin(-value, I32_MAX, -f.numerator, f.denominator);
      MirrorWithin(-value, -f.numerator, f.denominator);
    } else {
      NearIsWithin(value, I32_MAX, f.numerator, f.denominator);
    }
  }

  lemma MirrorWithin(v: real, n: int, d: U32)
    requires v >= 0.0 && d >= 1 && Within(v, Fraction(n, d).Value(), I32_MAX)
    ensures Within(-v, Fraction(-n, d).Value(), I32_MAX)
  {
    hide CF.MaxDenominator;
    NegatedQuotient(n, d);
    var x := v - n as real / d as real;
    MirrorTimes(x, CF.MaxDenominator(v, I32_MAX) as real);
  }

  lemma MirrorTimes(x: real, y: real)
    ensures CF.Times(-x, y) == -CF.Times(x, y)
  {
  }

  /** What an f32 field may be, unsigned or signed. */
  ghost predicate UnsignedField(value: real) {
    IsF32(value) && 0.0 <= value <= U32_MAX as real
  }

  ghost predicate SignedField(value: real) {
    IsF32(Magnitude(value)) && Magnitude(value) <= I32_MAX as real
  }

  ghost predicate SingleChannelFields(c: Channel) {
    && SignedField(c.min) && SignedField(c.max) && UnsignedField(c.gamma)
    && SignedField(c.baseOffset) && SignedField(c.alternateOffset)
  }

  ghost predicate ChannelWithin(c: Channel, r: Channel) {
    && Within(c.min, r.min, I32_MAX) && Within(c.max, r.max, I32_MAX) && Within(c.gamma, r.gamma, U32_MAX)
    && Within(c.baseOffset, r.baseOffset, I32_MAX) && Within(c.alternateOffset, r.alternateOffset, I32_MAX)
  }

  lemma ChannelIsWithin(c: Channel)
    requires SingleChannelFields(c)
    ensures ChannelWithin(c, QuantizedChannel(c))
  {
    hide IsF32, Within, Fraction.Value, SignedFraction, UnsignedFraction;
    SignedWithin(c.min);
    SignedWithin(c.max);
    UnsignedWithin(c.gamma);
    SignedWithin(c.baseOffset);
    SignedWithin(c.alternateOffset);
  }

  /** Metadata of f32 numbers in range comes back in every framing with every number exact or near. */
  lemma F32ParamsRoundTrip(p: Params, format: Format, trailing: seq<Byte>)
    requires p.Valid() && UnsignedField(p.baseHdrHeadroom) && UnsignedField(p.alternateHdrHeadroom)
    requires forall k :: 0 <= k < 3 ==> SingleChannelFields(p.channels[k])
    ensures Parse(Serialize(p, format) + trailing, format).Ok?
    ensures var q := Parse(Serialize(p, format) + trailing, format).value;
            && q.Valid() && (forall k :: 0 <= k < 3 ==> ChannelWithin(p.channels[k], q.channels[k]))
            && Within(p.baseHdrHeadroom, q.baseHdrHeadroom, U32_MAX)
            && Within(p.alternateHdrHeadroom, q.alternateHdrHeadroom, U32_MAX)
            && q.useBaseColorSpace == p.useBaseColorSpace && q.backwardDirection == p.backwardDirection
  {
    hide Parse, Serialize, IsF32, Within, ChannelWithin, SingleChannelFields, QuantizedChannel, UnsignedFraction,
      Fraction.Value;
    ParseInvertsSerialize(p, format, trailing);
    UnsignedWithin(p.baseHdrHeadroom);
    UnsignedWithin(p.alternateHdrHeadroom);
    ChannelIsWithin(p.channels[0]);
    ChannelIsWithin(p.channels[1]);
    ChannelIsWithin(p.channels[2]);
  }
}
