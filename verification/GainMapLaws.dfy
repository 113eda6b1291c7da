/** Round trips of the gain-map wire format, in every framing and both payload encodings. */
module GainMapLaws {
  import opened Words
  import opened Bytes
  import opened GainMap
  import ContinuedFraction

  lemma ReadU32At(data: seq<Byte>, off: nat, v: U32)
    requires At(data, off, Enc32(v, Big))
    ensures ReadU32(data, off) == Ok((v, off + 4))
  {
    hide Enc32, Dec32;
    Dec32Enc32(v, Big);
  }

  lemma ReadNumeratorAt(data: seq<Byte>, off: nat, n: int, signed: bool)
    requires if signed then -0x8000_0000 <= n <= I32_MAX else 0 <= n <= U32_MAX
    requires At(data, off, EncNumerator(n))
    ensures ReadNumerator(data, off, signed) == Ok((n, off + 4))
  {
    hide Enc32, Dec32, ReadU32;
    ReadU32At(data, off, if n < 0 then n + 0x1_0000_0000 else n);
  }

  lemma ReadFractionAt(data: seq<Byte>, off: nat, f: Fraction, signed: bool, field: string)
    requires if signed then f.Signed() else f.Unsigned()
    requires At(data, off, EncFraction(f))
    ensures ReadFraction(data, off, signed, field) == Ok((f, off + 8))
  {
    hide ReadNumerator, ReadU32, EncNumerator, Enc32;
    AtSplit(data, off, EncNumerator(f.numerator), Enc32(f.denominator, Big));
    ReadNumeratorAt(data, off, f.numerator, signed);
    ReadU32At(data, off + 4, f.denominator);
  }

  lemma ReadChannelAt(data: seq<Byte>, off: nat, f: ChannelFractions)
    requires f.Valid() && At(data, off, EncChannel(f))
    ensures ReadChannel(data, off) == Ok((f.Value(), off + 40))
  {
    hide ReadFraction, EncFraction;
    var tail4 := EncFraction(f.base) + EncFraction(f.alt);
    var tail3 := EncFraction(f.gamma) + tail4;
    var tail2 := EncFraction(f.max) + tail3;
    AtSplit(data, off, EncFraction(f.min), tail2);
    AtSplit(data, off + 8, EncFraction(f.max), tail3);
    AtSplit(data, off + 16, EncFraction(f.gamma), tail4);
    AtSplit(data, off + 24, EncFraction(f.base), EncFraction(f.alt));
    ReadFractionAt(data, off, f.min, true, "gain_map_min");
    ReadFractionAt(data, off + 8, f.max, true, "gain_map_max");
    ReadFractionAt(data, off + 16, f.gamma, false, "gamma");
    ReadFractionAt(data, off + 24, f.base, true, "base_offset");
    ReadFractionAt(data, off + 32, f.alt, true, "alternate_offset");
  }

  function Values(fs: seq<ChannelFractions>): seq<Channel> {
    if fs == [] then [] else Values(fs[..|fs| - 1]) + [fs[|fs| - 1].Value()]
  }

  lemma {:induction false} ReadChannelsAt(data: seq<Byte>, off: nat, fs: seq<ChannelFractions>)
    requires forall k :: 0 <= k < |fs| ==> fs[k].Valid()
    requires At(data, off, EncChannels(fs))
    ensures ReadChannels(data, off, |fs|, None) == Ok((Values(fs), off + 40 * |fs|))
  {
    hide ReadChannel, EncChannel;
    if fs != [] {
      var init, last := fs[..|fs| - 1], fs[|fs| - 1];
      AtSplit(data, off, EncChannels(init), EncChannel(last));
      ReadChannelsAt(data, off, init);
      ReadChannelAt(data, off + 40 * |init|, last);
    }
  }

  lemma ParseFullAt(data: seq<Byte>, off: nat, base: Fraction, alt: Fraction, fs: seq<ChannelFractions>,
                    useBase: bool, backward: bool)
    requires base.Unsigned() && alt.Unsigned() && forall k :: 0 <= k < |fs| ==> fs[k].Valid()
    requires |fs| == 1 || |fs| == 3
    requires At(data, off, FullPayload(base, alt, fs))
    ensures |Values(fs)| == |fs|
    ensures ParseFull(data, off, |fs|, useBase, backward)
            == Ok((Params(Replicate(Values(fs)), base.Value(), alt.Value(), useBase, backward), off + 16 + 40 * |fs|))
  {
    hide ReadFraction, EncFraction, ReadChannels, EncChannels, Values;
    AtSplit(data, off, EncFraction(base), EncFraction(alt) + EncChannels(fs));
    AtSplit(data, off + 8, EncFraction(alt), EncChannels(fs));
    ReadFractionAt(data, off, base, false, "base_hdr_headroom");
    ReadFractionAt(data, off + 8, alt, false, "alternate_hdr_headroom");
    ReadChannelsAt(data, off + 16, fs);
  }

  // ----- the compact payload -----

  predicate SharesDenominator(f: ChannelFractions, d: U32) {
    f.min.denominator == d && f.max.denominator == d && f.gamma.denominator == d
    && f.base.denominator == d && f.alt.denominator == d
  }

  function EncCompactChannel(f: ChannelFractions): (b: seq<Byte>)
    requires f.Valid()
    ensures |b| == 20
  {
    EncNumerator(f.min.numerator) + (EncNumerator(f.max.numerator) + (EncNumerator(f.gamma.numerator)
      + (EncNumerator(f.base.numerator) + EncNumerator(f.alt.numerator))))
  }

  function EncCompactChannels(fs: seq<ChannelFractions>): (b: seq<Byte>)
    requires forall k :: 0 <= k < |fs| ==> fs[k].Valid()
    ensures |b| == 20 * |fs|
  {
    if fs == [] then [] else EncCompactChannels(fs[..|fs| - 1]) + EncCompactChannel(fs[|fs| - 1])
  }

  /** The shared denominator once, then every numerator. */
  function CompactPayload(d: U32, base: Fraction, alt: Fraction, fs: seq<ChannelFractions>): seq<Byte>
    requires base.Unsigned() && alt.Unsigned() && forall k :: 0 <= k < |fs| ==> fs[k].Valid()
  {
    Enc32(d, Big) + (EncNumerator(base.numerator) + (EncNumerator(alt.numerator) + EncCompactChannels(fs)))
  }

  lemma ReadCompactChannelAt(data: seq<Byte>, off: nat, f: ChannelFractions, d: U32)
    requires f.Valid() && SharesDenominator(f, d) && At(data, off, EncCompactChannel(f))
    ensures ReadCompactChannel(data, off, d) == Ok((f.Value(), off + 20))
  {
    hide ReadNumerator, EncNumerator;
    var tail4 := EncNumerator(f.base.numerator) + EncNumerator(f.alt.numerator);
    var tail3 := EncNumerator(f.gamma.numerator) + tail4;
    var tail2 := EncNumerator(f.max.numerator) + tail3;
    AtSplit(data, off, EncNumerator(f.min.numerator), tail2);
    AtSplit(data, off + 4, EncNumerator(f.max.numerator), tail3);
    AtSplit(data, off + 8, EncNumerator(f.gamma.numerator), tail4);
    AtSplit(data, off + 12, EncNumerator(f.base.numerator), EncNumerator(f.alt.numerator));
    ReadNumeratorAt(data, off, f.min.numerator, true);
    ReadNumeratorAt(data, off + 4, f.max.numerator, true);
    ReadNumeratorAt(data, off + 8, f.gamma.numerator, false);
    ReadNumeratorAt(data, off + 12, f.base.numerator, true);
    ReadNumeratorAt(data, off + 16, f.alt.numerator, true);
  }

  lemma {:induction false} ReadCompactChannelsAt(data: seq<Byte>, off: nat, fs: seq<ChannelFractions>, d: U32)
    requires forall k :: 0 <= k < |fs| ==> fs[k].Valid() && SharesDenominator(fs[k], d)
    requires At(data, off, EncCompactChannels(fs))
    ensures ReadChannels(data, off, |fs|, Some(d)) == Ok((Values(fs), off + 20 * |fs|))
  {
    hide ReadCompactChannel, EncCompactChannel;
    if fs != [] {
      var init, last := fs[..|fs| - 1], fs[|fs| - 1];
      AtSplit(data, off, EncCompactChannels(init), EncCompactChannel(last));
      ReadCompactChannelsAt(data, off, init, d);
      ReadCompactChannelAt(data, off + 20 * |init|, last, d);
    }
  }

  lemma ParseCompactAt(data: seq<Byte>, off: nat, d: U32, base: Fraction, alt: Fraction, fs: seq<ChannelFractions>,
                       useBase: bool, backward: bool)
    requires base.Unsigned() && alt.Unsigned() && base.denominator == d && alt.denominator == d
    requires forall k :: 0 <= k < |fs| ==> fs[k].Valid() && SharesDenominator(fs[k], d)
    requires |fs| == 1 || |fs| == 3
    requires At(data, off, CompactPayload(d, base, alt, fs))
    ensures |Values(fs)| == |fs|
    ensures ParseCompact(data, off, |fs|, useBase, backward)
            == Ok((Params(Replicate(Values(fs)), base.Value(), alt.Value(), useBase, backward), off + 12 + 20 * |fs|))
  {
    hide ReadU32, Enc32, ReadChannels, EncCompactChannels, Values;
    var rest := EncNumerator(alt.numerator) + EncCompactChannels(fs);
    AtSplit(data, off, Enc32(d, Big), EncNumerator(base.numerator) + rest);
    AtSplit(data, off + 4, EncNumerator(base.numerator), rest);
    AtSplit(data, off + 8, EncNumerator(alt.numerator), EncCompactChannels(fs));
    ReadU32At(data, off, d);
    ReadU32At(data, off + 4, base.numerator);
    ReadU32At(data, off + 8, alt.numerator);
    ReadCompactChannelsAt(data, off + 12, fs, d);
  }

  // ----- headers and framings -----

  lemma FlagsDecode(multi: bool, base: bool, common: bool, backward: bool)
    ensures var flags := FlagByte(multi, base, common, backward);
            && Flag(flags, FLAG_MULTI_CHANNEL) == multi && Flag(flags, FLAG_USE_BASE_COLOUR_SPACE) == base
            && Flag(flags, FLAG_COMMON_DENOMINATOR) == common && Flag(flags, FLAG_BACKWARD_DIRECTION) == backward
  {
  }

  /** The five bytes that every framing ends in: minimum version zero, any writer version, the flags. */
  function Head(writer: U16, flags: Byte): (b: seq<Byte>)
    ensures |b| == 5
  {
    [0, 0] + (Enc16(writer, Big) + [flags])
  }

  lemma ReadHead(data: seq<Byte>, off: nat, writer: U16, flags: Byte)
    requires At(data, off, Head(writer, flags))
    ensures ReadU16(data, off) == Ok((0, off + 2)) && ReadU16(data, off + 2) == Ok((writer, off + 4))
    ensures ReadU8(data, off + 4) == Ok((flags, off + 5))
  {
    hide Enc16;
    AtSplit(data, off, [0, 0], Enc16(writer, Big) + [flags]);
    AtSplit(data, off + 2, Enc16(writer, Big), [flags]);
    Dec16Enc16(writer, Big);
    assert data[off + 4..off + 5][0] == data[off + 4];
    assert data[off..off + 2] == [0, 0];
  }

  lemma WriterZero(format: Format, flags: Byte)
    ensures Header(format, flags) == Framing(format) + Head(0, flags)
  {
  }

  /** The parts of a payload, and the params a parser must get out of it. */
  datatype Parts = Parts(base: Fraction, alt: Fraction, channels: seq<ChannelFractions>, useBase: bool, backward: bool) {
    predicate Valid() {
      && base.Unsigned() && alt.Unsigned() && (|channels| == 1 || |channels| == 3)
      && forall k :: 0 <= k < |channels| ==> channels[k].Valid()
    }

    predicate Shares(d: U32) {
      && base.denominator == d && alt.denominator == d
      && forall k :: 0 <= k < |channels| ==> SharesDenominator(channels[k], d)
    }

    function Flags(common: bool): Byte {
      FlagByte(|channels| == 3, useBase, common, backward)
    }

    function Meaning(): Params
      requires Valid()
    {
      ValuesLength(channels);
      Params(Replicate(Values(channels)), base.Value(), alt.Value(), useBase, backward)
    }
  }

  lemma {:induction false} ValuesLength(fs: seq<ChannelFractions>)
    ensures |Values(fs)| == |fs|
  {
    if fs != [] {
      ValuesLength(fs[..|fs| - 1]);
    }
  }

  function Body(p: Parts, common: Option<U32>): seq<Byte>
    requires p.Valid()
  {
    match common
    case None => FullPayload(p.base, p.alt, p.channels)
    case Some(d) => CompactPayload(d, p.base, p.alt, p.channels)
  }

  /** The four flags that the reader looks at describe the parts; the other bits are free. */
  ghost predicate Announces(flags: Byte, p: Parts, common: bool) {
    && Flag(flags, FLAG_MULTI_CHANNEL) == (|p.channels| == 3) && Flag(flags, FLAG_USE_BASE_COLOUR_SPACE) == p.useBase
    && Flag(flags, FLAG_COMMON_DENOMINATOR) == common && Flag(flags, FLAG_BACKWARD_DIRECTION) == p.backward
  }

  lemma FlagsAnnounce(p: Parts, common: bool)
    ensures Announces(p.Flags(common), p, common)
  {
    FlagsDecode(|p.channels| == 3, p.useBase, common, p.backward);
  }

  lemma ParseBodyAt(data: seq<Byte>, off: nat, p: Parts, common: Option<U32>, writer: U16, flags: Byte)
    requires p.Valid() && (common.Some? ==> p.Shares(common.value)) && Announces(flags, p, common.Some?)
    requires At(data, off, Head(writer, flags) + Body(p, common))
    ensures ParseBody(data, off).Ok? && ParseBody(data, off).value.0 == p.Meaning()
  {
    hide ReadU16, ReadU8, ParseFull, ParseCompact, FullPayload, CompactPayload, Values, Flag, Head;
    AtSplit(data, off, Head(writer, flags), Body(p, common));
    ReadHead(data, off, writer, flags);
    if common.None? {
      ParseFullAt(data, off + 5, p.base, p.alt, p.channels, p.useBase, p.backward);
    } else {
      ParseCompactAt(data, off + 5, common.value, p.base, p.alt, p.channels, p.useBase, p.backward);
    }
  }

  /** What follows the framing, read where the framing ends. */
  lemma ParseBare(p: Parts, common: Option<U32>, writer: U16, flags: Byte, trailing: seq<Byte>)
    requires p.Valid() && (common.Some? ==> p.Shares(common.value)) && Announces(flags, p, common.Some?)
    ensures ParseNoVersion(Head(writer, flags) + Body(p, common) + trailing) == Ok(p.Meaning())
  {
    hide ParseBody, Body, Head, Announces, Parts.Meaning;
    AtPrefix(Head(writer, flags) + Body(p, common), trailing);
    ParseBodyAt(Head(writer, flags) + Body(p, common) + trailing, 0, p, common, writer, flags);
  }

  lemma ParseVersioned(p: Parts, common: Option<U32>, writer: U16, flags: Byte, trailing: seq<Byte>)
    requires p.Valid() && (common.Some? ==> p.Shares(common.value)) && Announces(flags, p, common.Some?)
    ensures ParseAvif([0] + (Head(writer, flags) + Body(p, common) + trailing)) == Ok(p.Meaning())
  {
    hide ParseBody, Body, Head, Announces, Parts.Meaning;
    var body := Head(writer, flags) + Body(p, common) + trailing;
    AtPrefix(Head(writer, flags) + Body(p, common), trailing);
    AtShift([0], body, 0, Head(writer, flags) + Body(p, common));
    ParseBodyAt([0] + body, 1, p, common, writer, flags);
  }

  lemma StripUrn(body: seq<Byte>)
    ensures Parse(URN + body, JpegApp2BodyWithUrn) == ParseNoVersion(body)
  {
    hide ParseNoVersion;
    assert (URN + body)[..|URN|] == URN && (URN + body)[|URN|..] == body;
  }

  /**
   Every framing and either encoding parses to what the fractions mean, whatever the writer version and
   the unused flag bits are; trailing bytes are ignored.
   */
  lemma ParsesToMeaning(p: Parts, common: Option<U32>, format: Format, writer: U16, flags: Byte, trailing: seq<Byte>)
    requires p.Valid() && (common.Some? ==> p.Shares(common.value)) && Announces(flags, p, common.Some?)
    ensures Parse(Framing(format) + (Head(writer, flags) + Body(p, common) + trailing), format) == Ok(p.Meaning())
  {
    hide ParseNoVersion, ParseAvif, Body, Head, Announces, Parts.Meaning;
    var body := Head(writer, flags) + Body(p, common) + trailing;
    ParseBare(p, common, writer, flags, trailing);
    match format {
      case AvifTmap =>
        ParseVersioned(p, common, writer, flags, trailing);
      case JpegApp2BodyWithUrn =>
        StripUrn(body);
      case _ =>
        assert Framing(format) + body == body;
    }
  }

  /** The header as the source writes it, in front of a payload. */
  lemma WrittenParses(p: Parts, common: Option<U32>, format: Format, trailing: seq<Byte>)
    requires p.Valid() && (common.Some? ==> p.Shares(common.value))
    ensures Parse(Header(format, p.Flags(common.Some?)) + Body(p, common) + trailing, format) == Ok(p.Meaning())
  {
    hide Parse, Body, Head, Announces, Parts.Meaning, Framing, Header;
    var flags := p.Flags(common.Some?);
    FlagsAnnounce(p, common.Some?);
    WriterZero(format, flags);
    ParsesToMeaning(p, common, format, 0, flags, trailing);
    FramingFirst(Framing(format), Head(0, flags), Body(p, common), trailing);
  }

  lemma FramingFirst(a: seq<Byte>, b: seq<Byte>, c: seq<Byte>, d: seq<Byte>)
    ensures a + b + c + d == a + (b + c + d)
  {
  }

  /** A common-denominator payload means the same as the full payload with that denominator repeated. */
  lemma CompactEqualsFull(p: Parts, d: U32, format: Format, trailing: seq<Byte>, trailing': seq<Byte>)
    requires p.Valid() && p.Shares(d)
    ensures Parse(Header(format, p.Flags(true)) + CompactPayload(d, p.base, p.alt, p.channels) + trailing, format)
            == Parse(Header(format, p.Flags(false)) + FullPayload(p.base, p.alt, p.channels) + trailing', format)
  {
    hide Parse, Header, CompactPayload, FullPayload, Parts.Meaning;
    WrittenParses(p, Some(d), format, trailing);
    WrittenParses(p, None, format, trailing');
  }

  // ----- serialize, then parse -----

  function QuantizedChannel(c: Channel): Channel {
    FractionsOf(c).Value()
  }

  /** The params with each number replaced by the value of its fraction. */
  function Quantized(p: Params): Params
    requires p.Valid()
  {
    Params([QuantizedChannel(p.channels[0]), QuantizedChannel(p.channels[1]), QuantizedChannel(p.channels[2])],
           UnsignedFraction(p.baseHdrHeadroom).Value(), UnsignedFraction(p.alternateHdrHeadroom).Value(),
           p.useBaseColorSpace, p.backwardDirection)
  }

  function PartsOf(p: Params): (r: Parts)
    requires p.Valid()
    ensures r.Valid()
  {
    Parts(UnsignedFraction(p.baseHdrHeadroom), UnsignedFraction(p.alternateHdrHeadroom), WrittenChannels(p),
          p.useBaseColorSpace, p.backwardDirection)
  }

  lemma PartsMeanQuantized(p: Params)
    requires p.Valid()
    ensures PartsOf(p).Meaning() == Quantized(p)
    ensures Serialize(p, JxlJhgm) == Header(JxlJhgm, PartsOf(p).Flags(false)) + Body(PartsOf(p), None)
    ensures PartsOf(p).Flags(false) == BuildFlags(p)
  {
    hide FractionsOf, UnsignedFraction;
    var fs := WrittenChannels(p);
    if p.IsSingleChannel() {
      ValuesOfOne(fs[0]);
    } else {
      ValuesOfThree(fs[0], fs[1], fs[2]);
    }
  }

  lemma ValuesOfOne(a: ChannelFractions)
    ensures Values([a]) == [a.Value()]
  {
    assert [a][..0] == [];
  }

  lemma ValuesOfThree(a: ChannelFractions, b: ChannelFractions, c: ChannelFractions)
    ensures Values([a, b, c]) == [a.Value(), b.Value(), c.Value()]
  {
    ValuesOfOne(a);
    assert [a, b, c][..2] == [a, b] && [a, b][..1] == [a];
  }

  /** Parsing inverts serializing in all four framings, whatever bytes follow. */
  lemma ParseInvertsSerialize(p: Params, format: Format, trailing: seq<Byte>)
    requires p.Valid()
    ensures Parse(Serialize(p, format) + trailing, format) == Ok(Quantized(p))
  {
    hide Parse, Quantized, Parts.Meaning, PartsOf;
    PartsMeanQuantized(p);
    PartsUnfold(p, format);
    WrittenParses(PartsOf(p), None, format, trailing);
  }

  lemma PartsUnfold(p: Params, format: Format)
    requires p.Valid()
    ensures Serialize(p, format) == Header(format, PartsOf(p).Flags(false)) + Body(PartsOf(p), None)
  {
  }

  lemma SizeIsExact(p: Params, format: Format)
    requires p.Valid()
    ensures |Serialize(p, format)| == SerializedSize(p, format)
  {
  }

  /** No strict prefix of serialized metadata parses. */
  lemma PrefixesAreRejected(p: Params, format: Format, k: nat)
    requires p.Valid() && k < SerializedSize(p, format)
    ensures |Serialize(p, format)| == SerializedSize(p, format)
    ensures Parse(Serialize(p, format)[..k], format).Err?
  {
    hide ParseBody, FullPayload, WrittenChannels, UnsignedFraction, BuildFlags;
    SizeIsExact(p, format);
    var full, cut := Serialize(p, format), Serialize(p, format)[..k];
    var off := |Framing(format)|;
    var flags := BuildFlags(p);
    assert full[off + 4] == flags by {
      assert full[off + 4] == Header(format, flags)[off + 4];
    }
    FlagsSize(p);
    match format {
      case AvifTmap =>
        ShortBody(cut, 1, flags, k);
      case JpegApp2BodyWithUrn =>
        if k >= |URN| {
          var body := cut[|URN|..];
          assert k >= |URN| + 5 ==> body[4] == cut[|URN| + 4];
          ShortBody(body, 0, flags, k - |URN|);
        }
      case _ =>
        ShortBody(cut, 0, flags, k);
    }
  }

  lemma ShortBody(data: seq<Byte>, off: nat, flags: Byte, k: nat)
    requires |data| == k && (k >= off + 5 ==> data[off + 4] == flags) && k < off + 5 + PayloadSize(flags)
    ensures ParseBody(data, off).Err?
  {
  }

  lemma FlagsSize(p: Params)
    requires p.Valid()
    ensures 5 + PayloadSize(BuildFlags(p)) == SerializedSize(p, JxlJhgm)
  {
    FlagsDecode(!p.IsSingleChannel(), p.useBaseColorSpace, false, p.backwardDirection);
  }

  // ----- numbers that survive unchanged -----

  /** A non-negative number that is a fraction with small terms for the given numerator range. */
  ghost predicate Small(v: real, maxNumerator: U32) {
    && ContinuedFraction.InRange(v, maxNumerator)
    && exists n: nat, d: nat :: ContinuedFraction.IsFraction(v, n, d) && n <= maxNumerator
                                && d <= ContinuedFraction.MaxDenominator(v, maxNumerator)
                                && d < ContinuedFraction.Fib(ContinuedFraction.MAX_ITER + 1)
  }

  lemma FractionValue(num: int, den: int, v: real)
    requires den >= 1 && ContinuedFraction.Scale(den, v) == num as real
    ensures num as real / den as real == v
  {
  }

  lemma SmallApproximation(v: real, maxNumerator: U32)
    requires Small(v, maxNumerator)
    ensures ContinuedFraction.Approximate(v, maxNumerator).Some?
    ensures var (num, den) := ContinuedFraction.Approximate(v, maxNumerator).value;
            1 <= den <= U32_MAX && 0 <= num <= maxNumerator && num as real / den as real == v
  {
    hide ContinuedFraction.Approximate, ContinuedFraction.MaxDenominator, ContinuedFraction.Fib,
      ContinuedFraction.Scale, ContinuedFraction.IsFraction;
    var n: nat, d: nat :| ContinuedFraction.IsFraction(v, n, d) && n <= maxNumerator
                          && d <= ContinuedFraction.MaxDenominator(v, maxNumerator)
                          && d < ContinuedFraction.Fib(ContinuedFraction.MAX_ITER + 1);
    ContinuedFraction.SmallFractionsRoundTrip(v, maxNumerator, n, d);
    var (num, den) := ContinuedFraction.Approximate(v, maxNumerator).value;
    FractionValue(num, den, v);
  }

  lemma UnsignedSurvives(v: real)
    requires Small(v, U32_MAX)
    ensures UnsignedFraction(v).Value() == v
  {
    hide ContinuedFraction.Approximate, Small;
    SmallIsNonNegative(v, U32_MAX);
    SmallApproximation(v, U32_MAX);
  }

  lemma SmallIsNonNegative(v: real, maxNumerator: U32)
    requires Small(v, maxNumerator)
    ensures v >= 0.0
  {
  }

  lemma SignedSurvives(v: real)
    requires Small(if v < 0.0 then -v else v, I32_MAX)
    ensures SignedFraction(v).Value() == v
  {
    hide ContinuedFraction.Approximate, Small;
    var a := if v < 0.0 then -v else v;
    SmallApproximation(a, I32_MAX);
    var (num, den) := ContinuedFraction.Approximate(a, I32_MAX).value;
    NegatedQuotient(num, den);
  }

  lemma NegatedQuotient(num: int, den: int)
    requires den >= 1
    ensures (-num) as real / den as real == -(num as real / den as real)
  {
  }

  ghost predicate SmallChannel(c: Channel) {
    && SmallSigned(c.min) && SmallSigned(c.max) && Small(c.gamma, U32_MAX)
    && SmallSigned(c.baseOffset) && SmallSigned(c.alternateOffset)
  }

  ghost predicate SmallSigned(v: real) {
    Small(if v < 0.0 then -v else v, I32_MAX)
  }

  lemma ChannelSurvives(c: Channel)
    requires SmallChannel(c)
    ensures QuantizedChannel(c) == c
  {
    hide Small, SignedFraction, UnsignedFraction, Fraction.Value;
    SignedSurvives(c.min);
    SignedSurvives(c.max);
    UnsignedSurvives(c.gamma);
    SignedSurvives(c.baseOffset);
    SignedSurvives(c.alternateOffset);
  }

  /** Metadata made of fractions with small terms comes back exactly, in every framing. */
  lemma SmallParamsRoundTrip(p: Params, format: Format, trailing: seq<Byte>)
    requires p.Valid() && Small(p.baseHdrHeadroom, U32_MAX) && Small(p.alternateHdrHeadroom, U32_MAX)
    requires SmallChannel(p.channels[0]) && SmallChannel(p.channels[1]) && SmallChannel(p.channels[2])
    ensures Parse(Serialize(p, format) + trailing, format) == Ok(p)
  {
    hide Parse, Small, SmallChannel, QuantizedChannel, UnsignedFraction, Fraction.Value, Serialize;
    ParseInvertsSerialize(p, format, trailing);
    UnsignedSurvives(p.baseHdrHeadroom);
    UnsignedSurvives(p.alternateHdrHeadroom);
    ChannelSurvives(p.channels[0]);
    ChannelSurvives(p.channels[1]);
    ChannelSurvives(p.channels[2]);
    assert Quantized(p).channels == p.channels;
  }
}

