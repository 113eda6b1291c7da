/**
 ISO 21496-1 gain-map metadata (src/gainmap.rs): four framings, full and common-denominator
 payloads. Numbers are exact reals; a fraction stands for its exact quotient.
 */
module GainMap {
  import opened Words
  import opened Bytes
  import ContinuedFraction

  datatype Format = JpegApp2 | AvifTmap | JxlJhgm | JpegApp2BodyWithUrn

  datatype Channel = Channel(min: real, max: real, gamma: real, baseOffset: real, alternateOffset: real)

  datatype Params = Params(channels: seq<Channel>, baseHdrHeadroom: real, alternateHdrHeadroom: real,
                           useBaseColorSpace: bool, backwardDirection: bool)
  {
    /** The source's field is a fixed array of three. */
    predicate Valid() {
      |channels| == 3
    }

    predicate IsSingleChannel()
      requires Valid()
    {
      channels[0] == channels[1] && channels[1] == channels[2]
    }
  }

  datatype ParseError =
    | TruncatedData(expected: nat, actual: nat)
    | UnsupportedVersion(version: Byte)
    | ZeroDenominator(field: string)
    | UrnMismatch

  /** "urn:iso:std:iso:ts:21496:-1" and a NUL. */
  const URN: seq<Byte> := [117, 114, 110, 58, 105, 115, 111, 58, 115, 116, 100, 58, 105, 115, 111, 58, 116, 115, 58,
                           50, 49, 52, 57, 54, 58, 45, 49, 0]
  const FLAG_MULTI_CHANNEL: int := 0x80
  const FLAG_USE_BASE_COLOUR_SPACE: int := 0x40
  const FLAG_COMMON_DENOMINATOR: int := 0x08
  const FLAG_BACKWARD_DIRECTION: int := 0x04
  const AVIF_HEADER_SIZE := 6
  const JPEG_HEADER_SIZE := 5
  const FRACTION_SIZE := 8

  // ----- fractions -----

  /** A numerator over a denominator; signed fractions have i32 numerators, unsigned ones u32. */
  datatype Fraction = Fraction(numerator: int, denominator: U32) {
    predicate Signed() {
      -0x8000_0000 <= numerator <= I32_MAX && denominator >= 1
    }

    predicate Unsigned() {
      0 <= numerator <= U32_MAX && denominator >= 1
    }

    function Value(): real {
      if denominator == 0 then 0.0 else numerator as real / denominator as real
    }
  }

  /** `as i32` of a u32, and i32 negation, both wrapping. */
  function ToI32(n: int): int {
    if n <= I32_MAX then n else n - 0x1_0000_0000
  }

  function NegI32(n: int): int {
    if n == -0x8000_0000 then n else -n
  }

  /** The source's from_f64_cf for unsigned fields; 0/1 when the number is refused. */
  function UnsignedFraction(value: real): (f: Fraction)
    ensures f.Unsigned()
  {
    var v := if value < 0.0 then 0.0 else value;
    ApproximateBounds(v, U32_MAX);
    match ContinuedFraction.Approximate(v, U32_MAX)
    case None => Fraction(0, 1)
    case Some((n, d)) => Fraction(n, d)
  }

  /** The source's from_f64_cf for signed fields. */
  function SignedFraction(value: real): (f: Fraction)
    ensures f.Signed()
  {
    var v := if value < 0.0 then -value else value;
    ApproximateBounds(v, I32_MAX);
    match ContinuedFraction.Approximate(v, I32_MAX)
    case None => Fraction(0, 1)
    case Some((n, d)) => Fraction(if value < 0.0 then NegI32(ToI32(n)) else ToI32(n), d)
  }

  lemma ApproximateBounds(v: real, maxNumerator: U32)
    ensures ContinuedFraction.Approximate(v, maxNumerator).Some? ==>
              var (n, d) := ContinuedFraction.Approximate(v, maxNumerator).value;
              0 <= n <= U32_MAX && 1 <= d <= U32_MAX
  {
    hide ContinuedFraction.Approximate, ContinuedFraction.MaxDenominator;
    ContinuedFraction.ApproximateCorrect(v, maxNumerator);
    if ContinuedFraction.Approximate(v, maxNumerator).Some? {
      var (n, d) := ContinuedFraction.Approximate(v, maxNumerator).value;
      ContinuedFraction.NumeratorFits(v, maxNumerator, n, d);
    }
  }

  // ----- readers: value and next offset, or a typed truncation -----

  function ReadU8(data: seq<Byte>, off: nat): (r: Result<(Byte, nat), ParseError>)
    ensures r.Ok? <==> off + 1 <= |data|
    ensures r.Ok? ==> r.value == (data[off], off + 1)
  {
    if off >= |data| then Err(TruncatedData(off + 1, |data|)) else Ok((data[off], off + 1))
  }

  function ReadU16(data: seq<Byte>, off: nat): (r: Result<(U16, nat), ParseError>)
    ensures r.Ok? <==> off + 2 <= |data|
    ensures r.Ok? ==> r.value.1 == off + 2
  {
    if off + 2 > |data| then Err(TruncatedData(off + 2, |data|)) else Ok((Dec16(data[off..off + 2], Big), off + 2))
  }

  function ReadU32(data: seq<Byte>, off: nat): (r: Result<(U32, nat), ParseError>)
    ensures r.Ok? <==> off + 4 <= |data|
    ensures r.Ok? ==> r.value.1 == off + 4
  {
    if off + 4 > |data| then Err(TruncatedData(off + 4, |data|)) else Ok((Dec32(data[off..off + 4], Big), off + 4))
  }

  /** Two's complement reading of the same four bytes. */
  function ReadI32(data: seq<Byte>, off: nat): (r: Result<(int, nat), ParseError>)
    ensures r.Ok? <==> off + 4 <= |data|
    ensures r.Ok? ==> r.value.1 == off + 4 && -0x8000_0000 <= r.value.0 <= I32_MAX
  {
    var (n, end) :- ReadU32(data, off);
    Ok((ToI32(n), end))
  }

  function ReadNumerator(data: seq<Byte>, off: nat, signed: bool): (r: Result<(int, nat), ParseError>)
    ensures r.Ok? <==> off + 4 <= |data|
    ensures r.Ok? ==> r.value.1 == off + 4
  {
    if signed then ReadI32(data, off) else
      var (n, end) :- ReadU32(data, off);
      Ok((n, end))
  }

  function ReadFraction(data: seq<Byte>, off: nat, signed: bool, field: string): (r: Result<(Fraction, nat), ParseError>)
    ensures r.Ok? ==> r.value.1 == off + 8 <= |data| && r.value.0.denominator >= 1
  {
    var (n, mid) :- ReadNumerator(data, off, signed);
    var (d, end) :- ReadU32(data, mid);
    if d == 0 then Err(ZeroDenominator(field)) else Ok((Fraction(n, d), end))
  }

  function ReadChannel(data: seq<Byte>, off: nat): (r: Result<(Channel, nat), ParseError>)
    ensures r.Ok? ==> r.value.1 == off + 40 <= |data|
  {
    var (min, o1) :- ReadFraction(data, off, true, "gain_map_min");
    var (max, o2) :- ReadFraction(data, o1, true, "gain_map_max");
    var (gamma, o3) :- ReadFraction(data, o2, false, "gamma");
    var (base, o4) :- ReadFraction(data, o3, true, "base_offset");
    var (alt, o5) :- ReadFraction(data, o4, true, "alternate_offset");
    Ok((Channel(min.Value(), max.Value(), gamma.Value(), base.Value(), alt.Value()), o5))
  }

  function ReadCompactChannel(data: seq<Byte>, off: nat, d: U32): (r: Result<(Channel, nat), ParseError>)
    ensures r.Ok? <==> off + 20 <= |data|
    ensures r.Ok? ==> r.value.1 == off + 20
  {
    var (min, o1) :- ReadNumerator(data, off, true);
    var (max, o2) :- ReadNumerator(data, o1, true);
    var (gamma, o3) :- ReadNumerator(data, o2, false);
    var (base, o4) :- ReadNumerator(data, o3, true);
    var (alt, o5) :- ReadNumerator(data, o4, true);
    Ok((Channel(Fraction(min, d).Value(), Fraction(max, d).Value(), Fraction(gamma, d).Value(),
                Fraction(base, d).Value(), Fraction(alt, d).Value()), o5))
  }

  /** n channels in a row; `common` is the shared denominator of the compact payload. */
  function ReadChannels(data: seq<Byte>, off: nat, n: nat, common: Option<U32>): (r: Result<(seq<Channel>, nat), ParseError>)
    ensures r.Ok? ==> |r.value.0| == n && r.value.1 == off + n * (if common.None? then 40 else 20)
    ensures r.Ok? && n > 0 ==> r.value.1 <= |data|
  {
    if n == 0 then Ok(([], off))
    else
      var (init, mid) :- ReadChannels(data, off, n - 1, common);
      var (c, end) :- if common.None? then ReadChannel(data, mid) else ReadCompactChannel(data, mid, common.value);
      Ok((init + [c], end))
  }

  /** One channel stands for all three. */
  function Replicate(channels: seq<Channel>): (r: seq<Channel>)
    requires |channels| == 1 || |channels| == 3
    ensures |r| == 3
  {
    if |channels| == 1 then [channels[0], channels[0], channels[0]] else channels
  }

  function ParseFull(data: seq<Byte>, off: nat, n: nat, useBase: bool, backward: bool): (r: Result<(Params, nat), ParseError>)
    requires n == 1 || n == 3
    ensures r.Ok? ==> r.value.1 == off + 16 + 40 * n <= |data| && r.value.0.Valid()
  {
    var (base, o1) :- ReadFraction(data, off, false, "base_hdr_headroom");
    var (alt, o2) :- ReadFraction(data, o1, false, "alternate_hdr_headroom");
    var (channels, end) :- ReadChannels(data, o2, n, None);
    Ok((Params(Replicate(channels), base.Value(), alt.Value(), useBase, backward), end))
  }

  function ParseCompact(data: seq<Byte>, off: nat, n: nat, useBase: bool, backward: bool): (r: Result<(Params, nat), ParseError>)
    requires n == 1 || n == 3
    ensures r.Ok? ==> r.value.1 == off + 12 + 20 * n <= |data| && r.value.0.Valid()
  {
    var (d, o1) :- ReadU32(data, off);
    if d == 0 then Err(ZeroDenominator("common_denominator"))
    else
      var (base, o2) :- ReadU32(data, o1);
      var (alt, o3) :- ReadU32(data, o2);
      var (channels, end) :- ReadChannels(data, o3, n, Some(d));
      Ok((Params(Replicate(channels), Fraction(base, d).Value(), Fraction(alt, d).Value(), useBase, backward), end))
  }

  function Flag(flags: Byte, bit: int): bool
    requires bit in {FLAG_MULTI_CHANNEL, FLAG_USE_BASE_COLOUR_SPACE, FLAG_COMMON_DENOMINATOR, FLAG_BACKWARD_DIRECTION}
  {
    (flags / bit) % 2 == 1
  }

  /** Payload bytes announced by a flags byte. */
  function PayloadSize(flags: Byte): nat {
    var n := if Flag(flags, FLAG_MULTI_CHANNEL) then 3 else 1;
    if Flag(flags, FLAG_COMMON_DENOMINATOR) then 12 + 20 * n else 16 + 40 * n
  }

  /** minimum_version, writer_version, flags, payload. */
  function ParseBody(data: seq<Byte>, off: nat): (r: Result<(Params, nat), ParseError>)
    ensures r.Ok? ==> off + 5 <= |data| && r.value.1 == off + 5 + PayloadSize(data[off + 4]) <= |data| && r.value.0.Valid()
  {
    var (minimum, o1) :- ReadU16(data, off);
    if minimum > 0 then Err(UnsupportedVersion(minimum % 256))
    else
      var (writer, o2) :- ReadU16(data, o1);
      var (flags, o3) :- ReadU8(data, o2);
      var n := if Flag(flags, FLAG_MULTI_CHANNEL) then 3 else 1;
      var base, backward := Flag(flags, FLAG_USE_BASE_COLOUR_SPACE), Flag(flags, FLAG_BACKWARD_DIRECTION);
      if Flag(flags, FLAG_COMMON_DENOMINATOR) then ParseCompact(data, o3, n, base, backward)
      else ParseFull(data, o3, n, base, backward)
  }

  function ParseNoVersion(data: seq<Byte>): Result<Params, ParseError> {
    if |data| < JPEG_HEADER_SIZE then Err(TruncatedData(JPEG_HEADER_SIZE, |data|))
    else
      var (p, _) :- ParseBody(data, 0);
      Ok(p)
  }

  function ParseAvif(data: seq<Byte>): Result<Params, ParseError> {
    if |data| < AVIF_HEADER_SIZE then Err(TruncatedData(AVIF_HEADER_SIZE, |data|))
    else
      var (version, off) :- ReadU8(data, 0);
      if version != 0 then Err(UnsupportedVersion(version))
      else
        var (p, _) :- ParseBody(data, off);
        Ok(p)
  }

  function Parse(data: seq<Byte>, format: Format): Result<Params, ParseError> {
    match format
    case AvifTmap => ParseAvif(data)
    case JxlJhgm => ParseNoVersion(data)
    case JpegApp2 => ParseNoVersion(data)
    case JpegApp2BodyWithUrn =>
      if |data| < |URN| || data[..|URN|] != URN then Err(UrnMismatch) else ParseNoVersion(data[|URN|..])
  }

  // ----- writers -----

  function EncNumerator(n: int): (b: seq<Byte>)
    requires -0x8000_0000 <= n <= U32_MAX
    ensures |b| == 4
  {
    Enc32(if n < 0 then n + 0x1_0000_0000 else n, Big)
  }

  function EncFraction(f: Fraction): (b: seq<Byte>)
    requires -0x8000_0000 <= f.numerator <= U32_MAX
    ensures |b| == 8
  {
    EncNumerator(f.numerator) + Enc32(f.denominator, Big)
  }

  /** The five fractions of a channel. */
  datatype ChannelFractions = ChannelFractions(min: Fraction, max: Fraction, gamma: Fraction, base: Fraction, alt: Fraction) {
    predicate Valid() {
      min.Signed() && max.Signed() && gamma.Unsigned() && base.Signed() && alt.Signed()
    }

    function Value(): Channel {
      Channel(min.Value(), max.Value(), gamma.Value(), base.Value(), alt.Value())
    }
  }

  function FractionsOf(c: Channel): (f: ChannelFractions)
    ensures f.Valid()
  {
    ChannelFractions(SignedFraction(c.min), SignedFraction(c.max), UnsignedFraction(c.gamma),
                     SignedFraction(c.baseOffset), SignedFraction(c.alternateOffset))
  }

  function EncChannel(f: ChannelFractions): (b: seq<Byte>)
    requires f.Valid()
    ensures |b| == 40
  {
    EncFraction(f.min) + (EncFraction(f.max) + (EncFraction(f.gamma) + (EncFraction(f.base) + EncFraction(f.alt))))
  }

  function EncChannels(fs: seq<ChannelFractions>): (b: seq<Byte>)
    requires forall k :: 0 <= k < |fs| ==> fs[k].Valid()
    ensures |b| == 40 * |fs|
  {
    if fs == [] then [] else EncChannels(fs[..|fs| - 1]) + EncChannel(fs[|fs| - 1])
  }

  function WrittenChannels(p: Params): (fs: seq<ChannelFractions>)
    requires p.Valid()
    ensures forall k :: 0 <= k < |fs| ==> fs[k].Valid()
    ensures |fs| == if p.IsSingleChannel() then 1 else 3
  {
    if p.IsSingleChannel() then [FractionsOf(p.channels[0])]
    else [FractionsOf(p.channels[0]), FractionsOf(p.channels[1]), FractionsOf(p.channels[2])]
  }

  function BuildFlags(p: Params): Byte
    requires p.Valid()
  {
    FlagByte(!p.IsSingleChannel(), p.useBaseColorSpace, false, p.backwardDirection)
  }

  function FlagByte(multi: bool, base: bool, common: bool, backward: bool): Byte {
    (if multi then FLAG_MULTI_CHANNEL else 0) + (if base then FLAG_USE_BASE_COLOUR_SPACE else 0)
    + (if common then FLAG_COMMON_DENOMINATOR else 0) + (if backward then FLAG_BACKWARD_DIRECTION else 0)
  }

  function FullPayload(base: Fraction, alt: Fraction, channels: seq<ChannelFractions>): (b: seq<Byte>)
    requires base.Unsigned() && alt.Unsigned() && forall k :: 0 <= k < |channels| ==> channels[k].Valid()
    ensures |b| == 16 + 40 * |channels|
  {
    EncFraction(base) + (EncFraction(alt) + EncChannels(channels))
  }

  /** Bytes before the payload: framing, two version words, flags. */
  function Header(format: Format, flags: Byte): (b: seq<Byte>)
    ensures |b| == HeaderSize(format)
  {
    Framing(format) + [0, 0, 0, 0, flags]
  }

  function Framing(format: Format): seq<Byte> {
    match format
    case AvifTmap => [0]
    case JpegApp2BodyWithUrn => URN
    case _ => []
  }

  function HeaderSize(format: Format): nat {
    match format
    case AvifTmap => AVIF_HEADER_SIZE
    case JpegApp2BodyWithUrn => |URN| + JPEG_HEADER_SIZE
    case _ => JPEG_HEADER_SIZE
  }

  function Serialize(p: Params, format: Format): seq<Byte>
    requires p.Valid()
  {
    Header(format, BuildFlags(p))
    + FullPayload(UnsignedFraction(p.baseHdrHeadroom), UnsignedFraction(p.alternateHdrHeadroom), WrittenChannels(p))
  }

  function SerializedSize(p: Params, format: Format): nat
    requires p.Valid()
  {
    HeaderSize(format) + 2 * FRACTION_SIZE + (if p.IsSingleChannel() then 1 else 3) * 5 * FRACTION_SIZE
  }
}

