/**
 The gain-map wire format byte by byte (src/gainmap.rs): exactly which inputs the parser accepts, what
 each of its errors says about the input, and where the writer puts every number.
 */
module GainMapFormat {
  import opened Words
  import opened Bytes
  import opened GainMap
  import opened GainMapLaws

  // ----- the bytes, without any reader -----

  /** The four bytes at `at` are not all zero. */
  predicate NonZero(data: seq<Byte>, at: nat)
    requires at + 4 <= |data|
  {
    data[at] != 0 || data[at + 1] != 0 || data[at + 2] != 0 || data[at + 3] != 0
  }

  predicate HasBit(flags: Byte, bit: Byte)
    requires bit != 0
  {
    (flags / bit) % 2 == 1
  }

  /** Bit 7: three channels. */
  function ChannelCount(flags: Byte): nat {
    if flags >= 128 then 3 else 1
  }

  /** Bit 3: one denominator for all numbers. */
  predicate Compact(flags: Byte) {
    HasBit(flags, 8)
  }

  /** What comes before the two version words. */
  predicate Framed(data: seq<Byte>, format: Format) {
    match format
    case AvifTmap => |data| >= 1 && data[0] == 0
    case JpegApp2BodyWithUrn => |data| >= 28 && data[..28] == URN
    case _ => true
  }

  function FramingLen(format: Format): nat {
    match format
    case AvifTmap => 1
    case JpegApp2BodyWithUrn => 28
    case _ => 0
  }

  /** Denominators of `n` fractions from `off`, eight bytes each. */
  ghost predicate Denominators(data: seq<Byte>, off: nat, n: nat)
    requires off + 8 * n <= |data|
  {
    forall j :: 0 <= j < n ==> NonZero(data, off + 8 * j + 4)
  }

  /** The two version words and the flags are there, the first word is zero, and so is no denominator announced. */
  ghost predicate Acceptable(data: seq<Byte>, at: nat) {
    && at + 5 <= |data| && data[at] == 0 && data[at + 1] == 0
    && var flags, n := data[at + 4], ChannelCount(data[at + 4]);
       if Compact(flags) then at + 17 + 20 * n <= |data| && NonZero(data, at + 5)
       else at + 21 + 40 * n <= |data| && Denominators(data, at + 5, 2 + 5 * n)
  }

  // ----- the readers -----

  lemma NonZeroMeans(data: seq<Byte>, at: nat)
    requires at + 4 <= |data|
    ensures Dec32(data[at..at + 4], Big) != 0 <==> NonZero(data, at)
  {
    Dec32Positional(data[at..at + 4]);
  }

  const CHANNEL_FIELDS: seq<string> := ["gain_map_min", "gain_map_max", "gamma", "base_offset", "alternate_offset"]

  /** The error names a zero denominator among n fractions from `off`, or says how the data is too short for them. */
  ghost predicate FailsAt(data: seq<Byte>, off: nat, n: nat, names: seq<string>, e: ParseError) {
    match e
    case TruncatedData(expected, actual) => actual == |data| < expected <= off + 8 * n
    case ZeroDenominator(field) =>
      exists j :: 0 <= j < n && j < |names| && off + 8 * j + 8 <= |data| && !NonZero(data, off + 8 * j + 4) && field == names[j]
    case _ => false
  }

  lemma ReadFractionIff(data: seq<Byte>, off: nat, signed: bool, field: string)
    ensures ReadFraction(data, off, signed, field).Ok? <==> off + 8 <= |data| && NonZero(data, off + 4)
    ensures ReadFraction(data, off, signed, field).Err? ==>
              FailsAt(data, off, 1, [field], ReadFraction(data, off, signed, field).error)
  {
    hide Dec32;
    if off + 8 <= |data| {
      NonZeroMeans(data, off + 4);
      if !NonZero(data, off + 4) {
        assert [field][0] == field && !NonZero(data, off + 8 * 0 + 4);
      }
    }
  }

  /** An error among some of the fractions is an error among all of them. */
  lemma FailsWithin(data: seq<Byte>, off: nat, n: nat, names: seq<string>, k: nat, m: nat, part: seq<string>, e: ParseError)
    requires FailsAt(data, off + 8 * k, m, part, e) && k + m <= n
    requires |names| == n && |part| == m && names[k..k + m] == part
    ensures FailsAt(data, off, n, names, e)
  {
    if e.ZeroDenominator? {
      var j :| 0 <= j < m && off + 8 * k + 8 * j + 8 <= |data| && !NonZero(data, off + 8 * k + 8 * j + 4) && e.field == part[j];
      assert part[j] == names[k + j];
      assert !NonZero(data, off + 8 * (k + j) + 4);
    }
  }

  /** Where one group of fractions ends and the next begins. */
  lemma DenominatorsSplit(data: seq<Byte>, off: nat, n: nat, m: nat)
    requires off + 8 * (n + m) <= |data|
    ensures Denominators(data, off, n + m) <==> Denominators(data, off, n) && Denominators(data, off + 8 * n, m)
  {
    hide NonZero;
    if Denominators(data, off, n) && Denominators(data, off + 8 * n, m) {
      forall j | 0 <= j < n + m
        ensures NonZero(data, off + 8 * j + 4)
      {
        if j >= n {
          assert NonZero(data, off + 8 * n + 8 * (j - n) + 4);
        }
      }
    }
    if Denominators(data, off, n + m) {
      forall j | 0 <= j < m
        ensures NonZero(data, off + 8 * n + 8 * j + 4)
      {
        assert NonZero(data, off + 8 * (n + j) + 4);
      }
    }
  }

  lemma OneDenominator(data: seq<Byte>, off: nat)
    requires off + 8 <= |data|
    ensures Denominators(data, off, 1) <==> NonZero(data, off + 4)
  {
    hide NonZero;
    if Denominators(data, off, 1) {
      assert NonZero(data, off + 8 * 0 + 4);
    }
  }

  ghost predicate FractionsThere(data: seq<Byte>, off: nat, n: nat) {
    off + 8 * n <= |data| && Denominators(data, off, n)
  }

  lemma FractionsStep(data: seq<Byte>, off: nat, n: nat)
    ensures FractionsThere(data, off, n + 1) <==>
              FractionsThere(data, off, n) && off + 8 * n + 8 <= |data| && NonZero(data, off + 8 * n + 4)
    ensures off <= |data| ==> FractionsThere(data, off, 0)
  {
    hide NonZero, Denominators;
    if off + 8 * (n + 1) <= |data| {
      DenominatorsSplit(data, off, n, 1);
      OneDenominator(data, off + 8 * n);
    }
    if off <= |data| {
      NoDenominators(data, off);
    }
  }

  lemma NoDenominators(data: seq<Byte>, off: nat)
    requires off <= |data|
    ensures Denominators(data, off, 0)
  {
  }

  lemma ReadChannelIff(data: seq<Byte>, off: nat)
    ensures ReadChannel(data, off).Ok? <==> FractionsThere(data, off, 5)
    ensures ReadChannel(data, off).Err? ==> FailsAt(data, off, 5, CHANNEL_FIELDS, ReadChannel(data, off).error)
  {
    hide ReadFraction, FractionsThere, NonZero, FailsAt;
    ChannelFraction(data, off, 0, true);
    ChannelFraction(data, off, 1, true);
    ChannelFraction(data, off, 2, false);
    ChannelFraction(data, off, 3, true);
    ChannelFraction(data, off, 4, true);
    NoFractions(data, off);
  }

  lemma NoFractions(data: seq<Byte>, off: nat)
    ensures FractionsThere(data, off, 1) ==> FractionsThere(data, off, 0)
  {
    FractionsStep(data, off, 0);
  }

  lemma ChannelFraction(data: seq<Byte>, off: nat, k: nat, signed: bool)
    requires k < 5
    ensures var r := ReadFraction(data, off + 8 * k, signed, CHANNEL_FIELDS[k]);
            && (FractionsThere(data, off, k) || k == 0 ==> (r.Ok? <==> FractionsThere(data, off, k + 1)))
            && (FractionsThere(data, off, k + 1) ==> FractionsThere(data, off, k))
            && (r.Err? ==> FailsAt(data, off, 5, CHANNEL_FIELDS, r.error))
  {
    hide ReadFraction, FractionsThere, NonZero, FailsAt;
    FractionsStep(data, off, k);
    FractionsInside(data, off, k);
    ReadFractionIff(data, off + 8 * k, signed, CHANNEL_FIELDS[k]);
    var r := ReadFraction(data, off + 8 * k, signed, CHANNEL_FIELDS[k]);
    if r.Err? {
      FailsWithin(data, off, 5, CHANNEL_FIELDS, k, 1, [CHANNEL_FIELDS[k]], r.error);
    }
  }

  lemma FractionsInside(data: seq<Byte>, off: nat, n: nat)
    ensures FractionsThere(data, off, n) ==> off <= |data|
  {
  }

  lemma FractionsSplit(data: seq<Byte>, off: nat, n: nat, m: nat)
    ensures FractionsThere(data, off, n + m) <==> FractionsThere(data, off, n) && FractionsThere(data, off + 8 * n, m)
  {
    hide Denominators;
    if off + 8 * (n + m) <= |data| {
      DenominatorsSplit(data, off, n, m);
    }
  }

  /** The fields of n channels, in the order they are read. */
  function ChannelNames(n: nat): (r: seq<string>)
    ensures |r| == 5 * n
  {
    if n == 0 then [] else ChannelNames(n - 1) + CHANNEL_FIELDS
  }

  lemma ReadChannelsStep(data: seq<Byte>, off: nat, m: nat, common: Option<U32>)
    ensures var init, whole := ReadChannels(data, off, m, common), ReadChannels(data, off, m + 1, common);
            if init.Err? then whole == Err(init.error)
            else
              var at := off + m * (if common.None? then 40 else 20);
              if common.None? then
                (whole.Ok? <==> ReadChannel(data, at).Ok?)
                && (whole.Err? ==> whole.error == ReadChannel(data, at).error)
              else
                (whole.Ok? <==> ReadCompactChannel(data, at, common.value).Ok?)
                && (whole.Err? ==> whole.error == ReadCompactChannel(data, at, common.value).error)
  {
    hide ReadChannel, ReadCompactChannel;
  }

  /** n channels are read exactly when their fractions are there; else the error tells which is not. */
  ghost predicate ChannelsRead(data: seq<Byte>, off: nat, n: nat) {
    var r := ReadChannels(data, off, n, None);
    && (r.Ok? <==> FractionsThere(data, off, 5 * n))
    && (r.Err? ==> FailsAt(data, off, 5 * n, ChannelNames(n), r.error))
  }

  lemma {:induction false} ReadChannelsIff(data: seq<Byte>, off: nat, n: nat)
    requires off <= |data|
    ensures ChannelsRead(data, off, n)
  {
    if n == 0 {
      FractionsStep(data, off, 0);
    } else {
      hide *;
      ReadChannelsIff(data, off, n - 1);
      NextChannelsRead(data, off, n - 1, off + 40 * (n - 1));
    }
  }

  lemma NextChannelsRead(data: seq<Byte>, off: nat, m: nat, at: nat)
    requires ChannelsRead(data, off, m) && at == off + 40 * m
    ensures ChannelsRead(data, off, m + 1)
  {
    hide ReadChannels, ReadChannel, FractionsThere, FailsAt, ChannelNames;
    ReadChannelsStep(data, off, m, None);
    NextChannelIff(data, off, m, at);
    NextChannelFails(data, off, m, at);
  }

  lemma NextChannelIff(data: seq<Byte>, off: nat, m: nat, at: nat)
    requires at == off + 40 * m
    ensures FractionsThere(data, off, 5 * m) ==> (ReadChannel(data, at).Ok? <==> FractionsThere(data, off, 5 * (m + 1)))
    ensures FractionsThere(data, off, 5 * (m + 1)) ==> FractionsThere(data, off, 5 * m)
  {
    hide *;
    ReadChannelIff(data, at);
    FractionsSplit(data, off, 5 * m, 5);
  }

  lemma NextChannelFails(data: seq<Byte>, off: nat, m: nat, at: nat)
    requires at == off + 40 * m
    ensures ReadChannel(data, at).Err? ==>
              FailsAt(data, off, 5 * (m + 1), ChannelNames(m + 1), ReadChannel(data, at).error)
    ensures forall e :: FailsAt(data, off, 5 * m, ChannelNames(m), e) ==> FailsAt(data, off, 5 * (m + 1), ChannelNames(m + 1), e)
  {
    hide ReadChannel, FailsAt, ChannelNames;
    NamesEnd(m + 1);
    ReadChannelIff(data, at);
    if ReadChannel(data, at).Err? {
      FailsWithin(data, off, 5 * (m + 1), ChannelNames(m + 1), 5 * m, 5, CHANNEL_FIELDS, ReadChannel(data, at).error);
    }
    forall e | FailsAt(data, off, 5 * m, ChannelNames(m), e)
      ensures FailsAt(data, off, 5 * (m + 1), ChannelNames(m + 1), e)
    {
      FailsWithin(data, off, 5 * (m + 1), ChannelNames(m + 1), 0, 5 * m, ChannelNames(m), e);
    }
  }

  lemma NamesEnd(n: nat)
    requires n > 0
    ensures ChannelNames(n)[0..5 * (n - 1)] == ChannelNames(n - 1)
    ensures ChannelNames(n)[5 * (n - 1)..5 * (n - 1) + 5] == CHANNEL_FIELDS
  {
  }

  lemma CompactChannelIff(data: seq<Byte>, off: nat, d: U32)
    ensures var r := ReadCompactChannel(data, off, d);
            r.Err? ==> r.error.TruncatedData? && r.error.actual == |data| < r.error.expected <= off + 20
  {
    hide Dec32;
  }

  lemma {:induction false} ReadCompactIff(data: seq<Byte>, off: nat, n: nat, d: U32)
    requires off <= |data|
    ensures var r := ReadChannels(data, off, n, Some(d));
            && (r.Ok? <==> off + 20 * n <= |data|)
            && (r.Err? ==> r.error.TruncatedData? && r.error.actual == |data| < r.error.expected <= off + 20 * n)
  {
    if n > 0 {
      hide ReadChannels, ReadCompactChannel;
      ReadCompactIff(data, off, n - 1, d);
      ReadChannelsStep(data, off, n - 1, Some(d));
      CompactChannelIff(data, off + 20 * (n - 1), d);
    }
  }

  // ----- the payloads -----

  const HEADROOM_FIELDS: seq<string> := ["base_hdr_headroom", "alternate_hdr_headroom"]

  lemma ParseFullIff(data: seq<Byte>, off: nat, n: nat, useBase: bool, backward: bool)
    requires (n == 1 || n == 3) && off <= |data|
    ensures ParseFull(data, off, n, useBase, backward).Ok? <==> FractionsThere(data, off, 2 + 5 * n)
    ensures ParseFull(data, off, n, useBase, backward).Err? ==>
              FailsAt(data, off, 2 + 5 * n, HEADROOM_FIELDS + ChannelNames(n), ParseFull(data, off, n, useBase, backward).error)
  {
    hide ReadFraction, ReadChannels, FractionsThere, FailsAt, ChannelNames, NonZero;
    var names := HEADROOM_FIELDS + ChannelNames(n);
    FractionsStep(data, off, 0);
    FractionsStep(data, off, 1);
    FractionsSplit(data, off, 2, 5 * n);
    var base := HeadroomFraction(data, off, n, 0);
    var alt := HeadroomFraction(data, off, n, 1);
    if base.Ok? && alt.Ok? {
      ReadChannelsIff(data, off + 16, n);
      var channels := ReadChannels(data, off + 16, n, None);
      if channels.Err? {
        assert names[2..2 + 5 * n] == ChannelNames(n);
        FailsWithin(data, off, 2 + 5 * n, names, 2, 5 * n, ChannelNames(n), channels.error);
      }
    }
  }

  lemma HeadroomFraction(data: seq<Byte>, off: nat, n: nat, k: nat) returns (r: Result<(Fraction, nat), ParseError>)
    requires k < 2
    ensures r == ReadFraction(data, off + 8 * k, false, HEADROOM_FIELDS[k])
    ensures r.Ok? <==> off + 8 * k + 8 <= |data| && NonZero(data, off + 8 * k + 4)
    ensures r.Err? ==> FailsAt(data, off, 2 + 5 * n, HEADROOM_FIELDS + ChannelNames(n), r.error)
  {
    hide ReadFraction, NonZero, FailsAt;
    r := ReadFraction(data, off + 8 * k, false, HEADROOM_FIELDS[k]);
    ReadFractionIff(data, off + 8 * k, false, HEADROOM_FIELDS[k]);
    if r.Err? {
      FailsWithin(data, off, 2 + 5 * n, HEADROOM_FIELDS + ChannelNames(n), k, 1, [HEADROOM_FIELDS[k]], r.error);
    }
  }

  /** The error of a compact payload: no common denominator, or not enough bytes. */
  ghost predicate CompactFails(data: seq<Byte>, off: nat, n: nat, e: ParseError) {
    match e
    case TruncatedData(expected, actual) => actual == |data| < expected <= off + 12 + 20 * n
    case ZeroDenominator(field) => off + 4 <= |data| && !NonZero(data, off) && field == "common_denominator"
    case _ => false
  }

  lemma ParseCompactIff(data: seq<Byte>, off: nat, n: nat, useBase: bool, backward: bool)
    requires (n == 1 || n == 3) && off <= |data|
    ensures ParseCompact(data, off, n, useBase, backward).Ok? <==> off + 12 + 20 * n <= |data| && NonZero(data, off)
    ensures ParseCompact(data, off, n, useBase, backward).Err? ==>
              CompactFails(data, off, n, ParseCompact(data, off, n, useBase, backward).error)
  {
    hide ReadChannels, NonZero, Dec32;
    if off + 4 <= |data| {
      NonZeroMeans(data, off);
    }
    if off + 12 <= |data| {
      ReadCompactIff(data, off + 12, n, Dec32(data[off..off + 4], Big));
    }
  }

  // ----- the whole input -----

  lemma FlagsAreBits(flags: Byte)
    ensures Flag(flags, FLAG_MULTI_CHANNEL) <==> ChannelCount(flags) == 3
    ensures Flag(flags, FLAG_COMMON_DENOMINATOR) <==> Compact(flags)
  {
  }

  /** What an error says of the input from `at`: the version word, the flags and the payload they announce. */
  ghost predicate BodyFails(data: seq<Byte>, at: nat, e: ParseError) {
    match e
    case UnsupportedVersion(v) => at + 2 <= |data| && (data[at] != 0 || data[at + 1] != 0) && v == data[at + 1]
    case UrnMismatch => false
    case TruncatedData(expected, actual) =>
      && actual == |data| < expected
      && (expected <= at + 5
          || (at + 5 <= |data|
              && expected <= at + if Compact(data[at + 4]) then 17 + 20 * ChannelCount(data[at + 4])
                                  else 21 + 40 * ChannelCount(data[at + 4])))
    case ZeroDenominator(field) =>
      && at + 5 <= |data|
      && if Compact(data[at + 4]) then CompactFails(data, at + 5, ChannelCount(data[at + 4]), e)
         else FailsAt(data, at + 5, 2 + 5 * ChannelCount(data[at + 4]),
                      HEADROOM_FIELDS + ChannelNames(ChannelCount(data[at + 4])), e)
  }

  lemma VersionWord(data: seq<Byte>, at: nat)
    requires at + 2 <= |data|
    ensures Dec16(data[at..at + 2], Big) == 256 * data[at] as int + data[at + 1] as int
  {
  }

  lemma ParseBodyIff(data: seq<Byte>, at: nat)
    ensures ParseBody(data, at).Ok? <==> Acceptable(data, at)
    ensures ParseBody(data, at).Err? ==> BodyFails(data, at, ParseBody(data, at).error)
    ensures at + 2 <= |data| && (data[at] != 0 || data[at + 1] != 0) ==>
              ParseBody(data, at) == Err(UnsupportedVersion(data[at + 1]))
  {
    hide ParseFull, ParseCompact, Dec16, NonZero, FailsAt, Flag, Compact, ChannelCount, Denominators;
    if at + 2 <= |data| {
      VersionWord(data, at);
    }
    if at + 5 <= |data| && data[at] == 0 && data[at + 1] == 0 {
      var flags := data[at + 4];
      FlagsAreBits(flags);
      CountIsOneOrThree(flags);
      var n := ChannelCount(flags);
      var base, backward := Flag(flags, FLAG_USE_BASE_COLOUR_SPACE), Flag(flags, FLAG_BACKWARD_DIRECTION);
      if Compact(flags) {
        ParseCompactIff(data, at + 5, n, base, backward);
      } else {
        ParseFullIff(data, at + 5, n, base, backward);
        FullFails(data, at);
      }
    }
  }

  /** An error among the fractions of a full payload is an error of the input. */
  lemma FullFails(data: seq<Byte>, at: nat)
    requires at + 5 <= |data| && !Compact(data[at + 4])
    ensures var n := ChannelCount(data[at + 4]);
            forall e :: FailsAt(data, at + 5, 2 + 5 * n, HEADROOM_FIELDS + ChannelNames(n), e) ==> BodyFails(data, at, e)
  {
    hide Compact, ChannelCount;
  }

  lemma CountIsOneOrThree(flags: Byte)
    ensures ChannelCount(flags) == 1 || ChannelCount(flags) == 3
  {
  }

  /** What the parser reads after the framing: for the URN the rest of the input, else the input itself. */
  function Rest(data: seq<Byte>, format: Format): seq<Byte> {
    if format.JpegApp2BodyWithUrn? && |data| >= 28 then data[28..] else data
  }

  function BodyAt(format: Format): nat {
    if format.AvifTmap? then 1 else 0
  }

  /**
   Exactly the inputs that parse, in every framing: the framing's own bytes, minimum version zero, the
   payload that the flags announce, and no zero among its denominators.
   */
  lemma ParsesIff(data: seq<Byte>, format: Format)
    ensures Parse(data, format).Ok? <==> Framed(data, format) && Acceptable(Rest(data, format), BodyAt(format))
  {
    hide ParseBody, Acceptable;
    ParseBodyIff(Rest(data, format), BodyAt(format));
    AcceptableIsLong(Rest(data, format), BodyAt(format));
  }

  lemma AcceptableIsLong(data: seq<Byte>, at: nat)
    ensures Acceptable(data, at) ==> at + 5 <= |data|
  {
    hide Denominators;
  }

  /** A wrong URN, a version byte and a minimum version that are not zero are each told as such. */
  lemma RejectsByName(data: seq<Byte>, format: Format)
    ensures Parse(data, format) == Err(UrnMismatch) <==> format.JpegApp2BodyWithUrn? && !Framed(data, format)
    ensures format.AvifTmap? && |data| >= 6 && data[0] != 0 ==> Parse(data, format) == Err(UnsupportedVersion(data[0]))
    ensures var b, at := Rest(data, format), BodyAt(format);
            Framed(data, format) && |b| >= at + 5 && (b[at] != 0 || b[at + 1] != 0) ==>
              Parse(data, format) == Err(UnsupportedVersion(b[at + 1]))
  {
    hide ParseBody;
    ParseBodyIff(Rest(data, format), BodyAt(format));
  }

  /** Every other error is true of the input: too short for what it announces, or a zero denominator where it says. */
  lemma ErrorsAreReal(data: seq<Byte>, format: Format)
    requires Parse(data, format).Err?
    ensures var e := Parse(data, format).error;
            || (e.UrnMismatch? && format.JpegApp2BodyWithUrn? && !Framed(data, format))
            || (e.UnsupportedVersion? && format.AvifTmap? && |data| >= 6 && e.version == data[0] != 0)
            || (Framed(data, format) && BodyFails(Rest(data, format), BodyAt(format), e))
            || (e == TruncatedData(6, |data|) && format.AvifTmap? && |data| < 6)
  {
    hide ParseBody, BodyFails;
    ParseBodyIff(Rest(data, format), BodyAt(format));
    if |Rest(data, format)| < 5 {
      ShortFails(Rest(data, format));
    }
  }

  lemma ShortFails(data: seq<Byte>)
    requires |data| < 5
    ensures BodyFails(data, 0, TruncatedData(5, |data|))
  {
  }

  // ----- what the writer writes -----

  /** The four bytes at `at`, most significant first. */
  function BigEndian(data: seq<Byte>, at: nat): int
    requires at + 4 <= |data|
  {
    0x100_0000 * data[at] as int + 0x1_0000 * data[at + 1] as int + 0x100 * data[at + 2] as int + data[at + 3] as int
  }

  /** A fraction stands at `at`: numerator in two's complement, then denominator. */
  predicate FractionAt(data: seq<Byte>, at: nat, f: Fraction) {
    && at + 8 <= |data|
    && BigEndian(data, at) == f.numerator + (if f.numerator < 0 then 0x1_0000_0000 else 0)
    && BigEndian(data, at + 4) == f.denominator
  }

  lemma BigEndianAt(data: seq<Byte>, at: nat, v: U32)
    requires At(data, at, Enc32(v, Big))
    ensures BigEndian(data, at) == v
  {
    hide Enc32, Dec32;
    Dec32Enc32(v, Big);
    Dec32Positional(data[at..at + 4]);
  }

  lemma FractionStands(data: seq<Byte>, at: nat, f: Fraction)
    requires f.Signed() || f.Unsigned()
    requires At(data, at, EncFraction(f))
    ensures FractionAt(data, at, f)
  {
    hide Enc32, BigEndian;
    AtSplit(data, at, EncNumerator(f.numerator), Enc32(f.denominator, Big));
    BigEndianAt(data, at, f.numerator + (if f.numerator < 0 then 0x1_0000_0000 else 0));
    BigEndianAt(data, at + 4, f.denominator);
  }

  /** The fields of a channel in wire order. */
  function ChannelField(f: ChannelFractions, k: nat): Fraction {
    match k
    case 0 => f.min
    case 1 => f.max
    case 2 => f.gamma
    case 3 => f.base
    case _ => f.alt
  }

  lemma ChannelStands(data: seq<Byte>, at: nat, f: ChannelFractions)
    requires f.Valid() && At(data, at, EncChannel(f))
    ensures forall k :: 0 <= k < 5 ==> FractionAt(data, at + 8 * k, ChannelField(f, k))
  {
    hide FractionAt, EncFraction;
    var tail4 := EncFraction(f.base) + EncFraction(f.alt);
    var tail3 := EncFraction(f.gamma) + tail4;
    var tail2 := EncFraction(f.max) + tail3;
    AtSplit(data, at, EncFraction(f.min), tail2);
    AtSplit(data, at + 8, EncFraction(f.max), tail3);
    AtSplit(data, at + 16, EncFraction(f.gamma), tail4);
    AtSplit(data, at + 24, EncFraction(f.base), EncFraction(f.alt));
    FractionStands(data, at, f.min);
    FractionStands(data, at + 8, f.max);
    FractionStands(data, at + 16, f.gamma);
    FractionStands(data, at + 24, f.base);
    FractionStands(data, at + 32, f.alt);
  }

  lemma {:induction false} ChannelsStand(data: seq<Byte>, at: nat, fs: seq<ChannelFractions>, c: nat)
    requires (forall k :: 0 <= k < |fs| ==> fs[k].Valid()) && At(data, at, EncChannels(fs)) && c < |fs|
    ensures At(data, at + 40 * c, EncChannel(fs[c]))
  {
    hide EncChannel;
    var init, last := fs[..|fs| - 1], fs[|fs| - 1];
    AtSplit(data, at, EncChannels(init), EncChannel(last));
    if c < |init| {
      ChannelsStand(data, at, init, c);
    }
  }

  /** How many channels are written: one when all three are the same. */
  function WrittenCount(p: Params): nat
    requires p.Valid()
  {
    if p.channels[0] == p.channels[1] && p.channels[0] == p.channels[2] then 1 else 3
  }

  /** Number k of channel c, as the fraction it is written as: all signed but gamma. */
  function FieldFraction(p: Params, c: nat, k: nat): Fraction
    requires p.Valid() && c < 3
  {
    var channel := p.channels[c];
    match k
    case 0 => SignedFraction(channel.min)
    case 1 => SignedFraction(channel.max)
    case 2 => UnsignedFraction(channel.gamma)
    case 3 => SignedFraction(channel.baseOffset)
    case _ => SignedFraction(channel.alternateOffset)
  }

  /**
   The writer byte by byte: framing, two zero words, the flag bits, both headrooms, then the five numbers
   of each channel, one channel standing for three that are equal; nothing else.
   */
  lemma WrittenLayout(p: Params, format: Format)
    requires p.Valid()
    ensures var out, at, n := Serialize(p, format), FramingLen(format), WrittenCount(p);
            && Framed(out, format) && |out| == at + 21 + 40 * n
            && out[at..at + 4] == [0, 0, 0, 0]
            && out[at + 4] == (if n == 3 then 128 else 0) + (if p.useBaseColorSpace then 64 else 0) + (if p.backwardDirection then 4 else 0)
            && FractionAt(out, at + 5, UnsignedFraction(p.baseHdrHeadroom))
            && FractionAt(out, at + 13, UnsignedFraction(p.alternateHdrHeadroom))
            && forall c, k :: 0 <= c < n && 0 <= k < 5 ==> FractionAt(out, at + 21 + 40 * c + 8 * k, FieldFraction(p, c, k))
  {
    hide FractionAt, EncFraction, EncChannel, EncChannels, UnsignedFraction, SignedFraction, FieldFraction, WrittenChannels,
      Serialize, Framed;
    var out, at, fs := Serialize(p, format), FramingLen(format), WrittenChannels(p);
    var base, alt := UnsignedFraction(p.baseHdrHeadroom), UnsignedFraction(p.alternateHdrHeadroom);
    HeaderStands(p, format);
    AtSplit(out, at + 5, EncFraction(base), EncFraction(alt) + EncChannels(fs));
    AtSplit(out, at + 13, EncFraction(alt), EncChannels(fs));
    FractionStands(out, at + 5, base);
    FractionStands(out, at + 13, alt);
    forall c, k | 0 <= c < WrittenCount(p) && 0 <= k < 5
      ensures FractionAt(out, at + 21 + 40 * c + 8 * k, FieldFraction(p, c, k))
    {
      FieldWritten(p, c, k);
      ChannelsStand(out, at + 21, fs, c);
      ChannelStands(out, at + 21 + 40 * c, fs[c]);
    }
  }

  lemma FieldWritten(p: Params, c: nat, k: nat)
    requires p.Valid() && c < WrittenCount(p) && k < 5
    ensures c < |WrittenChannels(p)| && FieldFraction(p, c, k) == ChannelField(WrittenChannels(p)[c], k)
  {
    hide UnsignedFraction, SignedFraction;
  }

  lemma HeaderStands(p: Params, format: Format)
    requires p.Valid()
    ensures var out, at := Serialize(p, format), FramingLen(format);
            && |out| == at + 21 + 40 * WrittenCount(p) && Framed(out, format)
            && out[at..at + 4] == [0, 0, 0, 0] && out[at + 4] == BuildFlags(p)
            && At(out, at + 5, FullPayload(UnsignedFraction(p.baseHdrHeadroom), UnsignedFraction(p.alternateHdrHeadroom),
                                           WrittenChannels(p)))
  {
    hide FullPayload, UnsignedFraction, SignedFraction, BuildFlags;
    var payload := FullPayload(UnsignedFraction(p.baseHdrHeadroom), UnsignedFraction(p.alternateHdrHeadroom), WrittenChannels(p));
    HeadParts(Framing(format), BuildFlags(p), payload);
  }

  lemma HeadParts(framing: seq<Byte>, flags: Byte, payload: seq<Byte>)
    ensures var out, at := framing + [0, 0, 0, 0, flags] + payload, |framing|;
            && out[..at] == framing && out[at..at + 4] == [0, 0, 0, 0] && out[at + 4] == flags
            && At(out, at + 5, payload)
  {
    AtWhole(framing + [0, 0, 0, 0, flags], payload, []);
    assert framing + [0, 0, 0, 0, flags] + payload + [] == framing + [0, 0, 0, 0, flags] + payload;
  }
}
