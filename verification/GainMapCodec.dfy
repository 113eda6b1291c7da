/**
 The gain-map reader and writer as the source runs them: an advancing offset, a channel loop, and
 bytes appended to a growing buffer (src/gainmap.rs). Proved equal to the functions of `GainMap`.
 */
module GainMapCodec {
  import opened Words
  import opened Bytes
  import opened GainMap
  import ContinuedFraction

  method UnsignedFromF64Cf(value: real) returns (f: Fraction)
    ensures f == UnsignedFraction(value)
  {
    var v := if value < 0.0 then 0.0 else value;
    var ok, n, d := ContinuedFraction.FloatToUnsignedFraction(v, U32_MAX);
    if !ok {
      return Fraction(0, 1);
    }
    ApproximateBounds(v, U32_MAX);
    return Fraction(n, d);
  }

  method SignedFromF64Cf(value: real) returns (f: Fraction)
    ensures f == SignedFraction(value)
  {
    var v := if value < 0.0 then -value else value;
    var ok, n, d := ContinuedFraction.FloatToUnsignedFraction(v, I32_MAX);
    if !ok {
      return Fraction(0, 1);
    }
    ApproximateBounds(v, I32_MAX);
    return Fraction(if value < 0.0 then NegI32(ToI32(n)) else ToI32(n), d);
  }

  // ----- reading -----

  /** Once a channel cannot be read, reading more channels fails the same way. */
  lemma {:induction false} ChannelErrorStays(data: seq<Byte>, off: nat, k: nat, n: nat, common: Option<U32>)
    requires k <= n && ReadChannels(data, off, k, common).Err?
    ensures ReadChannels(data, off, n, common).Err?
    ensures ReadChannels(data, off, n, common).error == ReadChannels(data, off, k, common).error
  {
    hide ReadChannel, ReadCompactChannel;
    if k < n {
      ChannelErrorStays(data, off, k, n - 1, common);
    }
  }

  lemma ChannelStep(data: seq<Byte>, off: nat, k: nat, n: nat, common: Option<U32>)
    requires k < n && ReadChannels(data, off, k, common).Ok?
    ensures var (init, mid) := ReadChannels(data, off, k, common).value;
            var next := if common.None? then ReadChannel(data, mid) else ReadCompactChannel(data, mid, common.value);
            && (next.Ok? ==> ReadChannels(data, off, k + 1, common) == Ok((init + [next.value.0], next.value.1)))
            && (next.Err? ==> ReadChannels(data, off, n, common) == Err(next.error))
  {
    hide ReadChannel, ReadCompactChannel;
    if ReadChannels(data, off, k + 1, common).Err? {
      ChannelErrorStays(data, off, k + 1, n, common);
    }
  }

  const DEFAULT_CHANNEL := Channel(0.0, 0.0, 1.0, 1.0 / 64.0, 1.0 / 64.0)

  /** The channel loop of both payload parsers. */
  method ParseChannels(data: seq<Byte>, start: nat, n: nat, common: Option<U32>)
    returns (r: Result<(seq<Channel>, nat), ParseError>)
    requires n == 1 || n == 3
    ensures r.Err? <==> ReadChannels(data, start, n, common).Err?
    ensures r.Err? ==> r == ReadChannels(data, start, n, common)
    ensures r.Ok? ==> r.value == (Replicate(ReadChannels(data, start, n, common).value.0),
                                  ReadChannels(data, start, n, common).value.1)
  {
    hide ReadChannel, ReadCompactChannel;
    var offset: nat := start;
    var channels := [DEFAULT_CHANNEL, DEFAULT_CHANNEL, DEFAULT_CHANNEL];
    for ch := 0 to n
      invariant |channels| == 3
      invariant ReadChannels(data, start, ch, common) == Ok((channels[..ch], offset))
    {
      ChannelStep(data, start, ch, n, common);
      var next := if common.None? then ReadChannel(data, offset) else ReadCompactChannel(data, offset, common.value);
      if next.Err? {
        return Err(next.error);
      }
      var (c, end) := next.value;
      channels := channels[ch := c];
      assert channels[..ch + 1] == channels[..ch] + [c];
      offset := end;
    }
    // Single-channel: replicate to all three.
    if n == 1 {
      channels := channels[1 := channels[0]];
      channels := channels[2 := channels[0]];
    }
    assert channels == Replicate(ReadChannels(data, start, n, common).value.0);
    return Ok((channels, offset));
  }

  method ParsePayloadFull(data: seq<Byte>, start: nat, n: nat, useBase: bool, backward: bool)
    returns (r: Result<(Params, nat), ParseError>)
    requires n == 1 || n == 3
    ensures r == ParseFull(data, start, n, useBase, backward)
  {
    hide ReadFraction, ReadChannels, Replicate;
    var baseRead :- ReadFraction(data, start, false, "base_hdr_headroom");
    var (base, o1) := baseRead;
    var altRead :- ReadFraction(data, o1, false, "alternate_hdr_headroom");
    var (alt, o2) := altRead;
    var channels := ParseChannels(data, o2, n, None);
    if channels.Err? {
      return Err(channels.error);
    }
    return Ok((Params(channels.value.0, base.Value(), alt.Value(), useBase, backward), channels.value.1));
  }

  method ParsePayloadCommonDenominator(data: seq<Byte>, start: nat, n: nat, useBase: bool, backward: bool)
    returns (r: Result<(Params, nat), ParseError>)
    requires n == 1 || n == 3
    ensures r == ParseCompact(data, start, n, useBase, backward)
  {
    hide ReadU32, ReadChannels, Replicate;
    var dRead :- ReadU32(data, start);
    var (d, o1) := dRead;
    if d == 0 {
      return Err(ZeroDenominator("common_denominator"));
    }
    var baseRead :- ReadU32(data, o1);
    var (base, o2) := baseRead;
    var altRead :- ReadU32(data, o2);
    var (alt, o3) := altRead;
    var channels := ParseChannels(data, o3, n, Some(d));
    if channels.Err? {
      return Err(channels.error);
    }
    return Ok((Params(channels.value.0, Fraction(base, d).Value(), Fraction(alt, d).Value(), useBase, backward),
               channels.value.1));
  }

  // ----- writing -----

  method WriteFraction(data: seq<Byte>, f: Fraction) returns (out: seq<Byte>)
    requires -0x8000_0000 <= f.numerator <= U32_MAX
    ensures out == data + EncFraction(f)
  {
    out := data + EncNumerator(f.numerator);
    out := out + Enc32(f.denominator, Big);
  }

  method WriteChannel(data: seq<Byte>, c: Channel) returns (out: seq<Byte>)
    ensures out == data + EncChannel(FractionsOf(c))
  {
    hide EncFraction, SignedFraction, UnsignedFraction;
    var min := SignedFromF64Cf(c.min);
    out := WriteFraction(data, min);
    var max := SignedFromF64Cf(c.max);
    out := WriteFraction(out, max);
    var gamma := UnsignedFromF64Cf(c.gamma);
    out := WriteFraction(out, gamma);
    var base := SignedFromF64Cf(c.baseOffset);
    out := WriteFraction(out, base);
    var alt := SignedFromF64Cf(c.alternateOffset);
    out := WriteFraction(out, alt);
    FiveConcat(data, EncFraction(min), EncFraction(max), EncFraction(gamma), EncFraction(base), EncFraction(alt));
  }

  lemma FiveConcat<T>(d: seq<T>, a: seq<T>, b: seq<T>, c: seq<T>, e: seq<T>, f: seq<T>)
    ensures d + a + b + c + e + f == d + (a + (b + (c + (e + f))))
  {
  }

  method WritePayload(data: seq<Byte>, p: Params) returns (out: seq<Byte>)
    requires p.Valid()
    ensures out == data + FullPayload(UnsignedFraction(p.baseHdrHeadroom), UnsignedFraction(p.alternateHdrHeadroom),
                                      WrittenChannels(p))
  {
    hide EncFraction, FractionsOf, UnsignedFraction, EncChannel, EncChannels;
    var n := if p.IsSingleChannel() then 1 else 3;
    ghost var fs := WrittenChannels(p);
    var base := UnsignedFromF64Cf(p.baseHdrHeadroom);
    out := WriteFraction(data, base);
    var alt := UnsignedFromF64Cf(p.alternateHdrHeadroom);
    out := WriteFraction(out, alt);
    ghost var head := out;
    NoChannels(fs);
    for ch := 0 to n
      invariant out == head + EncChannels(fs[..ch])
    {
      EncChannelsStep(fs, ch);
      assert fs[ch] == FractionsOf(p.channels[ch]);
      out := WriteChannel(out, p.channels[ch]);
    }
    assert fs[..n] == fs;
    ThreeConcat(data, EncFraction(base), EncFraction(alt), EncChannels(fs));
  }

  lemma NoChannels(fs: seq<ChannelFractions>)
    ensures EncChannels(fs[..0]) == []
  {
  }

  lemma EncChannelsStep(fs: seq<ChannelFractions>, k: nat)
    requires k < |fs| && forall k :: 0 <= k < |fs| ==> fs[k].Valid()
    ensures EncChannels(fs[..k + 1]) == EncChannels(fs[..k]) + EncChannel(fs[k])
  {
    assert fs[..k + 1][..k] == fs[..k];
  }

  lemma ThreeConcat<T>(d: seq<T>, a: seq<T>, b: seq<T>, c: seq<T>)
    ensures d + a + b + c == d + (a + (b + c))
  {
  }

  /** Existing contents are kept; the metadata is appended. */
  method SerializeInto(p: Params, format: Format, out0: seq<Byte>) returns (out: seq<Byte>)
    requires p.Valid()
    ensures out == out0 + Serialize(p, format)
  {
    hide FullPayload, WrittenChannels, UnsignedFraction;
    out := out0 + Framing(format);
    out := out + [0, 0];
    out := out + [0, 0];
    out := out + [BuildFlags(p)];
    ghost var payload := FullPayload(UnsignedFraction(p.baseHdrHeadroom), UnsignedFraction(p.alternateHdrHeadroom),
                                     WrittenChannels(p));
    assert out == out0 + Header(format, BuildFlags(p));
    out := WritePayload(out, p);
    assert out == out0 + (Header(format, BuildFlags(p)) + payload);
  }
}
