/** Byte sequences: 16- and 32-bit integers in either byte order, and placed sub-sequences. */
module Bytes {
  import opened Words

  datatype ByteOrder = Little | Big

  function Enc16(v: U16, order: ByteOrder): (b: seq<Byte>)
    ensures |b| == 2
  {
    match order
    case Little => [v % 256, v / 256]
    case Big => [v / 256, v % 256]
  }

  function Dec16(b: seq<Byte>, order: ByteOrder): U16
    requires |b| == 2
  {
    match order
    case Little => b[0] as int + 256 * b[1] as int
    case Big => b[1] as int + 256 * b[0] as int
  }

  function Enc32(v: U32, order: ByteOrder): (b: seq<Byte>)
    ensures |b| == 4
  {
    match order
    case Little => Enc16(v % 65536, Little) + Enc16(v / 65536, Little)
    case Big => Enc16(v / 65536, Big) + Enc16(v % 65536, Big)
  }

  function Dec32(b: seq<Byte>, order: ByteOrder): U32
    requires |b| == 4
  {
    match order
    case Little => Dec16(b[..2], Little) as int + 65536 * Dec16(b[2..], Little) as int
    case Big => Dec16(b[2..], Big) as int + 65536 * Dec16(b[..2], Big) as int
  }

  lemma Dec16Enc16(v: U16, order: ByteOrder)
    ensures Dec16(Enc16(v, order), order) == v
  {
  }

  lemma Dec32Enc32(v: U32, order: ByteOrder)
    ensures Dec32(Enc32(v, order), order) == v
  {
    var lo, hi := v % 65536, v / 65536;
    Dec16Enc16(lo, order);
    Dec16Enc16(hi, order);
    var b := Enc32(v, order);
    match order {
      case Little =>
        assert b[..2] == Enc16(lo, order) && b[2..] == Enc16(hi, order);
      case Big =>
        assert b[..2] == Enc16(hi, order) && b[2..] == Enc16(lo, order);
    }
  }

  /** The first byte is the most significant in big-endian order and the least in little-endian order. */
  lemma Dec32Positional(b: seq<Byte>)
    requires |b| == 4
    ensures Dec32(b, Big) == 0x100_0000 * b[0] as int + 0x1_0000 * b[1] as int + 0x100 * b[2] as int + b[3] as int
    ensures Dec32(b, Little) == 0x100_0000 * b[3] as int + 0x1_0000 * b[2] as int + 0x100 * b[1] as int + b[0] as int
    ensures Dec16(b[..2], Big) == 0x100 * b[0] as int + b[1] as int && Dec16(b[..2], Little) == 0x100 * b[1] as int + b[0] as int
  {
  }

  // ----- placed sub-sequences -----

  /** `bytes` stand in `data` at offset `off`. */
  predicate At(data: seq<Byte>, off: nat, bytes: seq<Byte>) {
    off + |bytes| <= |data| && data[off..off + |bytes|] == bytes
  }

  lemma AtSplit(data: seq<Byte>, off: nat, a: seq<Byte>, b: seq<Byte>)
    requires At(data, off, a + b)
    ensures At(data, off, a) && At(data, off + |a|, b)
  {
    var both := data[off..off + |a| + |b|];
    assert both == a + b;
    assert data[off..off + |a|] == both[..|a|];
    assert data[off + |a|..off + |a| + |b|] == both[|a|..];
  }

  lemma AtWhole(a: seq<Byte>, b: seq<Byte>, c: seq<Byte>)
    ensures At(a + b + c, |a|, b)
  {
    assert (a + b + c)[|a|..|a| + |b|] == b;
  }

  lemma AtPrefix(a: seq<Byte>, b: seq<Byte>)
    ensures At(a + b, 0, a)
  {
    assert (a + b)[0..|a|] == a;
  }

  lemma AtShift(pre: seq<Byte>, data: seq<Byte>, off: nat, bytes: seq<Byte>)
    requires At(data, off, bytes)
    ensures At(pre + data, |pre| + off, bytes)
  {
    assert (pre + data)[|pre| + off..|pre| + off + |bytes|] == data[off..off + |bytes|];
  }

  lemma AtExtend(data: seq<Byte>, off: nat, bytes: seq<Byte>, more: seq<Byte>)
    requires At(data, off, bytes)
    ensures At(data + more, off, bytes)
  {
    assert (data + more)[off..off + |bytes|] == data[off..off + |bytes|];
  }
}
