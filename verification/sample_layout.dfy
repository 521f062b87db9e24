/** The record layout of perf_examples/sample_parser.h: the
    `perf_mem_data_src` union of a 64-bit value and its bit-fields, and the
    packed 32-byte `sample_t`. Words are sets of 1-bit positions, as in
    module Words; the byte image of a record is little-endian. */
module SampleLayout {
  import opened Words

  type Byte = x: nat | x < 256

  /** The bit-fields of `perf_mem_data_src`, least significant first. */
  const OpLo: nat := 0
  const OpWidth: nat := 5
  const LvlLo: nat := 5
  const LvlWidth: nat := 14
  const SnoopLo: nat := 19
  const SnoopWidth: nat := 5
  const LockLo: nat := 24
  const LockWidth: nat := 2
  const DtlbLo: nat := 26
  const DtlbWidth: nat := 7
  const RsvdLo: nat := 33
  const RsvdWidth: nat := 31

  /** The struct view of the union. */
  datatype MemDataSrc = MemDataSrc(op: Word, lvl: Word, snoop: Word, lock: Word, dtlb: Word, rsvd: Word)

  /** Every field value fits its declared width. */
  predicate FieldsFit(f: MemDataSrc) {
    && Fits(f.op, OpWidth) && Fits(f.lvl, LvlWidth) && Fits(f.snoop, SnoopWidth)
    && Fits(f.lock, LockWidth) && Fits(f.dtlb, DtlbWidth) && Fits(f.rsvd, RsvdWidth)
  }

  /** Reading the fields of the union through its struct view. */
  function Unpack(v: Word): (f: MemDataSrc)
    ensures FieldsFit(f)
  {
    MemDataSrc(Field(v, OpLo, OpWidth), Field(v, LvlLo, LvlWidth), Field(v, SnoopLo, SnoopWidth),
               Field(v, LockLo, LockWidth), Field(v, DtlbLo, DtlbWidth), Field(v, RsvdLo, RsvdWidth))
  }

  /** The union's `val` for given field values. */
  function Pack(f: MemDataSrc): (v: Word)
    ensures Fits(v, 64)
  {
    Shl(f.op, OpLo, 64) + Shl(f.lvl, LvlLo, 64) + Shl(f.snoop, SnoopLo, 64)
    + Shl(f.lock, LockLo, 64) + Shl(f.dtlb, DtlbLo, 64) + Shl(f.rsvd, RsvdLo, 64)
  }

  /** The fields tile the 64 bits: they are adjacent and their widths add up
      to 64. */
  lemma FieldsTile()
    ensures OpLo == 0 && OpLo + OpWidth == LvlLo && LvlLo + LvlWidth == SnoopLo
    ensures SnoopLo + SnoopWidth == LockLo && LockLo + LockWidth == DtlbLo
    ensures DtlbLo + DtlbWidth == RsvdLo && RsvdLo + RsvdWidth == 64
  {
  }

  /** Packing the fields read from a 64-bit value gives the value back. */
  lemma PackUnpack(v: Word)
    requires Fits(v, 64)
    ensures Pack(Unpack(v)) == v
  {
    var p := Pack(Unpack(v));
    forall b | b in v
      ensures b in p
    {
      if b < LvlLo { assert b - OpLo in Unpack(v).op; }
      else if b < SnoopLo { assert b - LvlLo in Unpack(v).lvl; }
      else if b < LockLo { assert b - SnoopLo in Unpack(v).snoop; }
      else if b < DtlbLo { assert b - LockLo in Unpack(v).lock; }
      else if b < RsvdLo { assert b - DtlbLo in Unpack(v).dtlb; }
      else { assert b - RsvdLo in Unpack(v).rsvd; }
    }
  }

  /** Field values that fit their widths read back unchanged. */
  lemma UnpackPack(f: MemDataSrc)
    requires FieldsFit(f)
    ensures Unpack(Pack(f)) == f
  {
    var v := Pack(f);
    assert Field(v, OpLo, OpWidth) == f.op;
    assert Field(v, LvlLo, LvlWidth) == f.lvl;
    assert Field(v, SnoopLo, SnoopWidth) == f.snoop;
    assert Field(v, LockLo, LockWidth) == f.lock;
    assert Field(v, DtlbLo, DtlbWidth) == f.dtlb;
    assert Field(v, RsvdLo, RsvdWidth) == f.rsvd;
  }

  /** `mem_lvl` is `(val >> 5) & 0x3fff`. */
  lemma LevelFieldOfValue(v: Word)
    ensures Unpack(v).lvl == Shr(v, LvlLo) * Span(0, LvlWidth)
  {
  }

  // ---------------------------------------------------------------------
  // Little-endian byte images
  // ---------------------------------------------------------------------

  /** The byte of `w` at bit `lo`. */
  function ByteAt(w: Word, lo: nat): (x: Byte)
    ensures x == Value(w, lo, 8)
  {
    ValueBound(w, lo, 8);
    assert Pow2(8) == 256;
    Value(w, lo, 8)
  }

  /** The `n` bytes of `w` from bit `lo` on, least significant first. */
  function ToBytes(w: Word, lo: nat, n: nat): (bs: seq<Byte>)
    ensures |bs| == n
    decreases n
  {
    if n == 0 then [] else [ByteAt(w, lo)] + ToBytes(w, lo + 8, n - 1)
  }

  /** The word whose bytes from bit `lo` on are `bs`. */
  function FromBytes(bs: seq<Byte>, lo: nat): Word
    decreases |bs|
  {
    if |bs| == 0 then {} else OfNat(bs[0], lo, 8) + FromBytes(bs[1..], lo + 8)
  }

  /** Writing a field's value back into the field gives the field's bits. */
  lemma {:induction false} OfNatValue(w: Word, lo: nat, n: nat)
    ensures forall b :: b in OfNat(Value(w, lo, n), lo, n) <==> b in w && lo <= b < lo + n
    decreases n
  {
    if n > 0 {
      OfNatValue(w, lo + 1, n - 1);
      var x := Value(w, lo, n);
      assert x % 2 == (if lo in w then 1 else 0) && x / 2 == Value(w, lo + 1, n - 1);
    }
  }

  /** `FromBytes` only sets bits inside its bytes. */
  lemma {:induction false} FromBytesInRange(bs: seq<Byte>, lo: nat)
    ensures forall b :: b in FromBytes(bs, lo) ==> lo <= b < lo + 8 * |bs|
    decreases |bs|
  {
    if |bs| > 0 {
      OfNatInField(bs[0], lo, 8);
      FromBytesInRange(bs[1..], lo + 8);
    }
  }

  /** The bytes of a word put together give the word's bits in their range. */
  lemma {:induction false} FromToBytes(w: Word, lo: nat, n: nat)
    ensures forall b :: b in FromBytes(ToBytes(w, lo, n), lo) <==> b in w && lo <= b < lo + 8 * n
    decreases n
  {
    if n > 0 {
      var bs := ToBytes(w, lo, n);
      assert bs[1..] == ToBytes(w, lo + 8, n - 1);
      OfNatValue(w, lo, 8);
      FromToBytes(w, lo + 8, n - 1);
    }
  }

  /** The bytes of the word put together from `bs` are `bs`. */
  lemma {:induction false} ToFromBytes(bs: seq<Byte>, lo: nat)
    ensures ToBytes(FromBytes(bs, lo), lo, |bs|) == bs
    decreases |bs|
  {
    if |bs| > 0 {
      var w := FromBytes(bs, lo);
      assert w == OfNat(bs[0], lo, 8) + FromBytes(bs[1..], lo + 8);
      FromBytesInRange(bs[1..], lo + 8);
      assert bs[0] < Pow2(8) by {
        assert Pow2(8) == 256;
      }
      ValueOfNat(bs[0], lo, 8, w);
      OfNatInField(bs[0], lo, 8);
      forall b | lo + 8 <= b
        ensures b in w <==> b in FromBytes(bs[1..], lo + 8)
      {
      }
      ByteRangeOnly(w, FromBytes(bs[1..], lo + 8), lo + 8, |bs| - 1);
      ToFromBytes(bs[1..], lo + 8);
    }
  }

  /** Bytes are read only from their own bits: two words that agree from bit
      `lo` on have the same bytes there. */
  lemma {:induction false} ByteRangeOnly(w: Word, w': Word, lo: nat, n: nat)
    requires forall b :: lo <= b ==> (b in w <==> b in w')
    ensures ToBytes(w, lo, n) == ToBytes(w', lo, n)
    decreases n
  {
    if n > 0 {
      ValueAgree(w, w', lo, 8);
      ByteRangeOnly(w, w', lo + 8, n - 1);
    }
  }

  /** A field's value depends only on the field's bits. */
  lemma {:induction false} ValueAgree(w: Word, w': Word, lo: nat, n: nat)
    requires forall b :: lo <= b < lo + n ==> (b in w <==> b in w')
    ensures Value(w, lo, n) == Value(w', lo, n)
    decreases n
  {
    if n > 0 {
      ValueAgree(w, w', lo + 1, n - 1);
    }
  }

  // ---------------------------------------------------------------------
  // sample_t
  // ---------------------------------------------------------------------

  /** A memory sample: instruction pointer, data address, weight (cost) and
      data source, each a 64-bit value. */
  datatype Sample = Sample(ip: Word, addr: Word, weight: Word, dataSrc: Word)

  predicate SampleFits(s: Sample) {
    Fits(s.ip, 64) && Fits(s.addr, 64) && Fits(s.weight, 64) && Fits(s.dataSrc, 64)
  }

  /** Byte offsets of the packed fields, and the record size. */
  const IpOffset: nat := 0
  const AddrOffset: nat := 8
  const WeightOffset: nat := 16
  const DataSrcOffset: nat := 24
  const SampleSize: nat := 32

  /** The memory image of a packed `sample_t`. */
  function SampleBytes(s: Sample): (bs: seq<Byte>)
    ensures |bs| == SampleSize
  {
    ToBytes(s.ip, 0, 8) + ToBytes(s.addr, 0, 8) + ToBytes(s.weight, 0, 8) + ToBytes(s.dataSrc, 0, 8)
  }

  /** Each field occupies its own 8 bytes of the image, at its offset. */
  lemma SampleFieldOffsets(s: Sample)
    ensures SampleBytes(s)[IpOffset..AddrOffset] == ToBytes(s.ip, 0, 8)
    ensures SampleBytes(s)[AddrOffset..WeightOffset] == ToBytes(s.addr, 0, 8)
    ensures SampleBytes(s)[WeightOffset..DataSrcOffset] == ToBytes(s.weight, 0, 8)
    ensures SampleBytes(s)[DataSrcOffset..SampleSize] == ToBytes(s.dataSrc, 0, 8)
  {
    var a, b, c, d := ToBytes(s.ip, 0, 8), ToBytes(s.addr, 0, 8), ToBytes(s.weight, 0, 8), ToBytes(s.dataSrc, 0, 8);
    assert SampleBytes(s) == a + b + c + d;
    Quarters(a, b, c, d);
  }

  /** Slicing four 8-byte pieces out of their concatenation. */
  lemma Quarters(a: seq<Byte>, b: seq<Byte>, c: seq<Byte>, d: seq<Byte>)
    requires |a| == 8 && |b| == 8 && |c| == 8 && |d| == 8
    ensures (a + b + c + d)[0..8] == a && (a + b + c + d)[8..16] == b
    ensures (a + b + c + d)[16..24] == c && (a + b + c + d)[24..32] == d
  {
  }

  /** A 64-bit word read back from its 8 bytes. */
  lemma WordBytes(w: Word)
    requires Fits(w, 64)
    ensures FromBytes(ToBytes(w, 0, 8), 0) == w
  {
    FromToBytes(w, 0, 8);
  }

  /** Reading a `sample_t` from 32 bytes. */
  function ParseSample(bs: seq<Byte>): (s: Sample)
    requires |bs| == SampleSize
  {
    Sample(FromBytes(bs[IpOffset..AddrOffset], 0), FromBytes(bs[AddrOffset..WeightOffset], 0),
           FromBytes(bs[WeightOffset..DataSrcOffset], 0), FromBytes(bs[DataSrcOffset..SampleSize], 0))
  }

  /** A record read back from its image is the record. */
  lemma ParseSampleBytes(s: Sample)
    requires SampleFits(s)
    ensures ParseSample(SampleBytes(s)) == s
  {
    SampleFieldOffsets(s);
    WordBytes(s.ip);
    WordBytes(s.addr);
    WordBytes(s.weight);
    WordBytes(s.dataSrc);
  }

  /** The fields read from 32 bytes fit 64 bits. */
  lemma ParsedSampleFits(bs: seq<Byte>)
    requires |bs| == SampleSize
    ensures SampleFits(ParseSample(bs))
  {
    FromBytesInRange(bs[0..8], 0);
    FromBytesInRange(bs[8..16], 0);
    FromBytesInRange(bs[16..24], 0);
    FromBytesInRange(bs[24..32], 0);
  }

  /** Eight bytes read back from the word they make up. */
  lemma BytesWord(x: seq<Byte>)
    requires |x| == 8
    ensures ToBytes(FromBytes(x, 0), 0, 8) == x
  {
    ToFromBytes(x, 0);
  }

  /** 32 bytes are their four quarters put back together. */
  lemma Rejoin(bs: seq<Byte>)
    requires |bs| == SampleSize
    ensures bs == bs[0..8] + bs[8..16] + bs[16..24] + bs[24..32]
  {
    assert bs == bs[0..16] + bs[16..32];
    assert bs[0..16] == bs[0..8] + bs[8..16];
    assert bs[16..32] == bs[16..24] + bs[24..32];
  }

  /** Every 32-byte image is the image of the record read from it. */
  lemma SampleBytesParse(bs: seq<Byte>)
    requires |bs| == SampleSize
    ensures SampleBytes(ParseSample(bs)) == bs
  {
    var a, b, c, d := bs[0..8], bs[8..16], bs[16..24], bs[24..32];
    var s := ParseSample(bs);
    assert s == Sample(FromBytes(a, 0), FromBytes(b, 0), FromBytes(c, 0), FromBytes(d, 0));
    BytesWord(a);
    BytesWord(b);
    BytesWord(c);
    BytesWord(d);
    assert SampleBytes(s) == a + b + c + d;
    Rejoin(bs);
  }
}
