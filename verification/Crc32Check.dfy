/**
 What the checksum is for: a message followed by its checksum, lowest byte first, leaves the
 register at one constant, and no other four bytes do.
 */
module Crc32Check {
  import opened Crc32

  const RESIDUE: bv32 := 0xdebb_20e3

  /** The four bytes of a word, lowest first. */
  function WordBytes(w: bv32): (bs: seq<bv8>)
    ensures |bs| == 4
  {
    [Low(w), Low(High(w)), Low(High(High(w))), Low(High(High(High(w))))]
  }

  lemma {:induction false} LowBitsSplit(w: bv32, m: nat, n: nat)
    ensures LowBits(w, m + n) == LowBits(w, m) + LowBits(HalfTimes(w, m), n)
    decreases m
  {
    hide Half, Odd;
    if m != 0 {
      LowBitsSplit(Half(w), m - 1, n);
    }
  }

  lemma EightMore(w: bv32, n: nat)
    ensures LowBits(w, 8 + n) == ByteBits(Low(w)) + LowBits(High(w), n)
  {
    hide LowBits, ByteBits, HalfTimes, Low, High;
    LowBitsSplit(w, 8, n);
    LowByte(w);
    EightHalves(w);
  }

  lemma BitsOfOne(a: bv8)
    ensures Bits([a]) == ByteBits(a)
  {
    hide ByteBits;
    assert [a][..0] == [] && Bits([a]) == Bits([a][..0]) + ByteBits(a);
  }

  lemma BitsOfTwo(a: bv8, b: bv8)
    ensures Bits([a, b]) == ByteBits(a) + ByteBits(b)
  {
    hide ByteBits, Bits;
    BitsConcat([a], [b]);
    BitsOfOne(a);
    BitsOfOne(b);
    assert [a] + [b] == [a, b];
  }

  lemma BitsOfFour(a: bv8, b: bv8, c: bv8, d: bv8)
    ensures Bits([a, b, c, d]) == ByteBits(a) + (ByteBits(b) + (ByteBits(c) + (ByteBits(d) + [])))
  {
    hide ByteBits, Bits;
    BitsConcat([a, b], [c, d]);
    BitsOfTwo(a, b);
    BitsOfTwo(c, d);
    assert [a, b] + [c, d] == [a, b, c, d];
  }

  /** The bits of a word are those of its four bytes. */
  lemma BitsOfWord(w: bv32)
    ensures Bits(WordBytes(w)) == LowBits(w, 32)
  {
    hide Bits, LowBits, ByteBits, Low, High;
    var w1, w2, w3 := High(w), High(High(w)), High(High(High(w)));
    EightMore(w, 24);
    EightMore(w1, 16);
    EightMore(w2, 8);
    EightMore(w3, 0);
    BitsOfFour(Low(w), Low(w1), Low(w2), Low(w3));
    assert LowBits(High(w3), 0) == [];
  }

  lemma {:induction false} HalvedTimesSum(crc: bv32, m: nat, n: nat)
    ensures HalvedTimes(crc, m + n) == HalvedTimes(HalvedTimes(crc, m), n)
    decreases m
  {
    hide Halved;
    if m != 0 {
      HalvedTimesSum(Halved(crc), m - 1, n);
    }
  }

  lemma FourDivided()
    ensures Divided(0xffff_ffff) == 0x2dfd_1072 && Divided(0x2dfd_1072) == 0xbe26_ed00
    ensures Divided(0xbe26_ed00) == 0x00be_26ed && Divided(0x00be_26ed) == RESIDUE
  {
  }

  /** All ones, moved on by 32 zero bits. */
  lemma OnesHalved()
    ensures HalvedTimes(0xffff_ffff, 32) == RESIDUE
  {
    hide HalvedTimes, Divided;
    FourDivided();
    HalvedTimesSum(0xffff_ffff, 8, 24);
    EightHalved(0xffff_ffff);
    HalvedTimesSum(0x2dfd_1072, 8, 16);
    EightHalved(0x2dfd_1072);
    HalvedTimesSum(0xbe26_ed00, 8, 8);
    EightHalved(0xbe26_ed00);
    EightHalved(0x00be_26ed);
  }

  lemma XorComplement(w: bv32)
    ensures Xor(w, !w) == 0xffff_ffff
  {
  }

  /** A register's complement takes it to the constant. */
  lemma ComplementClears(crc: bv32)
    ensures ShiftBits(crc, LowBits(!crc, 32)) == RESIDUE
  {
    hide ShiftBits, LowBits, HalfTimes, HalvedTimes, Xor;
    MixedWord(crc, !crc, 32);
    XorComplement(crc);
    OnesHalved();
    AllHalves(!crc);
    XorZero(ShiftBits(crc, LowBits(!crc, 32)));
  }

  lemma RegisterConcat(a: seq<bv8>, b: seq<bv8>)
    ensures Register(a + b) == ShiftBits(Register(a), Bits(b))
  {
    hide ShiftBits, Bits;
    BitsConcat(a, b);
    ShiftConcat(0xffff_ffff, Bits(a), Bits(b));
  }

  /** After a message, four bytes take the register to the constant exactly when they are its checksum. */
  lemma ResidueExactly(buf: seq<bv8>, tail: seq<bv8>)
    requires |tail| == 4
    ensures Register(buf + tail) == RESIDUE <==> tail == WordBytes(Checksum(buf))
  {
    hide ShiftBits, Bits, Register, LowBits, WordBytes, Near, Ones;
    var crc, own := Register(buf), WordBytes(Checksum(buf));
    RegisterConcat(buf, tail);
    ComplementClears(crc);
    BitsOfWord(Checksum(buf));
    BitsInjective(tail, own);
    if Register(buf + tail) == RESIDUE {
      NearItself(RESIDUE);
      WordsApart(crc, Bits(tail), Bits(own), 0);
    }
  }

  lemma NearItself(w: bv32)
    ensures Near(w, w, Ones(0))
  {
  }

  lemma ThreeBytes(buf: seq<bv8>, a: bv8, b: bv8, c: bv8)
    ensures Register(buf + [a, b, c]) == NextCrc(NextCrc(NextCrc(Register(buf), a), b), c)
  {
    hide ShiftBits, ByteBits, Bits, NextCrc, Register;
    var crc := Register(buf);
    RegisterConcat(buf, [a, b, c]);
    BitsConcat([a, b], [c]);
    assert [a, b] + [c] == [a, b, c];
    BitsOfTwo(a, b);
    BitsOfOne(c);
    ShiftConcat(crc, ByteBits(a) + ByteBits(b), ByteBits(c));
    ShiftConcat(crc, ByteBits(a), ByteBits(b));
    NextCrcIsEightShifts(crc, a);
    NextCrcIsEightShifts(NextCrc(crc, a), b);
    NextCrcIsEightShifts(NextCrc(NextCrc(crc, a), b), c);
  }

  lemma FirstSteps()
    ensures NextCrc(0xffff_ffff, 0x31) == 0x7c23_1048 && NextCrc(0x7c23_1048, 0x32) == 0xb0ac_bb32
    ensures NextCrc(0xb0ac_bb32, 0x33) == 0x77b7_9c2d
  {
  }

  lemma NextSteps()
    ensures NextCrc(0x77b7_9c2d, 0x34) == 0x641c_1f5c && NextCrc(0x641c_1f5c, 0x35) == 0x340a_c5e3
    ensures NextCrc(0x340a_c5e3, 0x36) == 0xf68d_2c9e
  {
  }

  lemma LastSteps()
    ensures NextCrc(0xf68d_2c9e, 0x37) == 0xaffc_9660 && NextCrc(0xaffc_9660, 0x38) == 0x651f_2550
    ensures NextCrc(0x651f_2550, 0x39) == 0x340b_c6d9
  {
  }

  /** The empty message, and the digits 1 to 9, by which implementations of this CRC are compared. */
  lemma CheckValues()
    ensures Checksum([]) == 0
    ensures Checksum([] + [0x31, 0x32, 0x33] + [0x34, 0x35, 0x36] + [0x37, 0x38, 0x39]) == 0xcbf4_3926
  {
    assert Register([]) == 0xffff_ffff;
    hide Register, NextCrc;
    FirstSteps();
    NextSteps();
    LastSteps();
    ThreeBytes([], 0x31, 0x32, 0x33);
    ThreeBytes([] + [0x31, 0x32, 0x33], 0x34, 0x35, 0x36);
    ThreeBytes([] + [0x31, 0x32, 0x33] + [0x34, 0x35, 0x36], 0x37, 0x38, 0x39);
  }
}
