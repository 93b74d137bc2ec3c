/**
 The table-driven CRC-32 of hstore (crc32.c), against the bit-by-bit checksum of
 section 8.1.1.6.2 of ITU-T V.42, and the burst errors it is bound to notice.
 */
module Crc32 {
  /** The AUTODIN II polynomial, lowest power in the highest bit. */
  const POLYNOMIAL: bv32 := 0xedb8_8320

  /** The register after one message bit has been shifted in. */
  function Shift(crc: bv32, bit: bool): bv32 {
    if (crc & 1 == 1) != bit then (crc >> 1) ^ POLYNOMIAL else crc >> 1
  }

  function ShiftBits(crc: bv32, bits: seq<bool>): bv32 {
    if bits == [] then crc else Shift(ShiftBits(crc, bits[..|bits| - 1]), bits[|bits| - 1])
  }

  /** The bits of one byte in transmission order, lowest first. */
  function ByteBits(b: bv8): (bits: seq<bool>)
    ensures |bits| == 8
  {
    [b & 0x01 != 0, b & 0x02 != 0, b & 0x04 != 0, b & 0x08 != 0,
     b & 0x10 != 0, b & 0x20 != 0, b & 0x40 != 0, b & 0x80 != 0]
  }

  function Bits(buf: seq<bv8>): seq<bool> {
    if buf == [] then [] else Bits(buf[..|buf| - 1]) + ByteBits(buf[|buf| - 1])
  }

  /** The register after a whole message, from all ones. */
  function Register(buf: seq<bv8>): bv32 {
    ShiftBits(0xffff_ffff, Bits(buf))
  }

  /** The checksum by its definition: all message bits in turn, from all ones, complemented. */
  function Checksum(buf: seq<bv8>): bv32 {
    !Register(buf)
  }

  // ---------- The table ----------

  function Row0(low: bv4): bv32 {
    if low == 0 then 0x0000_0000 else if low == 1 then 0x7707_3096 else if low == 2 then 0xee0e_612c else
    if low == 3 then 0x9909_51ba else if low == 4 then 0x076d_c419 else if low == 5 then 0x706a_f48f else
    if low == 6 then 0xe963_a535 else if low == 7 then 0x9e64_95a3 else if low == 8 then 0x0edb_8832 else
    if low == 9 then 0x79dc_b8a4 else if low == 10 then 0xe0d5_e91e else if low == 11 then 0x97d2_d988 else
    if low == 12 then 0x09b6_4c2b else if low == 13 then 0x7eb1_7cbd else if low == 14 then 0xe7b8_2d07 else
    0x90bf_1d91
  }

  function Row1(low: bv4): bv32 {
    if low == 0 then 0x1db7_1064 else if low == 1 then 0x6ab0_20f2 else if low == 2 then 0xf3b9_7148 else
    if low == 3 then 0x84be_41de else if low == 4 then 0x1ada_d47d else if low == 5 then 0x6ddd_e4eb else
    if low == 6 then 0xf4d4_b551 else if low == 7 then 0x83d3_85c7 else if low == 8 then 0x136c_9856 else
    if low == 9 then 0x646b_a8c0 else if low == 10 then 0xfd62_f97a else if low == 11 then 0x8a65_c9ec else
    if low == 12 then 0x1401_5c4f else if low == 13 then 0x6306_6cd9 else if low == 14 then 0xfa0f_3d63 else
    0x8d08_0df5
  }

  function Row2(low: bv4): bv32 {
    if low == 0 then 0x3b6e_20c8 else if low == 1 then 0x4c69_105e else if low == 2 then 0xd560_41e4 else
    if low == 3 then 0xa267_7172 else if low == 4 then 0x3c03_e4d1 else if low == 5 then 0x4b04_d447 else
    if low == 6 then 0xd20d_85fd else if low == 7 then 0xa50a_b56b else if low == 8 then 0x35b5_a8fa else
    if low == 9 then 0x42b2_986c else if low == 10 then 0xdbbb_c9d6 else if low == 11 then 0xacbc_f940 else
    if low == 12 then 0x32d8_6ce3 else if low == 13 then 0x45df_5c75 else if low == 14 then 0xdcd6_0dcf else
    0xabd1_3d59
  }

  function Row3(low: bv4): bv32 {
    if low == 0 then 0x26d9_30ac else if low == 1 then 0x51de_003a else if low == 2 then 0xc8d7_5180 else
    if low == 3 then 0xbfd0_6116 else if low == 4 then 0x21b4_f4b5 else if low == 5 then 0x56b3_c423 else
    if low == 6 then 0xcfba_9599 else if low == 7 then 0xb8bd_a50f else if low == 8 then 0x2802_b89e else
    if low == 9 then 0x5f05_8808 else if low == 10 then 0xc60c_d9b2 else if low == 11 then 0xb10b_e924 else
    if low == 12 then 0x2f6f_7c87 else if low == 13 then 0x5868_4c11 else if low == 14 then 0xc161_1dab else
    0xb666_2d3d
  }

  function Row4(low: bv4): bv32 {
    if low == 0 then 0x76dc_4190 else if low == 1 then 0x01db_7106 else if low == 2 then 0x98d2_20bc else
    if low == 3 then 0xefd5_102a else if low == 4 then 0x71b1_8589 else if low == 5 then 0x06b6_b51f else
    if low == 6 then 0x9fbf_e4a5 else if low == 7 then 0xe8b8_d433 else if low == 8 then 0x7807_c9a2 else
    if low == 9 then 0x0f00_f934 else if low == 10 then 0x9609_a88e else if low == 11 then 0xe10e_9818 else
    if low == 12 then 0x7f6a_0dbb else if low == 13 then 0x086d_3d2d else if low == 14 then 0x9164_6c97 else
    0xe663_5c01
  }

  function Row5(low: bv4): bv32 {
    if low == 0 then 0x6b6b_51f4 else if low == 1 then 0x1c6c_6162 else if low == 2 then 0x8565_30d8 else
    if low == 3 then 0xf262_004e else if low == 4 then 0x6c06_95ed else if low == 5 then 0x1b01_a57b else
    if low == 6 then 0x8208_f4c1 else if low == 7 then 0xf50f_c457 else if low == 8 then 0x65b0_d9c6 else
    if low == 9 then 0x12b7_e950 else if low == 10 then 0x8bbe_b8ea else if low == 11 then 0xfcb9_887c else
    if low == 12 then 0x62dd_1ddf else if low == 13 then 0x15da_2d49 else if low == 14 then 0x8cd3_7cf3 else
    0xfbd4_4c65
  }

  function Row6(low: bv4): bv32 {
    if low == 0 then 0x4db2_6158 else if low == 1 then 0x3ab5_51ce else if low == 2 then 0xa3bc_0074 else
    if low == 3 then 0xd4bb_30e2 else if low == 4 then 0x4adf_a541 else if low == 5 then 0x3dd8_95d7 else
    if low == 6 then 0xa4d1_c46d else if low == 7 then 0xd3d6_f4fb else if low == 8 then 0x4369_e96a else
    if low == 9 then 0x346e_d9fc else if low == 10 then 0xad67_8846 else if low == 11 then 0xda60_b8d0 else
    if low == 12 then 0x4404_2d73 else if low == 13 then 0x3303_1de5 else if low == 14 then 0xaa0a_4c5f else
    0xdd0d_7cc9
  }

  function Row7(low: bv4): bv32 {
    if low == 0 then 0x5005_713c else if low == 1 then 0x2702_41aa else if low == 2 then 0xbe0b_1010 else
    if low == 3 then 0xc90c_2086 else if low == 4 then 0x5768_b525 else if low == 5 then 0x206f_85b3 else
    if low == 6 then 0xb966_d409 else if low == 7 then 0xce61_e49f else if low == 8 then 0x5ede_f90e else
    if low == 9 then 0x29d9_c998 else if low == 10 then 0xb0d0_9822 else if low == 11 then 0xc7d7_a8b4 else
    if low == 12 then 0x59b3_3d17 else if low == 13 then 0x2eb4_0d81 else if low == 14 then 0xb7bd_5c3b else
    0xc0ba_6cad
  }

  function Row8(low: bv4): bv32 {
    if low == 0 then 0xedb8_8320 else if low == 1 then 0x9abf_b3b6 else if low == 2 then 0x03b6_e20c else
    if low == 3 then 0x74b1_d29a else if low == 4 then 0xead5_4739 else if low == 5 then 0x9dd2_77af else
    if low == 6 then 0x04db_2615 else if low == 7 then 0x73dc_1683 else if low == 8 then 0xe363_0b12 else
    if low == 9 then 0x9464_3b84 else if low == 10 then 0x0d6d_6a3e else if low == 11 then 0x7a6a_5aa8 else
    if low == 12 then 0xe40e_cf0b else if low == 13 then 0x9309_ff9d else if low == 14 then 0x0a00_ae27 else
    0x7d07_9eb1
  }

  function Row9(low: bv4): bv32 {
    if low == 0 then 0xf00f_9344 else if low == 1 then 0x8708_a3d2 else if low == 2 then 0x1e01_f268 else
    if low == 3 then 0x6906_c2fe else if low == 4 then 0xf762_575d else if low == 5 then 0x8065_67cb else
    if low == 6 then 0x196c_3671 else if low == 7 then 0x6e6b_06e7 else if low == 8 then 0xfed4_1b76 else
    if low == 9 then 0x89d3_2be0 else if low == 10 then 0x10da_7a5a else if low == 11 then 0x67dd_4acc else
    if low == 12 then 0xf9b9_df6f else if low == 13 then 0x8ebe_eff9 else if low == 14 then 0x17b7_be43 else
    0x60b0_8ed5
  }

  function RowA(low: bv4): bv32 {
    if low == 0 then 0xd6d6_a3e8 else if low == 1 then 0xa1d1_937e else if low == 2 then 0x38d8_c2c4 else
    if low == 3 then 0x4fdf_f252 else if low == 4 then 0xd1bb_67f1 else if low == 5 then 0xa6bc_5767 else
    if low == 6 then 0x3fb5_06dd else if low == 7 then 0x48b2_364b else if low == 8 then 0xd80d_2bda else
    if low == 9 then 0xaf0a_1b4c else if low == 10 then 0x3603_4af6 else if low == 11 then 0x4104_7a60 else
    if low == 12 then 0xdf60_efc3 else if low == 13 then 0xa867_df55 else if low == 14 then 0x316e_8eef else
    0x4669_be79
  }

  function RowB(low: bv4): bv32 {
    if low == 0 then 0xcb61_b38c else if low == 1 then 0xbc66_831a else if low == 2 then 0x256f_d2a0 else
    if low == 3 then 0x5268_e236 else if low == 4 then 0xcc0c_7795 else if low == 5 then 0xbb0b_4703 else
    if low == 6 then 0x2202_16b9 else if low == 7 then 0x5505_262f else if low == 8 then 0xc5ba_3bbe else
    if low == 9 then 0xb2bd_0b28 else if low == 10 then 0x2bb4_5a92 else if low == 11 then 0x5cb3_6a04 else
    if low == 12 then 0xc2d7_ffa7 else if low == 13 then 0xb5d0_cf31 else if low == 14 then 0x2cd9_9e8b else
    0x5bde_ae1d
  }

  function RowC(low: bv4): bv32 {
    if low == 0 then 0x9b64_c2b0 else if low == 1 then 0xec63_f226 else if low == 2 then 0x756a_a39c else
    if low == 3 then 0x026d_930a else if low == 4 then 0x9c09_06a9 else if low == 5 then 0xeb0e_363f else
    if low == 6 then 0x7207_6785 else if low == 7 then 0x0500_5713 else if low == 8 then 0x95bf_4a82 else
    if low == 9 then 0xe2b8_7a14 else if low == 10 then 0x7bb1_2bae else if low == 11 then 0x0cb6_1b38 else
    if low == 12 then 0x92d2_8e9b else if low == 13 then 0xe5d5_be0d else if low == 14 then 0x7cdc_efb7 else
    0x0bdb_df21
  }

  function RowD(low: bv4): bv32 {
    if low == 0 then 0x86d3_d2d4 else if low == 1 then 0xf1d4_e242 else if low == 2 then 0x68dd_b3f8 else
    if low == 3 then 0x1fda_836e else if low == 4 then 0x81be_16cd else if low == 5 then 0xf6b9_265b else
    if low == 6 then 0x6fb0_77e1 else if low == 7 then 0x18b7_4777 else if low == 8 then 0x8808_5ae6 else
    if low == 9 then 0xff0f_6a70 else if low == 10 then 0x6606_3bca else if low == 11 then 0x1101_0b5c else
    if low == 12 then 0x8f65_9eff else if low == 13 then 0xf862_ae69 else if low == 14 then 0x616b_ffd3 else
    0x166c_cf45
  }

  function RowE(low: bv4): bv32 {
    if low == 0 then 0xa00a_e278 else if low == 1 then 0xd70d_d2ee else if low == 2 then 0x4e04_8354 else
    if low == 3 then 0x3903_b3c2 else if low == 4 then 0xa767_2661 else if low == 5 then 0xd060_16f7 else
    if low == 6 then 0x4969_474d else if low == 7 then 0x3e6e_77db else if low == 8 then 0xaed1_6a4a else
    if low == 9 then 0xd9d6_5adc else if low == 10 then 0x40df_0b66 else if low == 11 then 0x37d8_3bf0 else
    if low == 12 then 0xa9bc_ae53 else if low == 13 then 0xdebb_9ec5 else if low == 14 then 0x47b2_cf7f else
    0x30b5_ffe9
  }

  function RowF(low: bv4): bv32 {
    if low == 0 then 0xbdbd_f21c else if low == 1 then 0xcaba_c28a else if low == 2 then 0x53b3_9330 else
    if low == 3 then 0x24b4_a3a6 else if low == 4 then 0xbad0_3605 else if low == 5 then 0xcdd7_0693 else
    if low == 6 then 0x54de_5729 else if low == 7 then 0x23d9_67bf else if low == 8 then 0xb366_7a2e else
    if low == 9 then 0xc461_4ab8 else if low == 10 then 0x5d68_1b02 else if low == 11 then 0x2a6f_2b94 else
    if low == 12 then 0xb40b_be37 else if low == 13 then 0xc30c_8ea1 else if low == 14 then 0x5a05_df1b else
    0x2d02_ef8d
  }

  /** crc32tab[i]. */
  function Table(i: bv8): bv32 {
    var high, low := (i >> 4) as bv4, (i & 0xf) as bv4;
    if high == 0 then Row0(low)
    else if high == 1 then Row1(low)
    else if high == 2 then Row2(low)
    else if high == 3 then Row3(low)
    else if high == 4 then Row4(low)
    else if high == 5 then Row5(low)
    else if high == 6 then Row6(low)
    else if high == 7 then Row7(low)
    else if high == 8 then Row8(low)
    else if high == 9 then Row9(low)
    else if high == 10 then RowA(low)
    else if high == 11 then RowB(low)
    else if high == 12 then RowC(low)
    else if high == 13 then RowD(low)
    else if high == 14 then RowE(low)
    else RowF(low)
  }

  /** The register after a zero bit. */
  function Halved(crc: bv32): bv32 {
    Shift(crc, false)
  }

  /** The register after a zero byte. */
  function Divided(crc: bv32): bv32 {
    Halved(Halved(Halved(Halved(Halved(Halved(Halved(Halved(crc))))))))
  }

  /** Every entry of the table is what its index leaves after eight shifts. */
  lemma TableDivides(i: bv8)
    ensures Table(i) == Divided(i as bv32)
  {
  }

  // ---------- Byte by byte ----------

  lemma {:induction false} ShiftConcat(crc: bv32, a: seq<bool>, b: seq<bool>)
    ensures ShiftBits(crc, a + b) == ShiftBits(ShiftBits(crc, a), b)
  {
    if b == [] {
      assert a + b == a;
    } else {
      var n := |b| - 1;
      assert (a + b)[..|a + b| - 1] == a + b[..n];
      ShiftConcat(crc, a, b[..n]);
    }
  }

  // Bit operations by name, so that most proofs can leave their definitions aside.
  function Xor(a: bv32, b: bv32): bv32 {
    a ^ b
  }

  function Half(w: bv32): bv32 {
    w >> 1
  }

  predicate Odd(w: bv32) {
    w & 1 == 1
  }

  /** The lowest n bits of a word, lowest first. */
  function LowBits(w: bv32, n: nat): (bits: seq<bool>)
    ensures |bits| == n
    decreases n
  {
    if n == 0 then [] else [Odd(w)] + LowBits(Half(w), n - 1)
  }

  function HalfTimes(w: bv32, n: nat): bv32
    decreases n
  {
    if n == 0 then w else HalfTimes(Half(w), n - 1)
  }

  function HalvedTimes(crc: bv32, n: nat): bv32
    decreases n
  {
    if n == 0 then crc else HalvedTimes(Halved(crc), n - 1)
  }

  lemma BitThenRest(crc: bv32, w: bv32)
    ensures Shift(crc ^ w, false) == Shift(crc, w & 1 == 1) ^ (w >> 1)
  {
  }

  lemma HalvedMix(crc: bv32, w: bv32)
    ensures Halved(Xor(crc, w)) == Xor(Shift(crc, Odd(w)), Half(w))
  {
    hide Shift;
    BitThenRest(crc, w);
  }

  /** A word mixed into the register feeds its low bits, and its high bits come down untouched. */
  lemma {:induction false} MixedWord(crc: bv32, w: bv32, n: nat)
    ensures HalvedTimes(Xor(crc, w), n) == Xor(ShiftBits(crc, LowBits(w, n)), HalfTimes(w, n))
    decreases n
  {
    hide Shift, Halved, Xor, Half, Odd;
    if n == 0 {
      assert LowBits(w, n) == [];
    } else {
      HalvedMix(crc, w);
      MixedWord(Shift(crc, Odd(w)), Half(w), n - 1);
      ShiftConcat(crc, [Odd(w)], LowBits(Half(w), n - 1));
      assert ShiftBits(crc, [Odd(w)]) == Shift(crc, Odd(w));
    }
  }

  lemma EightHalved(crc: bv32)
    ensures HalvedTimes(crc, 8) == Divided(crc)
  {
  }

  lemma EightHalves(w: bv32)
    ensures HalfTimes(w, 8) == High(w)
  {
  }

  /** The byte a table index is cut from. */
  function Low(w: bv32): bv8 {
    (w & 0xff) as bv8
  }

  function High(w: bv32): bv32 {
    w >> 8
  }

  lemma LowByteBits(w: bv32)
    ensures var w2 := Half(Half(w)); var w4 := Half(Half(w2)); var w6 := Half(Half(w4));
            [Odd(w), Odd(Half(w)), Odd(w2), Odd(Half(w2)), Odd(w4), Odd(Half(w4)), Odd(w6), Odd(Half(w6))]
            == ByteBits(Low(w))
  {
  }

  lemma TwoBits(w: bv32, n: nat)
    ensures LowBits(w, n + 2) == [Odd(w), Odd(Half(w))] + LowBits(Half(Half(w)), n)
  {
  }

  lemma EightInOne(a: seq<bool>, b: seq<bool>, c: seq<bool>, d: seq<bool>, e: seq<bool>)
    requires |a| == |b| == |c| == |d| == 2 && e == []
    ensures a + (b + (c + (d + e))) == [a[0], a[1], b[0], b[1], c[0], c[1], d[0], d[1]]
  {
  }

  lemma LowByte(w: bv32)
    ensures LowBits(w, 8) == ByteBits(Low(w))
  {
    hide Half, Odd, ByteBits, Low, LowBits;
    var w2 := Half(Half(w));
    var w4 := Half(Half(w2));
    var w6 := Half(Half(w4));
    TwoBits(w, 6);
    TwoBits(w2, 4);
    TwoBits(w4, 2);
    TwoBits(w6, 0);
    EightInOne([Odd(w), Odd(Half(w))], [Odd(w2), Odd(Half(w2))],
               [Odd(w4), Odd(Half(w4))], [Odd(w6), Odd(Half(w6))], LowBits(Half(Half(w6)), 0));
    LowByteBits(w);
  }

  lemma LowOf(b: bv8)
    ensures Low(b as bv32) == b && High(b as bv32) == 0
  {
  }

  lemma XorZero(w: bv32)
    ensures Xor(w, 0) == w && Xor(0, w) == w
  {
  }

  lemma MixedByte(crc: bv32, b: bv8)
    ensures ShiftBits(crc, ByteBits(b)) == Divided(Xor(crc, b as bv32))
  {
    hide Divided, ShiftBits, HalfTimes, LowBits, ByteBits, HalvedTimes, Xor, Low, High;
    var w := b as bv32;
    LowOf(b);
    MixedWord(crc, w, 8);
    EightHalved(Xor(crc, w));
    EightHalves(w);
    LowByte(w);
    XorZero(ShiftBits(crc, ByteBits(b)));
  }

  /** A word is divided by table: its low byte is looked up, the rest moves down. */
  lemma OneByte(w: bv32)
    ensures Divided(w) == Xor(Table(Low(w)), High(w))
  {
    hide Divided, ShiftBits, HalfTimes, LowBits, ByteBits, HalvedTimes, Table, Xor, Low, High;
    MixedWord(0, w, 8);
    XorZero(w);
    EightHalved(w);
    EightHalves(w);
    LowByte(w);
    MixedByte(0, Low(w));
    XorZero(Low(w) as bv32);
    TableDivides(Low(w));
  }

  /** A char as the macro reads it: signed, and widened before it meets the register. */
  function Widened(ch: bv8): bv32 {
    if ch & 0x80 != 0 then 0xffff_ff00 | ch as bv32 else ch as bv32
  }

  /** The macro _CRC32_. */
  function NextCrc(crc: bv32, ch: bv8): bv32 {
    Xor(High(crc), Table(Low(Xor(crc, Widened(ch)))))
  }

  lemma SignIsMaskedOut(crc: bv32, ch: bv8)
    ensures Low(Xor(crc, ch as bv32)) == Low(Xor(crc, Widened(ch)))
    ensures High(Xor(crc, ch as bv32)) == High(crc)
  {
  }

  /** One look-up stands for eight single shifts, whatever the sign of the char. */
  lemma NextCrcIsEightShifts(crc: bv32, ch: bv8)
    ensures NextCrc(crc, ch) == ShiftBits(crc, ByteBits(ch))
  {
    hide Divided, Table, ShiftBits, ByteBits, Low, High, Widened, Xor;
    var w := Xor(crc, ch as bv32);
    SignIsMaskedOut(crc, ch);
    OneByte(w);
    MixedByte(crc, ch);
    XorSwapped(High(crc), Table(Low(w)));
  }

  lemma XorSwapped(a: bv32, b: bv32)
    ensures Xor(a, b) == Xor(b, a)
  {
  }

  lemma OneMore(crc: bv32, buf: seq<bv8>, n: nat)
    requires n < |buf|
    ensures ShiftBits(crc, Bits(buf[..n + 1])) == NextCrc(ShiftBits(crc, Bits(buf[..n])), buf[n])
  {
    hide NextCrc, ShiftBits, ByteBits;
    assert buf[..n + 1][..n] == buf[..n];
    ShiftConcat(crc, Bits(buf[..n]), ByteBits(buf[n]));
    NextCrcIsEightShifts(ShiftBits(crc, Bits(buf[..n])), buf[n]);
  }

  method Crc32Sz(buf: seq<bv8>) returns (r: bv32)
    ensures r == Checksum(buf)
  {
    hide NextCrc, ShiftBits;
    var crc: bv32 := 0xffff_ffff;
    assert crc == ShiftBits(crc, Bits(buf[..0])) by { NoBits(crc); }
    var p := 0;
    while p < |buf|
      invariant p <= |buf|
      invariant crc == ShiftBits(0xffff_ffff, Bits(buf[..p]))
    {
      OneMore(0xffff_ffff, buf, p);
      crc := NextCrc(crc, buf[p]);
      p := p + 1;
    }
    assert buf[..p] == buf;
    r := !crc;
  }

  lemma NoBits(crc: bv32)
    ensures ShiftBits(crc, []) == crc
  {
  }

  // ---------- Bursts ----------

  /** The registers a and b agree outside the mask. */
  predicate Near(a: bv32, b: bv32, mask: bv32) {
    a | mask == b | mask
  }

  const TOP: bv32 := 0x8000_0000

  predicate TopFree(mask: bv32) {
    mask & TOP == 0
  }

  function OneWider(mask: bv32): bv32 {
    (mask << 1) | 1
  }

  /** Whether the polynomial is mixed in. */
  predicate Feedback(crc: bv32, bit: bool) {
    (crc & 1 == 1) != bit
  }

  /** The polynomial has its top bit set, so a register tells whether it was just mixed in. */
  lemma FeedbackShows(crc: bv32, bit: bool)
    ensures Feedback(crc, bit) <==> Shift(crc, bit) & TOP != 0
  {
  }

  lemma FeedbackFixesBit(crc: bv32, x: bool, y: bool)
    requires Feedback(crc, x) == Feedback(crc, y)
    ensures x == y
  {
  }

  lemma NearTop(a: bv32, b: bv32, mask: bv32)
    requires TopFree(mask) && Near(a, b, mask)
    ensures a & TOP != 0 <==> b & TOP != 0
  {
  }

  lemma NearBefore(a: bv32, x: bool, b: bv32, y: bool, mask: bv32)
    requires Near(Shift(a, x), Shift(b, y), mask) && Feedback(a, x) == Feedback(b, y)
    ensures Near(a >> 1, b >> 1, mask)
  {
  }

  lemma NearWhole(a: bv32, b: bv32, mask: bv32)
    requires TopFree(mask) && Near(a >> 1, b >> 1, mask)
    ensures Near(a, b, OneWider(mask))
  {
  }

  /** Registers alike above the mask come, by the same feedback, from registers alike one bit further up. */
  lemma ShiftBack(a: bv32, x: bool, b: bv32, y: bool, mask: bv32)
    requires TopFree(mask)
    requires Near(Shift(a, x), Shift(b, y), mask)
    ensures Near(a, b, OneWider(mask))
    ensures Feedback(a, x) == Feedback(b, y)
  {
    hide Near, Shift, Feedback, TopFree, OneWider;
    FeedbackShows(a, x);
    FeedbackShows(b, y);
    NearTop(Shift(a, x), Shift(b, y), mask);
    NearBefore(a, x, b, y, mask);
    NearWhole(a, b, mask);
  }

  /** n ones in the lowest places. */
  function Ones(n: nat): bv32 {
    if n == 0 then 0 else OneWider(Ones(n - 1))
  }

  function FourWide(mask: bv32): bv32 {
    (mask << 4) | 0xf
  }

  lemma FourWider(mask: bv32)
    ensures OneWider(OneWider(OneWider(OneWider(mask)))) == FourWide(mask)
  {
  }

  lemma FourMore(n: nat)
    ensures Ones(n + 4) == FourWide(Ones(n))
  {
    hide OneWider, FourWide;
    assert Ones(n + 2) == OneWider(OneWider(Ones(n)));
    FourWider(Ones(n));
  }

  lemma {:induction false} OnesGrow(n: nat)
    ensures Ones(n) | Ones(n + 1) == Ones(n + 1)
  {
    if n != 0 {
      OnesGrow(n - 1);
    }
  }

  /** Up to 31 ones leave the top bit free. */
  lemma {:induction false} TopIsFree(n: nat)
    requires n < 32
    ensures TopFree(Ones(n))
    decreases 32 - n
  {
    if n == 31 {
      FourMore(0);
      FourMore(4);
      FourMore(8);
      FourMore(12);
      FourMore(16);
      FourMore(20);
      FourMore(24);
      assert Ones(29) == 0x1fff_ffff;
      assert Ones(31) == 0x7fff_ffff;
    } else {
      TopIsFree(n + 1);
      OnesGrow(n);
    }
  }

  /**
   From one register, two words of n bits that leave registers alike above the k lowest bits
   are the same word, as long as k + n is at most 32.
   */
  lemma {:induction false} WordsApart(crc: bv32, x: seq<bool>, y: seq<bool>, k: nat)
    requires |x| == |y| && k + |x| <= 32
    requires Near(ShiftBits(crc, x), ShiftBits(crc, y), Ones(k))
    ensures x == y
    decreases |x|
  {
    hide Near, Shift, Feedback, TopFree, OneWider;
    if x != [] {
      var n := |x| - 1;
      TopIsFree(k);
      ShiftBack(ShiftBits(crc, x[..n]), x[n], ShiftBits(crc, y[..n]), y[n], Ones(k));
      WordsApart(crc, x[..n], y[..n], k + 1);
      FeedbackFixesBit(ShiftBits(crc, x[..n]), x[n], y[n]);
      assert x == x[..n] + [x[n]] && y == y[..n] + [y[n]];
    }
  }

  lemma ShiftInjective(a: bv32, b: bv32, bit: bool)
    requires Shift(a, bit) == Shift(b, bit)
    ensures a == b
  {
  }

  /** Nothing that follows makes up for two different registers. */
  lemma {:induction false} StayApart(a: bv32, b: bv32, bits: seq<bool>)
    requires ShiftBits(a, bits) == ShiftBits(b, bits)
    ensures a == b
  {
    hide Shift;
    if bits != [] {
      var n := |bits| - 1;
      ShiftInjective(ShiftBits(a, bits[..n]), ShiftBits(b, bits[..n]), bits[n]);
      StayApart(a, b, bits[..n]);
    }
  }

  /** Two messages that differ, and only within 32 consecutive bits, have different checksums. */
  lemma BurstIsNoticed(a: seq<bv8>, b: seq<bv8>, pre: seq<bool>, x: seq<bool>, y: seq<bool>, post: seq<bool>)
    requires Bits(a) == pre + x + post && Bits(b) == pre + y + post
    requires |x| == |y| <= 32 && x != y
    ensures Checksum(a) != Checksum(b)
  {
    hide ShiftBits, Bits, Register;
    var start := ShiftBits(0xffff_ffff, pre);
    ThroughWindow(a, pre, x, post);
    ThroughWindow(b, pre, y, post);
    var s, t := ShiftBits(start, x), ShiftBits(start, y);
    if s == t {
      assert Near(s, t, Ones(0));
      WordsApart(start, x, y, 0);
    }
    if ShiftBits(s, post) == ShiftBits(t, post) {
      StayApart(s, t, post);
    }
  }

  lemma {:induction false} HalvedZero(n: nat)
    ensures HalvedTimes(0, n) == 0
  {
    if n != 0 {
      HalvedZero(n - 1);
    }
  }

  lemma {:induction false} HalfTimesSum(w: bv32, m: nat, n: nat)
    ensures HalfTimes(w, m + n) == HalfTimes(HalfTimes(w, m), n)
    decreases m
  {
    hide Half;
    if m != 0 {
      HalfTimesSum(Half(w), m - 1, n);
    }
  }

  lemma AllHalves(w: bv32)
    ensures HalfTimes(w, 32) == 0
  {
    hide HalfTimes, High;
    HalfTimesSum(w, 8, 24);
    EightHalves(w);
    HalfTimesSum(High(w), 8, 16);
    EightHalves(High(w));
    HalfTimesSum(High(High(w)), 8, 8);
    EightHalves(High(High(w)));
    EightHalves(High(High(High(w))));
    NothingHigher(w);
  }

  lemma NothingHigher(w: bv32)
    ensures High(High(High(High(w)))) == 0
  {
  }

  /** A register's own bits clear it. */
  lemma OwnBitsClear(crc: bv32)
    ensures ShiftBits(crc, LowBits(crc, 32)) == 0
  {
    hide ShiftBits, LowBits, HalfTimes, HalvedTimes, Xor;
    MixedWord(crc, crc, 32);
    XorSelf(crc);
    HalvedZero(32);
    AllHalves(crc);
    XorZero(ShiftBits(crc, LowBits(crc, 32)));
  }

  lemma XorSelf(w: bv32)
    ensures Xor(w, w) == 0
  {
  }

  /** 32 is the limit: at any register, two words of 33 bits that differ in the first go unnoticed. */
  lemma LongerBurstMayPass(crc: bv32) returns (x: seq<bool>, y: seq<bool>)
    ensures |x| == |y| == 33 && x != y && ShiftBits(crc, x) == ShiftBits(crc, y)
  {
    hide ShiftBits, LowBits;
    var a, b := ShiftBits(crc, [false]), ShiftBits(crc, [true]);
    x, y := [false] + LowBits(a, 32), [true] + LowBits(b, 32);
    ShiftConcat(crc, [false], LowBits(a, 32));
    ShiftConcat(crc, [true], LowBits(b, 32));
    OwnBitsClear(a);
    OwnBitsClear(b);
    assert x[0] != y[0];
  }

  lemma {:induction false} BitsConcat(a: seq<bv8>, b: seq<bv8>)
    ensures Bits(a + b) == Bits(a) + Bits(b)
  {
    hide ByteBits;
    if b == [] {
      assert a + b == a;
    } else {
      var n := |b| - 1;
      assert (a + b)[..|a + b| - 1] == a + b[..n];
      BitsConcat(a, b[..n]);
    }
  }

  lemma ByteBitsInjective(a: bv8, b: bv8)
    requires ByteBits(a) == ByteBits(b)
    ensures a == b
  {
  }

  /** The byte that has the given bits, lowest first. */
  function ByteOf(bits: seq<bool>): bv8
    requires |bits| == 8
  {
    (if bits[0] then 0x01 else 0) | (if bits[1] then 0x02 else 0) | (if bits[2] then 0x04 else 0)
    | (if bits[3] then 0x08 else 0) | (if bits[4] then 0x10 else 0) | (if bits[5] then 0x20 else 0)
    | (if bits[6] then 0x40 else 0) | (if bits[7] then 0x80 else 0)
  }

  lemma BitsOfByteOf(bits: seq<bool>)
    requires |bits| == 8
    ensures ByteBits(ByteOf(bits)) == bits
  {
  }

  /** Whole bytes of bits are the bits of some buffer. */
  lemma {:induction false} SomeBuffer(bits: seq<bool>) returns (buf: seq<bv8>)
    requires |bits| % 8 == 0
    ensures Bits(buf) == bits && 8 * |buf| == |bits|
  {
    hide ByteBits, ByteOf;
    if bits == [] {
      buf := [];
    } else {
      var n := |bits| - 8;
      var front := SomeBuffer(bits[..n]);
      BitsOfByteOf(bits[n..]);
      buf := front + [ByteOf(bits[n..])];
      assert buf[..|buf| - 1] == front;
      assert bits == bits[..n] + bits[n..];
    }
  }

  /**
   32 is the limit for messages too: between any bits before and after, 33 bits can be changed
   so that the checksum stays.
   */
  lemma LongerBurstIsMissed(pre: seq<bool>, post: seq<bool>)
    returns (a: seq<bv8>, b: seq<bv8>, x: seq<bool>, y: seq<bool>)
    requires (|pre| + 33 + |post|) % 8 == 0
    ensures |x| == |y| == 33 && Bits(a) == pre + x + post && Bits(b) == pre + y + post && |a| == |b|
    ensures a != b && Checksum(a) == Checksum(b)
  {
    hide ShiftBits, Bits, Register;
    x, y := LongerBurstMayPass(ShiftBits(0xffff_ffff, pre));
    a := SomeBuffer(pre + x + post);
    b := SomeBuffer(pre + y + post);
    WindowsDiffer(pre, x, y, post);
    SameAfterWindow(a, b, pre, x, y, post);
  }

  lemma WindowsDiffer(pre: seq<bool>, x: seq<bool>, y: seq<bool>, post: seq<bool>)
    requires |x| == |y| && x != y
    ensures pre + x + post != pre + y + post
  {
    var i :| 0 <= i < |x| && x[i] != y[i];
    assert (pre + x + post)[|pre| + i] == x[i] && (pre + y + post)[|pre| + i] == y[i];
  }

  lemma SameAfterWindow(a: seq<bv8>, b: seq<bv8>, pre: seq<bool>, x: seq<bool>, y: seq<bool>, post: seq<bool>)
    requires Bits(a) == pre + x + post && Bits(b) == pre + y + post
    requires ShiftBits(ShiftBits(0xffff_ffff, pre), x) == ShiftBits(ShiftBits(0xffff_ffff, pre), y)
    ensures Register(a) == Register(b)
  {
    hide ShiftBits, Bits, Register;
    var start := ShiftBits(0xffff_ffff, pre);
    var s, t := ShiftBits(start, x), ShiftBits(start, y);
    assert s == t;
    ThroughWindow(a, pre, x, post);
    ThroughWindow(b, pre, y, post);
    assert Register(a) == ShiftBits(s, post);
    assert Register(b) == ShiftBits(t, post);
  }

  lemma ThroughWindow(a: seq<bv8>, pre: seq<bool>, x: seq<bool>, post: seq<bool>)
    requires Bits(a) == pre + x + post
    ensures Register(a) == ShiftBits(ShiftBits(ShiftBits(0xffff_ffff, pre), x), post)
  {
    hide ShiftBits, Bits;
    ShiftConcat(0xffff_ffff, pre + x, post);
    ShiftConcat(0xffff_ffff, pre, x);
  }

  /** In particular between two buffers of five bytes. */
  lemma FiveBytesMayPass() returns (a: seq<bv8>, b: seq<bv8>)
    ensures |a| == |b| == 5 && a != b && Checksum(a) == Checksum(b)
    ensures |Bits(a)| == |Bits(b)| == 40 && Bits(a)[33..] == Bits(b)[33..]
  {
    hide Bits, Checksum;
    var post := [false, false, false, false, false, false, false];
    var x, y;
    a, b, x, y := LongerBurstIsMissed([], post);
    assert [] + x + post == x + post && [] + y + post == y + post;
    assert (x + post)[33..] == post && (y + post)[33..] == post;
    BitsInjective(a, b);
  }

  lemma {:induction false} BitsInjective(a: seq<bv8>, b: seq<bv8>)
    requires |a| == |b|
    ensures |Bits(a)| == |Bits(b)| == 8 * |a|
    ensures Bits(a) == Bits(b) ==> a == b
  {
    hide ByteBits;
    if a != [] {
      var n := |a| - 1;
      BitsInjective(a[..n], b[..n]);
      assert a == a[..n] + [a[n]] && b == b[..n] + [b[n]];
      if Bits(a) == Bits(b) {
        assert Bits(a[..n]) == Bits(a)[..8 * n] == Bits(b[..n]);
        assert ByteBits(a[n]) == Bits(a)[8 * n..] == ByteBits(b[n]);
        ByteBitsInjective(a[n], b[n]);
      }
    }
  }

  /** Two equally long buffers that differ, and only within four consecutive bytes, have different checksums. */
  lemma FourBytesAreNoticed(pre: seq<bv8>, x: seq<bv8>, y: seq<bv8>, post: seq<bv8>)
    requires |x| == |y| <= 4 && x != y
    ensures Checksum(pre + x + post) != Checksum(pre + y + post)
  {
    hide Bits, Checksum;
    BitsConcat(pre + x, post);
    BitsConcat(pre, x);
    BitsConcat(pre + y, post);
    BitsConcat(pre, y);
    BitsInjective(x, y);
    BurstIsNoticed(pre + x + post, pre + y + post, Bits(pre), Bits(x), Bits(y), Bits(post));
  }
}
