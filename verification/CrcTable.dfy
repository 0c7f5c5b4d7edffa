/**
 crc32_tab (Doc/W60X_QFLASH_Driver_for_SWD/W60X_QFlash/FlashPrg.c:27-78): eight register steps at
 once. `TableEntry` checks all 256 entries and `TableStep` shows that one look-up feeds one byte.
*/
module CrcTable {
  import opened Gf2
  import opened CrcWord
  import opened Words

  // crc32_tab, sixteen entries to a row.
  const ROW_0: seq<bv32> := [
    0x00000000, 0x77073096, 0xee0e612c, 0x990951ba, 0x076dc419, 0x706af48f, 0xe963a535, 0x9e6495a3,
    0x0edb8832, 0x79dcb8a4, 0xe0d5e91e, 0x97d2d988, 0x09b64c2b, 0x7eb17cbd, 0xe7b82d07, 0x90bf1d91
  ]

  const ROW_1: seq<bv32> := [
    0x1db71064, 0x6ab020f2, 0xf3b97148, 0x84be41de, 0x1adad47d, 0x6ddde4eb, 0xf4d4b551, 0x83d385c7,
    0x136c9856, 0x646ba8c0, 0xfd62f97a, 0x8a65c9ec, 0x14015c4f, 0x63066cd9, 0xfa0f3d63, 0x8d080df5
  ]

  const ROW_2: seq<bv32> := [
    0x3b6e20c8, 0x4c69105e, 0xd56041e4, 0xa2677172, 0x3c03e4d1, 0x4b04d447, 0xd20d85fd, 0xa50ab56b,
    0x35b5a8fa, 0x42b2986c, 0xdbbbc9d6, 0xacbcf940, 0x32d86ce3, 0x45df5c75, 0xdcd60dcf, 0xabd13d59
  ]

  const ROW_3: seq<bv32> := [
    0x26d930ac, 0x51de003a, 0xc8d75180, 0xbfd06116, 0x21b4f4b5, 0x56b3c423, 0xcfba9599, 0xb8bda50f,
    0x2802b89e, 0x5f058808, 0xc60cd9b2, 0xb10be924, 0x2f6f7c87, 0x58684c11, 0xc1611dab, 0xb6662d3d
  ]

  const ROW_4: seq<bv32> := [
    0x76dc4190, 0x01db7106, 0x98d220bc, 0xefd5102a, 0x71b18589, 0x06b6b51f, 0x9fbfe4a5, 0xe8b8d433,
    0x7807c9a2, 0x0f00f934, 0x9609a88e, 0xe10e9818, 0x7f6a0dbb, 0x086d3d2d, 0x91646c97, 0xe6635c01
  ]

  const ROW_5: seq<bv32> := [
    0x6b6b51f4, 0x1c6c6162, 0x856530d8, 0xf262004e, 0x6c0695ed, 0x1b01a57b, 0x8208f4c1, 0xf50fc457,
    0x65b0d9c6, 0x12b7e950, 0x8bbeb8ea, 0xfcb9887c, 0x62dd1ddf, 0x15da2d49, 0x8cd37cf3, 0xfbd44c65
  ]

  const ROW_6: seq<bv32> := [
    0x4db26158, 0x3ab551ce, 0xa3bc0074, 0xd4bb30e2, 0x4adfa541, 0x3dd895d7, 0xa4d1c46d, 0xd3d6f4fb,
    0x4369e96a, 0x346ed9fc, 0xad678846, 0xda60b8d0, 0x44042d73, 0x33031de5, 0xaa0a4c5f, 0xdd0d7cc9
  ]

  const ROW_7: seq<bv32> := [
    0x5005713c, 0x270241aa, 0xbe0b1010, 0xc90c2086, 0x5768b525, 0x206f85b3, 0xb966d409, 0xce61e49f,
    0x5edef90e, 0x29d9c998, 0xb0d09822, 0xc7d7a8b4, 0x59b33d17, 0x2eb40d81, 0xb7bd5c3b, 0xc0ba6cad
  ]

  const ROW_8: seq<bv32> := [
    0xedb88320, 0x9abfb3b6, 0x03b6e20c, 0x74b1d29a, 0xead54739, 0x9dd277af, 0x04db2615, 0x73dc1683,
    0xe3630b12, 0x94643b84, 0x0d6d6a3e, 0x7a6a5aa8, 0xe40ecf0b, 0x9309ff9d, 0x0a00ae27, 0x7d079eb1
  ]

  const ROW_9: seq<bv32> := [
    0xf00f9344, 0x8708a3d2, 0x1e01f268, 0x6906c2fe, 0xf762575d, 0x806567cb, 0x196c3671, 0x6e6b06e7,
    0xfed41b76, 0x89d32be0, 0x10da7a5a, 0x67dd4acc, 0xf9b9df6f, 0x8ebeeff9, 0x17b7be43, 0x60b08ed5
  ]

  const ROW_A: seq<bv32> := [
    0xd6d6a3e8, 0xa1d1937e, 0x38d8c2c4, 0x4fdff252, 0xd1bb67f1, 0xa6bc5767, 0x3fb506dd, 0x48b2364b,
    0xd80d2bda, 0xaf0a1b4c, 0x36034af6, 0x41047a60, 0xdf60efc3, 0xa867df55, 0x316e8eef, 0x4669be79
  ]

  const ROW_B: seq<bv32> := [
    0xcb61b38c, 0xbc66831a, 0x256fd2a0, 0x5268e236, 0xcc0c7795, 0xbb0b4703, 0x220216b9, 0x5505262f,
    0xc5ba3bbe, 0xb2bd0b28, 0x2bb45a92, 0x5cb36a04, 0xc2d7ffa7, 0xb5d0cf31, 0x2cd99e8b, 0x5bdeae1d
  ]

  const ROW_C: seq<bv32> := [
    0x9b64c2b0, 0xec63f226, 0x756aa39c, 0x026d930a, 0x9c0906a9, 0xeb0e363f, 0x72076785, 0x05005713,
    0x95bf4a82, 0xe2b87a14, 0x7bb12bae, 0x0cb61b38, 0x92d28e9b, 0xe5d5be0d, 0x7cdcefb7, 0x0bdbdf21
  ]

  const ROW_D: seq<bv32> := [
    0x86d3d2d4, 0xf1d4e242, 0x68ddb3f8, 0x1fda836e, 0x81be16cd, 0xf6b9265b, 0x6fb077e1, 0x18b74777,
    0x88085ae6, 0xff0f6a70, 0x66063bca, 0x11010b5c, 0x8f659eff, 0xf862ae69, 0x616bffd3, 0x166ccf45
  ]

  const ROW_E: seq<bv32> := [
    0xa00ae278, 0xd70dd2ee, 0x4e048354, 0x3903b3c2, 0xa7672661, 0xd06016f7, 0x4969474d, 0x3e6e77db,
    0xaed16a4a, 0xd9d65adc, 0x40df0b66, 0x37d83bf0, 0xa9bcae53, 0xdebb9ec5, 0x47b2cf7f, 0x30b5ffe9
  ]

  const ROW_F: seq<bv32> := [
    0xbdbdf21c, 0xcabac28a, 0x53b39330, 0x24b4a3a6, 0xbad03605, 0xcdd70693, 0x54de5729, 0x23d967bf,
    0xb3667a2e, 0xc4614ab8, 0x5d681b02, 0x2a6f2b94, 0xb40bbe37, 0xc30c8ea1, 0x5a05df1b, 0x2d02ef8d
  ]

  const TAB: seq<bv32> :=
    ROW_0 + ROW_1 + ROW_2 + ROW_3 + ROW_4 + ROW_5 + ROW_6 + ROW_7 +
    ROW_8 + ROW_9 + ROW_A + ROW_B + ROW_C + ROW_D + ROW_E + ROW_F

  function Step8(s: bv32): bv32 {
    BitStep(BitStep(BitStep(BitStep(BitStep(BitStep(BitStep(BitStep(s))))))))
  }

  lemma SumSwap(a: bv32, b: bv32, x: bv32)
    ensures Sum(Sum(a, x), b) == Sum(Sum(a, b), x) && Sum(a, Sum(b, x)) == Sum(Sum(a, b), x)
    ensures Sum(Sum(a, x), Sum(b, x)) == Sum(a, b)
  {
  }

  lemma BitStepLinear(s: bv32, t: bv32)
    ensures BitStep(Sum(s, t)) == Sum(BitStep(s), BitStep(t))
  {
    hide Sum, Half, Odd;
    SumHalf(s, t);
    SumSwap(Half(s), Half(t), POLY);
  }

  lemma Step8Linear(s: bv32, t: bv32)
    ensures Step8(Sum(s, t)) == Sum(Step8(s), Step8(t))
  {
    hide BitStep, Sum;
    var s1, t1 := BitStep(s), BitStep(t);
    var s2, t2 := BitStep(s1), BitStep(t1);
    var s3, t3 := BitStep(s2), BitStep(t2);
    var s4, t4 := BitStep(s3), BitStep(t3);
    var s5, t5 := BitStep(s4), BitStep(t4);
    var s6, t6 := BitStep(s5), BitStep(t5);
    var s7, t7 := BitStep(s6), BitStep(t6);
    BitStepLinear(s, t);
    BitStepLinear(s1, t1);
    BitStepLinear(s2, t2);
    BitStepLinear(s3, t3);
    BitStepLinear(s4, t4);
    BitStepLinear(s5, t5);
    BitStepLinear(s6, t6);
    BitStepLinear(s7, t7);
  }

  lemma BitInSplit(u: bv32, g: bv32)
    ensures BitStep(Sum(u, g)) == Sum(BitIn(u, Odd(g)), Half(g))
  {
    assert Half(Sum(u, 1)) == Half(u) && Odd(Sum(u, 1)) == !Odd(u);
    hide Sum, Half, Odd;
    SumHalf(u, g);
    SumSwap(Half(u), Half(g), POLY);
  }

  /** Bits already added to the word are shifted through as if they had been fed. */
  lemma {:induction false} SerialAbsorb(u: bv32, g: bv32, bits: seq<bool>)
    requires forall k: nat :: k < |bits| ==> bits[k] == Bit(g, k)
    ensures Serial(Sum(u, g), Zeros(|bits|)) == Sum(Serial(u, bits), Shr(g, |bits|))
    decreases |bits|
  {
    hide BitStep, Sum, Half, Odd;
    if bits != [] {
      assert Zeros(|bits|)[1..] == Zeros(|bits| - 1);
      assert bits[0] == Bit(g, 0) == Odd(g);
      BitInSplit(u, g);
      forall k: nat | k < |bits| - 1 ensures bits[1..][k] == Bit(Half(g), k) {
        assert bits[k + 1] == Bit(g, k + 1);
      }
      SerialAbsorb(BitIn(u, bits[0]), Half(g), bits[1..]);
    }
  }

  lemma SerialZeros8(s: bv32)
    ensures Serial(s, Zeros(8)) == Step8(s)
  {
    hide BitStep;
    assert Zeros(8)[1..] == Zeros(7) && Zeros(7)[1..] == Zeros(6);
    assert Zeros(6)[1..] == Zeros(5) && Zeros(5)[1..] == Zeros(4);
    assert Zeros(4)[1..] == Zeros(3) && Zeros(3)[1..] == Zeros(2);
    assert Zeros(2)[1..] == Zeros(1) && Zeros(1)[1..] == Zeros(0);
    var s4 := BitStep(BitStep(BitStep(BitStep(s))));
    assert Serial(s, Zeros(8)) == Serial(s4, Zeros(4));
  }

  lemma ByteShiftedOut(b: bv8)
    ensures Shr(b as bv32, 8) == 0
  {
    hide Shr;
    ShrByte(b as bv32);
  }

  predicate RowOf(row: seq<bv32>, first: bv32) {
    && |row| == 16 && row[0] == first
    && row[1] == Sum(first, ROW_0[1]) && row[2] == Sum(first, ROW_0[2]) && row[3] == Sum(first, ROW_0[3])
    && row[4] == Sum(first, ROW_0[4]) && row[5] == Sum(first, ROW_0[5]) && row[6] == Sum(first, ROW_0[6])
    && row[7] == Sum(first, ROW_0[7]) && row[8] == Sum(first, ROW_0[8]) && row[9] == Sum(first, ROW_0[9])
    && row[10] == Sum(first, ROW_0[10]) && row[11] == Sum(first, ROW_0[11]) && row[12] == Sum(first, ROW_0[12])
    && row[13] == Sum(first, ROW_0[13]) && row[14] == Sum(first, ROW_0[14]) && row[15] == Sum(first, ROW_0[15])
  }

  lemma Step8Zero()
    ensures Step8(0) == 0
  {
    assert BitStep(0) == 0;
    hide BitStep;
  }

  lemma FirstRow(b: bv8)
    requires b < 16
    ensures |ROW_0| == 16 && ROW_0[b as int] == Step8(b as bv32)
  {
    hide Step8;
    Step8Zero();
    FirstRow1To2();
    FirstRow3To5();
    FirstRow6To10();
    FirstRow11To15();
  }

  lemma FirstRow1To2()
    ensures ROW_0[1] == Step8(1)
    ensures ROW_0[2] == Step8(2)
  {
  }

  lemma FirstRow3To5()
    ensures ROW_0[3] == Step8(3)
    ensures ROW_0[4] == Step8(4)
    ensures ROW_0[5] == Step8(5)
  {
  }

  lemma FirstRow6To10()
    ensures ROW_0[6] == Step8(6)
    ensures ROW_0[7] == Step8(7)
    ensures ROW_0[8] == Step8(8)
    ensures ROW_0[9] == Step8(9)
    ensures ROW_0[10] == Step8(10)
  {
  }

  lemma FirstRow11To15()
    ensures ROW_0[11] == Step8(11)
    ensures ROW_0[12] == Step8(12)
    ensures ROW_0[13] == Step8(13)
    ensures ROW_0[14] == Step8(14)
    ensures ROW_0[15] == Step8(15)
  {
  }

  function Row(h: bv8): seq<bv32>
    requires h < 16
  {
    if h == 0 then ROW_0 else if h == 1 then ROW_1 else if h == 2 then ROW_2 else if h == 3 then ROW_3
    else if h == 4 then ROW_4 else if h == 5 then ROW_5 else if h == 6 then ROW_6 else if h == 7 then ROW_7
    else if h == 8 then ROW_8 else if h == 9 then ROW_9 else if h == 10 then ROW_A else if h == 11 then ROW_B
    else if h == 12 then ROW_C else if h == 13 then ROW_D else if h == 14 then ROW_E else ROW_F
  }

  lemma RowHead(h: bv8)
    requires h < 16
    ensures |Row(h)| == 16 && Row(h)[0] == Step8((h as bv32) << 4)
  {
    hide Step8;
    Step8Zero();
    RowHeads1To5();
    RowHeads6To10();
    RowHeads11To15();
  }

  lemma RowHeads1To5()
    ensures ROW_1[0] == Step8(0x10)
    ensures ROW_2[0] == Step8(0x20)
    ensures ROW_3[0] == Step8(0x30)
    ensures ROW_4[0] == Step8(0x40)
    ensures ROW_5[0] == Step8(0x50)
  {
  }

  lemma RowHeads6To10()
    ensures ROW_6[0] == Step8(0x60)
    ensures ROW_7[0] == Step8(0x70)
    ensures ROW_8[0] == Step8(0x80)
    ensures ROW_9[0] == Step8(0x90)
    ensures ROW_A[0] == Step8(0xa0)
  {
  }

  lemma RowHeads11To15()
    ensures ROW_B[0] == Step8(0xb0)
    ensures ROW_C[0] == Step8(0xc0)
    ensures ROW_D[0] == Step8(0xd0)
    ensures ROW_E[0] == Step8(0xe0)
    ensures ROW_F[0] == Step8(0xf0)
  {
  }

  // Each row repeats the first one, offset by its own first entry.
  lemma Rows0To7(h: bv8)
    requires h < 8
    ensures |Row(h)| == 16 && RowOf(Row(h), Row(h)[0])
  {
    hide Step8;
    if h == 0 {} else if h == 1 {} else if h == 2 {} else if h == 3 {} else if h == 4 {} else if h == 5 {}
    else if h == 6 {} else {}
  }

  lemma Rows8To15(h: bv8)
    requires 8 <= h < 16
    ensures |Row(h)| == 16 && RowOf(Row(h), Row(h)[0])
  {
    hide Step8;
    if h == 8 {} else if h == 9 {} else if h == 10 {} else if h == 11 {} else if h == 12 {} else if h == 13 {}
    else if h == 14 {} else {}
  }

  lemma RowEntry(row: seq<bv32>, first: bv32, j: bv8)
    requires RowOf(row, first) && j < 16
    ensures row[j as int] == Sum(first, ROW_0[j as int])
  {
    assert |ROW_0| == 16;
    hide ROW_0, Sum;
    if j == 0 {} else if j == 1 {} else if j == 2 {} else if j == 3 {} else if j == 4 {} else if j == 5 {}
    else if j == 6 {} else if j == 7 {} else if j == 8 {} else if j == 9 {} else if j == 10 {}
    else if j == 11 {} else if j == 12 {} else if j == 13 {} else if j == 14 {} else {}
  }

  lemma RowLengths()
    ensures |ROW_0| == 16 && |ROW_1| == 16 && |ROW_2| == 16 && |ROW_3| == 16
    ensures |ROW_4| == 16 && |ROW_5| == 16 && |ROW_6| == 16 && |ROW_7| == 16
    ensures |ROW_8| == 16 && |ROW_9| == 16 && |ROW_A| == 16 && |ROW_B| == 16
    ensures |ROW_C| == 16 && |ROW_D| == 16 && |ROW_E| == 16 && |ROW_F| == 16
  {
  }

  lemma RowPlacement(b: bv8)
    ensures |TAB| == 256 && (b & 15) < 16 && (b >> 4) < 16
    ensures |Row(b >> 4)| == 16 && TAB[b as int] == Row(b >> 4)[(b & 15) as int]
  {
    RowLengths();
    hide ROW_0, ROW_1, ROW_2, ROW_3, ROW_4, ROW_5, ROW_6, ROW_7, ROW_8, ROW_9, ROW_A, ROW_B, ROW_C, ROW_D, ROW_E, ROW_F;
    var h := b >> 4;
    assert b as int == 16 * (h as int) + (b & 15) as int;
    if h == 0 {} else if h == 1 {} else if h == 2 {} else if h == 3 {} else if h == 4 {} else if h == 5 {}
    else if h == 6 {} else if h == 7 {} else if h == 8 {} else if h == 9 {} else if h == 10 {}
    else if h == 11 {} else if h == 12 {} else if h == 13 {} else if h == 14 {} else {}
  }

  lemma NibbleSplit(b: bv8)
    ensures b as bv32 == Sum(((b >> 4) as bv32) << 4, (b & 15) as bv32)
  {
  }

  /** Every entry of crc32_tab is eight register steps from its own index. */
  lemma TableEntry(b: bv8)
    ensures |TAB| == 256 && TAB[b as int] == Step8(b as bv32)
  {
    hide Step8, Sum, RowOf, Row, TAB;
    var h, j := b >> 4, b & 15;
    RowPlacement(b);
    if h < 8 { Rows0To7(h); } else { Rows8To15(h); }
    RowHead(h);
    RowEntry(Row(h), Step8((h as bv32) << 4), j);
    FirstRow(j);
    NibbleSplit(b);
    Step8Linear((h as bv32) << 4, j as bv32);
  }

  function HighPart(x: bv32): bv32 { x & 0xffff_ff00 }

  lemma ByteParts(s: bv32, b: bv8)
    ensures var x := Sum(s, b as bv32); Sum(LowByte(x) as bv32, HighPart(x)) == x && Half8(HighPart(x)) == s >> 8
  {
  }

  lemma NoLowBits(x: bv32)
    ensures forall k: nat :: k < 8 ==> !Bit(HighPart(x), k)
  {
    hide Bit;
    var hi := HighPart(x);
    LowBits(hi);
    assert !Bit(hi, 0) && !Bit(hi, 1) && !Bit(hi, 2) && !Bit(hi, 3);
    assert !Bit(hi, 4) && !Bit(hi, 5) && !Bit(hi, 6) && !Bit(hi, 7);
  }

  lemma SumZero(a: bv32)
    ensures Sum(a, 0) == a
  {
  }

  /** The table-driven step of the driver feeds one whole byte. */
  lemma TableStep(s: bv32, b: bv8)
    ensures |TAB| == 256
    ensures Serial(s, ByteBits(b)) == Sum(TAB[LowByte(Sum(s, b as bv32)) as int], s >> 8)
  {
    hide Serial, Step8, TAB, Sum, Bit, Shr, LowByte, HighPart, Half8;
    var x := Sum(s, b as bv32);
    var lo, hi := LowByte(x) as bv32, HighPart(x);
    ByteParts(s, b);
    ByteShiftedOut(b);
    SerialAbsorb(s, b as bv32, ByteBits(b));
    NoLowBits(x);
    SerialAbsorb(lo, hi, Zeros(8));
    SerialZeros8(lo);
    TableEntry(LowByte(x));
    ShrByte(hi);
    SumZero(Serial(s, ByteBits(b)));
  }
}
