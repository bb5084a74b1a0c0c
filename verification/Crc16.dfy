/**
 The CRC of chats/p2p/crc/crc16-ccitt.c: generator x^16 + x^12 + x^5 + 1 (0x1021), initial value
 0xFFFF, no reflection, no final xor, computed a byte at a time from a table.  What it promises is
 proved of the bit-by-bit division in `BitDivision`, to which the table-driven loop is tied here.
 */
module Crc16 {
  import opened BitDivision

  // ---------- the table ----------

  const ROW_0: seq<bv16> := [0x0000, 0x1021, 0x2042, 0x3063, 0x4084, 0x50A5, 0x60C6, 0x70E7, 0x8108, 0x9129, 0xA14A, 0xB16B, 0xC18C, 0xD1AD, 0xE1CE, 0xF1EF]
  const ROW_1: seq<bv16> := [0x1231, 0x0210, 0x3273, 0x2252, 0x52B5, 0x4294, 0x72F7, 0x62D6, 0x9339, 0x8318, 0xB37B, 0xA35A, 0xD3BD, 0xC39C, 0xF3FF, 0xE3DE]
  const ROW_2: seq<bv16> := [0x2462, 0x3443, 0x0420, 0x1401, 0x64E6, 0x74C7, 0x44A4, 0x5485, 0xA56A, 0xB54B, 0x8528, 0x9509, 0xE5EE, 0xF5CF, 0xC5AC, 0xD58D]
  const ROW_3: seq<bv16> := [0x3653, 0x2672, 0x1611, 0x0630, 0x76D7, 0x66F6, 0x5695, 0x46B4, 0xB75B, 0xA77A, 0x9719, 0x8738, 0xF7DF, 0xE7FE, 0xD79D, 0xC7BC]
  const ROW_4: seq<bv16> := [0x48C4, 0x58E5, 0x6886, 0x78A7, 0x0840, 0x1861, 0x2802, 0x3823, 0xC9CC, 0xD9ED, 0xE98E, 0xF9AF, 0x8948, 0x9969, 0xA90A, 0xB92B]
  const ROW_5: seq<bv16> := [0x5AF5, 0x4AD4, 0x7AB7, 0x6A96, 0x1A71, 0x0A50, 0x3A33, 0x2A12, 0xDBFD, 0xCBDC, 0xFBBF, 0xEB9E, 0x9B79, 0x8B58, 0xBB3B, 0xAB1A]
  const ROW_6: seq<bv16> := [0x6CA6, 0x7C87, 0x4CE4, 0x5CC5, 0x2C22, 0x3C03, 0x0C60, 0x1C41, 0xEDAE, 0xFD8F, 0xCDEC, 0xDDCD, 0xAD2A, 0xBD0B, 0x8D68, 0x9D49]
  const ROW_7: seq<bv16> := [0x7E97, 0x6EB6, 0x5ED5, 0x4EF4, 0x3E13, 0x2E32, 0x1E51, 0x0E70, 0xFF9F, 0xEFBE, 0xDFDD, 0xCFFC, 0xBF1B, 0xAF3A, 0x9F59, 0x8F78]
  const ROW_8: seq<bv16> := [0x9188, 0x81A9, 0xB1CA, 0xA1EB, 0xD10C, 0xC12D, 0xF14E, 0xE16F, 0x1080, 0x00A1, 0x30C2, 0x20E3, 0x5004, 0x4025, 0x7046, 0x6067]
  const ROW_9: seq<bv16> := [0x83B9, 0x9398, 0xA3FB, 0xB3DA, 0xC33D, 0xD31C, 0xE37F, 0xF35E, 0x02B1, 0x1290, 0x22F3, 0x32D2, 0x4235, 0x5214, 0x6277, 0x7256]
  const ROW_A: seq<bv16> := [0xB5EA, 0xA5CB, 0x95A8, 0x8589, 0xF56E, 0xE54F, 0xD52C, 0xC50D, 0x34E2, 0x24C3, 0x14A0, 0x0481, 0x7466, 0x6447, 0x5424, 0x4405]
  const ROW_B: seq<bv16> := [0xA7DB, 0xB7FA, 0x8799, 0x97B8, 0xE75F, 0xF77E, 0xC71D, 0xD73C, 0x26D3, 0x36F2, 0x0691, 0x16B0, 0x6657, 0x7676, 0x4615, 0x5634]
  const ROW_C: seq<bv16> := [0xD94C, 0xC96D, 0xF90E, 0xE92F, 0x99C8, 0x89E9, 0xB98A, 0xA9AB, 0x5844, 0x4865, 0x7806, 0x6827, 0x18C0, 0x08E1, 0x3882, 0x28A3]
  const ROW_D: seq<bv16> := [0xCB7D, 0xDB5C, 0xEB3F, 0xFB1E, 0x8BF9, 0x9BD8, 0xABBB, 0xBB9A, 0x4A75, 0x5A54, 0x6A37, 0x7A16, 0x0AF1, 0x1AD0, 0x2AB3, 0x3A92]
  const ROW_E: seq<bv16> := [0xFD2E, 0xED0F, 0xDD6C, 0xCD4D, 0xBDAA, 0xAD8B, 0x9DE8, 0x8DC9, 0x7C26, 0x6C07, 0x5C64, 0x4C45, 0x3CA2, 0x2C83, 0x1CE0, 0x0CC1]
  const ROW_F: seq<bv16> := [0xEF1F, 0xFF3E, 0xCF5D, 0xDF7C, 0xAF9B, 0xBFBA, 0x8FD9, 0x9FF8, 0x6E17, 0x7E36, 0x4E55, 0x5E74, 0x2E93, 0x3EB2, 0x0ED1, 0x1EF0]

  /** One place up on the machine word. */
  function ShiftUp(r: bv16): bv16 {
    if r & 0x8000 != 0 then (r << 1) ^ 0x1021 else r << 1
  }

  function ShiftUp8(r: bv16): bv16 {
    ShiftUp(ShiftUp(ShiftUp(ShiftUp(ShiftUp(ShiftUp(ShiftUp(ShiftUp(r))))))))
  }

  /** A row of `crc_16_ccitt_table`, by the high half of the index. */
  function Row(hi: bv8): seq<bv16> {
    match hi
    case 0 => ROW_0
    case 1 => ROW_1
    case 2 => ROW_2
    case 3 => ROW_3
    case 4 => ROW_4
    case 5 => ROW_5
    case 6 => ROW_6
    case 7 => ROW_7
    case 8 => ROW_8
    case 9 => ROW_9
    case 10 => ROW_A
    case 11 => ROW_B
    case 12 => ROW_C
    case 13 => ROW_D
    case 14 => ROW_E
    case _ => ROW_F
  }

  /** The row holds what eight shifts make of its index, put at the top of the register. */
  ghost predicate RowFits(row: seq<bv16>, top: bv16) {
    && |row| == 16
    && row[0] == ShiftUp8(top ^ 0x000) && row[1] == ShiftUp8(top ^ 0x100)
    && row[2] == ShiftUp8(top ^ 0x200) && row[3] == ShiftUp8(top ^ 0x300)
    && row[4] == ShiftUp8(top ^ 0x400) && row[5] == ShiftUp8(top ^ 0x500)
    && row[6] == ShiftUp8(top ^ 0x600) && row[7] == ShiftUp8(top ^ 0x700)
    && row[8] == ShiftUp8(top ^ 0x800) && row[9] == ShiftUp8(top ^ 0x900)
    && row[10] == ShiftUp8(top ^ 0xA00) && row[11] == ShiftUp8(top ^ 0xB00)
    && row[12] == ShiftUp8(top ^ 0xC00) && row[13] == ShiftUp8(top ^ 0xD00)
    && row[14] == ShiftUp8(top ^ 0xE00) && row[15] == ShiftUp8(top ^ 0xF00)
  }

  lemma Row0Fits() ensures RowFits(ROW_0, 0x0000) {}
  lemma Row1Fits() ensures RowFits(ROW_1, 0x1000) {}
  lemma Row2Fits() ensures RowFits(ROW_2, 0x2000) {}
  lemma Row3Fits() ensures RowFits(ROW_3, 0x3000) {}
  lemma Row4Fits() ensures RowFits(ROW_4, 0x4000) {}
  lemma Row5Fits() ensures RowFits(ROW_5, 0x5000) {}
  lemma Row6Fits() ensures RowFits(ROW_6, 0x6000) {}
  lemma Row7Fits() ensures RowFits(ROW_7, 0x7000) {}
  lemma Row8Fits() ensures RowFits(ROW_8, 0x8000) {}
  lemma Row9Fits() ensures RowFits(ROW_9, 0x9000) {}
  lemma RowAFits() ensures RowFits(ROW_A, 0xA000) {}
  lemma RowBFits() ensures RowFits(ROW_B, 0xB000) {}
  lemma RowCFits() ensures RowFits(ROW_C, 0xC000) {}
  lemma RowDFits() ensures RowFits(ROW_D, 0xD000) {}
  lemma RowEFits() ensures RowFits(ROW_E, 0xE000) {}
  lemma RowFFits() ensures RowFits(ROW_F, 0xF000) {}

  lemma Rows0To5Fit(hi: bv8)
    requires hi < 6
    ensures RowFits(Row(hi), (hi as bv16) << 12)
  {
    match hi
    case 0 => Row0Fits();
    case 1 => Row1Fits();
    case 2 => Row2Fits();
    case 3 => Row3Fits();
    case 4 => Row4Fits();
    case _ => Row5Fits();
  }

  lemma Rows6ToAFit(hi: bv8)
    requires 6 <= hi < 11
    ensures RowFits(Row(hi), (hi as bv16) << 12)
  {
    match hi
    case 6 => Row6Fits();
    case 7 => Row7Fits();
    case 8 => Row8Fits();
    case 9 => Row9Fits();
    case _ => RowAFits();
  }

  lemma RowsBToFFit(hi: bv8)
    requires 11 <= hi < 16
    ensures RowFits(Row(hi), (hi as bv16) << 12)
  {
    match hi
    case 11 => RowBFits();
    case 12 => RowCFits();
    case 13 => RowDFits();
    case 14 => RowEFits();
    case _ => RowFFits();
  }

  lemma RowsFit(hi: bv8)
    requires hi < 16
    ensures RowFits(Row(hi), (hi as bv16) << 12)
  {
    if hi < 6 { Rows0To5Fit(hi); } else if hi < 11 { Rows6ToAFit(hi); } else { RowsBToFFit(hi); }
  }

  /** An entry of a row, by the low half of the index. */
  function Column(row: seq<bv16>, lo: bv8): bv16
    requires |row| == 16
  {
    match lo
    case 0 => row[0]
    case 1 => row[1]
    case 2 => row[2]
    case 3 => row[3]
    case 4 => row[4]
    case 5 => row[5]
    case 6 => row[6]
    case 7 => row[7]
    case 8 => row[8]
    case 9 => row[9]
    case 10 => row[10]
    case 11 => row[11]
    case 12 => row[12]
    case 13 => row[13]
    case 14 => row[14]
    case _ => row[15]
  }

  lemma ColumnFits(row: seq<bv16>, top: bv16, f: bv16 -> bv16, lo: bv8)
    requires |row| == 16 && lo < 16
    requires row[0] == f(top ^ 0x000)
    requires row[1] == f(top ^ 0x100)
    requires row[2] == f(top ^ 0x200)
    requires row[3] == f(top ^ 0x300)
    requires row[4] == f(top ^ 0x400)
    requires row[5] == f(top ^ 0x500)
    requires row[6] == f(top ^ 0x600)
    requires row[7] == f(top ^ 0x700)
    requires row[8] == f(top ^ 0x800)
    requires row[9] == f(top ^ 0x900)
    requires row[10] == f(top ^ 0xA00)
    requires row[11] == f(top ^ 0xB00)
    requires row[12] == f(top ^ 0xC00)
    requires row[13] == f(top ^ 0xD00)
    requires row[14] == f(top ^ 0xE00)
    requires row[15] == f(top ^ 0xF00)
    ensures Column(row, lo) == f(top ^ ((lo as bv16) << 8))
  {
  }

  /** `crc_16_ccitt_table[b]` */
  function Entry(b: bv8): bv16 {
    RowsFit(b >> 4);
    Column(Row(b >> 4), b & 15)
  }

  /** The whole table: entry `b` is what eight shifts make of `b` at the top of the register. */
  lemma EntryIsShifts(b: bv8)
    ensures Entry(b) == ShiftUp8((b as bv16) << 8)
  {
    RowsFit(b >> 4);
    ColumnFits(Row(b >> 4), ((b >> 4) as bv16) << 12, ShiftUp8, b & 15);
    assert (((b >> 4) as bv16) << 12) ^ (((b & 15) as bv16) << 8) == (b as bv16) << 8;
  }

  // ---------- the loop ----------

  /** One round of the loop of `crc16_ccitt`. */
  function ByteStep(crc: bv16, b: bv8): bv16 {
    (crc << 8) ^ Entry((crc >> 8) as bv8 ^ b)
  }

  function CrcFrom(crc: bv16, data: seq<bv8>): bv16
    decreases |data|
  {
    if data == [] then crc else CrcFrom(ByteStep(crc, data[0]), data[1..])
  }

  function Crc(data: seq<bv8>): bv16 {
    CrcFrom(0xFFFF, data)
  }

  // ---------- machine words as bits ----------

  const MASKS: seq<bv16> := [
    0x8000, 0x4000, 0x2000, 0x1000, 0x800, 0x400, 0x200, 0x100, 0x80, 0x40, 0x20, 0x10, 8, 4, 2, 1
  ]

  /** The bits of a machine word, most significant first. */
  function Word16(r: bv16): (w: Word)
    ensures |w| == 16 && forall i :: 0 <= i < 16 ==> w[i] == (r & MASKS[i] != 0)
  {
    seq(16, i requires 0 <= i < 16 => r & MASKS[i] != 0)
  }

  function Word8(b: bv8): (w: Word)
    ensures |w| == 8
  {
    Word16((b as bv16) << 8)[..8]
  }

  /** The message as one bit string, most significant bit of each byte first. */
  function BitsOf(data: seq<bv8>): (w: Word)
    ensures |w| == 8 * |data|
  {
    if data == [] then [] else Word8(data[0]) + BitsOf(data[1..])
  }

  lemma MaskIsOneBit(i: nat)
    requires i < 16
    ensures MASKS[i] & (MASKS[i] - 1) == 0
    ensures (0x1021 & MASKS[i] != 0) == InGenerator(i)
    ensures i < 15 ==> MASKS[i + 1] == MASKS[i] >> 1
    ensures i < 8 ==> MASKS[i + 8] == MASKS[i] >> 8 && MASKS[i] & 0xFF == 0
    ensures i >= 8 ==> MASKS[i] & 0xFF00 == 0
  {
  }

  lemma XorAtMask(a: bv16, b: bv16, m: bv16)
    requires m & (m - 1) == 0
    ensures ((a ^ b) & m != 0) == ((a & m != 0) != (b & m != 0))
  {
  }

  lemma XorBits16(a: bv16, b: bv16)
    ensures Word16(a ^ b) == Xor(Word16(a), Word16(b))
  {
    forall i | 0 <= i < 16 ensures Word16(a ^ b)[i] == Xor(Word16(a), Word16(b))[i] {
      MaskIsOneBit(i);
      XorAtMask(a, b, MASKS[i]);
    }
  }

  lemma XorBits8(a: bv8, b: bv8)
    ensures Word8(a ^ b) == Xor(Word8(a), Word8(b))
  {
    XorBits16((a as bv16) << 8, (b as bv16) << 8);
    assert ((a ^ b) as bv16) << 8 == ((a as bv16) << 8) ^ ((b as bv16) << 8);
  }

  lemma SameMasked(a: bv16, b: bv16)
    requires (a & 0x8000 != 0) == (b & 0x8000 != 0)
    requires (a & 0x4000 != 0) == (b & 0x4000 != 0)
    requires (a & 0x2000 != 0) == (b & 0x2000 != 0)
    requires (a & 0x1000 != 0) == (b & 0x1000 != 0)
    requires (a & 0x800 != 0) == (b & 0x800 != 0)
    requires (a & 0x400 != 0) == (b & 0x400 != 0)
    requires (a & 0x200 != 0) == (b & 0x200 != 0)
    requires (a & 0x100 != 0) == (b & 0x100 != 0)
    requires (a & 0x80 != 0) == (b & 0x80 != 0)
    requires (a & 0x40 != 0) == (b & 0x40 != 0)
    requires (a & 0x20 != 0) == (b & 0x20 != 0)
    requires (a & 0x10 != 0) == (b & 0x10 != 0)
    requires (a & 0x8 != 0) == (b & 0x8 != 0)
    requires (a & 0x4 != 0) == (b & 0x4 != 0)
    requires (a & 0x2 != 0) == (b & 0x2 != 0)
    requires (a & 0x1 != 0) == (b & 0x1 != 0)
    ensures a == b
  {
  }

  lemma SameAt(a: bv16, b: bv16, i: nat)
    requires Word16(a) == Word16(b) && i < 16
    ensures (a & MASKS[i] != 0) == (b & MASKS[i] != 0)
  {
    assert Word16(a)[i] == Word16(b)[i];
  }

  lemma HighMasks(a: bv16, b: bv16)
    requires Word16(a) == Word16(b)
    ensures (a & 0x8000 != 0) == (b & 0x8000 != 0)
    ensures (a & 0x4000 != 0) == (b & 0x4000 != 0)
    ensures (a & 0x2000 != 0) == (b & 0x2000 != 0)
    ensures (a & 0x1000 != 0) == (b & 0x1000 != 0)
    ensures (a & 0x800 != 0) == (b & 0x800 != 0)
    ensures (a & 0x400 != 0) == (b & 0x400 != 0)
    ensures (a & 0x200 != 0) == (b & 0x200 != 0)
    ensures (a & 0x100 != 0) == (b & 0x100 != 0)
  {
    SameAt(a, b, 0);
    SameAt(a, b, 1);
    SameAt(a, b, 2);
    SameAt(a, b, 3);
    SameAt(a, b, 4);
    SameAt(a, b, 5);
    SameAt(a, b, 6);
    SameAt(a, b, 7);
  }

  lemma LowMasks(a: bv16, b: bv16)
    requires Word16(a) == Word16(b)
    ensures (a & 0x80 != 0) == (b & 0x80 != 0)
    ensures (a & 0x40 != 0) == (b & 0x40 != 0)
    ensures (a & 0x20 != 0) == (b & 0x20 != 0)
    ensures (a & 0x10 != 0) == (b & 0x10 != 0)
    ensures (a & 0x8 != 0) == (b & 0x8 != 0)
    ensures (a & 0x4 != 0) == (b & 0x4 != 0)
    ensures (a & 0x2 != 0) == (b & 0x2 != 0)
    ensures (a & 0x1 != 0) == (b & 0x1 != 0)
  {
    SameAt(a, b, 8);
    SameAt(a, b, 9);
    SameAt(a, b, 10);
    SameAt(a, b, 11);
    SameAt(a, b, 12);
    SameAt(a, b, 13);
    SameAt(a, b, 14);
    SameAt(a, b, 15);
  }

  lemma SameBits16(a: bv16, b: bv16)
    requires Word16(a) == Word16(b)
    ensures a == b
  {
    HighMasks(a, b);
    LowMasks(a, b);
    SameMasked(a, b);
  }

  lemma UpAtMask(r: bv16, m: bv16)
    requires m & (m - 1) == 0
    ensures ((r << 1) & m != 0) == (r & (m >> 1) != 0)
  {
  }

  lemma DoubleBits(r: bv16)
    ensures Word16(r << 1) == Word16(r)[1..] + [false]
  {
    forall i | 0 <= i < 16 ensures Word16(r << 1)[i] == (Word16(r)[1..] + [false])[i] {
      MaskIsOneBit(i);
      UpAtMask(r, MASKS[i]);
    }
  }

  lemma GeneratorBits()
    ensures Word16(0x1021) == GENERATOR
  {
    GeneratorTerms();
    var w := Word16(0x1021);
    forall i | 0 <= i < 16 ensures w[i] == GENERATOR[i] { MaskIsOneBit(i); }
  }

  lemma ShiftBits(r: bv16)
    ensures Word16(ShiftUp(r)) == Shift(Word16(r))
  {
    DoubleBits(r);
    GeneratorBits();
    XorBits16(r << 1, 0x1021);
  }

  lemma HighBits(r: bv16)
    ensures Word8((r >> 8) as bv8) == Word16(r)[..8]
  {
    assert (((r >> 8) as bv8) as bv16) << 8 == r & 0xFF00;
    var high := Word16(r & 0xFF00);
    forall i | 0 <= i < 8 ensures high[i] == Word16(r)[i] {
      MaskIsOneBit(i);
      assert r & 0xFF00 & MASKS[i] == r & MASKS[i];
    }
  }

  lemma UpBits(r: bv16)
    ensures Word16(r << 8) == Word16(r)[8..] + Zeros(8)
  {
    forall i | 0 <= i < 16 ensures Word16(r << 8)[i] == (Word16(r)[8..] + Zeros(8))[i] {
      MaskIsOneBit(i);
    }
  }

  lemma TopBits(b: bv8)
    ensures Word16((b as bv16) << 8) == Word8(b) + Zeros(8)
  {
    var w := Word16((b as bv16) << 8);
    forall i | 8 <= i < 16 ensures !w[i] { MaskIsOneBit(i); }
  }

  // ---------- the loop divides ----------

  lemma MoveOut(w: Word, n: nat)
    requires |w| == 16 && n > 0
    ensures Divide(w, Zeros(n)) == Divide(Shift(w), Zeros(n - 1))
  {
    assert Zeros(n)[1..] == Zeros(n - 1);
    assert w[0 := w[0]] == w;
  }

  lemma FourShifts(r: bv16, n: nat)
    ensures Divide(Word16(r), Zeros(n + 4)) == Divide(Word16(ShiftUp(ShiftUp(ShiftUp(ShiftUp(r))))), Zeros(n))
  {
    var r1 := ShiftUp(r);
    var r2 := ShiftUp(r1);
    var r3 := ShiftUp(r2);
    MoveOut(Word16(r), n + 4);
    ShiftBits(r);
    MoveOut(Word16(r1), n + 3);
    ShiftBits(r1);
    MoveOut(Word16(r2), n + 2);
    ShiftBits(r2);
    MoveOut(Word16(r3), n + 1);
    ShiftBits(r3);
  }

  lemma LastShifts(r: bv16)
    ensures Divide(Word16(r), Zeros(4)) == Word16(ShiftUp(ShiftUp(ShiftUp(ShiftUp(r)))))
  {
    FourShifts(r, 0);
  }

  lemma EightShifts(r: bv16)
    ensures Divide(Word16(r), Zeros(8)) == Word16(ShiftUp8(r))
  {
    FourShifts(r, 4);
    LastShifts(ShiftUp(ShiftUp(ShiftUp(ShiftUp(r)))));
  }

  /** Entry `x` of the table is the remainder that the byte `x` leaves. */
  lemma EntryIsRemainder(x: bv8)
    ensures Word16(Entry(x)) == Divide(Word8(x) + Zeros(8), Zeros(8))
  {
    EntryIsShifts(x);
    TopBits(x);
    EightShifts((x as bv16) << 8);
  }

  lemma IndexBits(crc: bv16, b: bv8)
    ensures Word8((crc >> 8) as bv8 ^ b) == Xor(Word16(crc)[..8], Word8(b))
  {
    HighBits(crc);
    XorBits8((crc >> 8) as bv8, b);
  }

  lemma IndexedEntry(crc: bv16, b: bv8)
    ensures Word16(Entry((crc >> 8) as bv8 ^ b)) == Divide(Xor(Word16(crc)[..8], Word8(b)) + Zeros(8), Zeros(8))
  {
    IndexBits(crc, b);
    EntryIsRemainder((crc >> 8) as bv8 ^ b);
  }

  /** The two halves of a round, as bits. */
  lemma Halves(crc: bv16, b: bv8) returns (up: bv16, entry: bv16)
    ensures ByteStep(crc, b) == up ^ entry
    ensures Word16(up) == Word16(crc)[8..] + Zeros(8)
    ensures Word16(entry) == Divide(Xor(Word16(crc)[..8], Word8(b)) + Zeros(8), Zeros(8))
  {
    up := crc << 8;
    entry := Entry((crc >> 8) as bv8 ^ b);
    UpBits(crc);
    IndexedEntry(crc, b);
  }

  lemma PutTogether(up: bv16, entry: bv16, w: Word, b: Word)
    requires |w| == 16 && |b| == 8 && Word16(up) == w[8..] + Zeros(8)
    requires Word16(entry) == Divide(Xor(w[..8], b) + Zeros(8), Zeros(8))
    ensures Word16(up ^ entry) == Divide(w, b)
  {
    ByteSplits(w, b);
    XorBits16(up, entry);
  }

  lemma ByteStepDivides(crc: bv16, b: bv8)
    ensures Word16(ByteStep(crc, b)) == Divide(Word16(crc), Word8(b))
  {
    var up, entry := Halves(crc, b);
    PutTogether(up, entry, Word16(crc), Word8(b));
  }

  /** The table-driven loop divides bit by bit, whatever the data and the register it starts from. */
  lemma {:induction false} TableIsDivision(crc: bv16, data: seq<bv8>)
    ensures Word16(CrcFrom(crc, data)) == Divide(Word16(crc), BitsOf(data))
    decreases |data|
  {
    if data != [] {
      ByteStepDivides(crc, data[0]);
      DivideConcat(Word16(crc), Word8(data[0]), BitsOf(data[1..]));
      TableIsDivision(ByteStep(crc, data[0]), data[1..]);
    }
  }

  /** `crc16_ccitt` */
  method ComputeCrc(data: seq<bv8>) returns (crc: bv16)
    ensures crc == Crc(data)
    ensures Word16(crc) == Divide(Word16(0xFFFF), BitsOf(data))
  {
    crc := 0xFFFF;
    var i := 0;
    while i < |data|
      invariant 0 <= i <= |data|
      invariant CrcFrom(crc, data[i..]) == Crc(data)
    {
      assert data[i..][0] == data[i] && data[i..][1..] == data[i + 1..];
      crc := ByteStep(crc, data[i]);
      i := i + 1;
    }
    TableIsDivision(0xFFFF, data);
  }

  // ---------- what the CRC promises ----------

  /** Every burst is detected: different messages of one length that differ only within sixteen consecutive bits have different CRCs. */
  lemma BurstIsDetected(a: seq<bv8>, b: seq<bv8>, start: nat)
    requires |a| == |b| && a != b && DifferInWindow(BitsOf(a), BitsOf(b), start)
    ensures Crc(a) != Crc(b)
  {
    if BitsOf(a) == BitsOf(b) { SameBitsOf(a, b); }
    TableIsDivision(0xFFFF, a);
    TableIsDivision(0xFFFF, b);
    BurstChangesRemainder(Word16(0xFFFF), BitsOf(a), BitsOf(b), start);
  }

  lemma SameBits8(a: bv8, b: bv8)
    requires Word8(a) == Word8(b)
    ensures a == b
  {
    TopBits(a);
    TopBits(b);
    SameBits16((a as bv16) << 8, (b as bv16) << 8);
    assert (a as bv16) << 8 == (b as bv16) << 8 ==> a == b;
  }

  lemma {:induction false} SameBitsOf(a: seq<bv8>, b: seq<bv8>)
    requires |a| == |b| && BitsOf(a) == BitsOf(b)
    ensures a == b
    decreases |a|
  {
    if a != [] {
      assert Word8(a[0]) == BitsOf(a)[..8] == BitsOf(b)[..8] == Word8(b[0]);
      assert BitsOf(a[1..]) == BitsOf(a)[8..] == BitsOf(b)[8..] == BitsOf(b[1..]);
      SameBits8(a[0], b[0]);
      SameBitsOf(a[1..], b[1..]);
    }
  }

  /** Bytewise exclusive or */
  function XorBytes(a: seq<bv8>, b: seq<bv8>): (r: seq<bv8>)
    requires |a| == |b|
    ensures |r| == |a|
  {
    if a == [] then [] else [a[0] ^ b[0]] + XorBytes(a[1..], b[1..])
  }

  lemma {:induction false} BitsOfXor(a: seq<bv8>, b: seq<bv8>)
    requires |a| == |b|
    ensures BitsOf(XorBytes(a, b)) == Xor(BitsOf(a), BitsOf(b))
    decreases |a|
  {
    if a != [] {
      XorBits8(a[0], b[0]);
      BitsOfXor(a[1..], b[1..]);
    }
  }

  /** Remainders from a register and itself twice over add up as the strings do. */
  lemma ThreeRemainders(r: Word, a: Word, b: Word, c: Word)
    requires |r| == 16 && |a| == |b| == |c|
    ensures Divide(r, Xor(Xor(a, b), c)) == Xor(Xor(Divide(r, a), Divide(r, b)), Divide(r, c))
  {
    DivideIsLinear(r, r, a, b);
    DivideIsLinear(Xor(r, r), r, Xor(a, b), c);
    assert Xor(Xor(r, r), r) == r;
  }

  lemma XorOfThree(d: bv16, a: bv16, b: bv16, c: bv16)
    requires Word16(d) == Xor(Xor(Word16(a), Word16(b)), Word16(c))
    ensures d == a ^ b ^ c
  {
    XorBits16(a, b);
    XorBits16(a ^ b, c);
    SameBits16(d, a ^ b ^ c);
  }

  /** Affine: the initial value makes three messages, not two, add up. */
  lemma CrcIsAffine(a: seq<bv8>, b: seq<bv8>, c: seq<bv8>)
    requires |a| == |b| == |c|
    ensures Crc(XorBytes(XorBytes(a, b), c)) == Crc(a) ^ Crc(b) ^ Crc(c)
  {
    var ab := XorBytes(a, b);
    BitsOfXor(a, b);
    BitsOfXor(ab, c);
    ThreeRemainders(Word16(0xFFFF), BitsOf(a), BitsOf(b), BitsOf(c));
    TableIsDivision(0xFFFF, a);
    TableIsDivision(0xFFFF, b);
    TableIsDivision(0xFFFF, c);
    TableIsDivision(0xFFFF, XorBytes(ab, c));
    XorOfThree(Crc(XorBytes(ab, c)), Crc(a), Crc(b), Crc(c));
  }

  lemma {:induction false} CrcFromConcat(crc: bv16, a: seq<bv8>, b: seq<bv8>)
    ensures CrcFrom(crc, a + b) == CrcFrom(CrcFrom(crc, a), b)
    decreases |a|
  {
    if a == [] {
      assert a + b == b;
    } else {
      assert (a + b)[1..] == a[1..] + b;
      CrcFromConcat(ByteStep(crc, a[0]), a[1..], b);
    }
  }

  lemma EntryOfZero()
    ensures Entry(0) == 0
  {
    EntryIsShifts(0);
  }

  lemma OwnHighByte(c: bv16)
    ensures ByteStep(c, (c >> 8) as bv8) == c << 8
  {
    EntryOfZero();
    assert (c >> 8) as bv8 ^ (c >> 8) as bv8 == 0;
  }

  lemma OwnLowByte(c: bv16)
    ensures ByteStep(c << 8, (c & 0xFF) as bv8) == 0
  {
    EntryOfZero();
    assert ((c << 8) >> 8) as bv8 ^ (c & 0xFF) as bv8 == 0;
  }

  lemma CrcFromTwo(crc: bv16, b: bv8, c: bv8)
    ensures CrcFrom(crc, [b, c]) == ByteStep(ByteStep(crc, b), c)
  {
    var step := ByteStep(crc, b);
    assert [b, c][1..] == [c] && [c][1..] == [];
    assert CrcFrom(step, [c]) == CrcFrom(ByteStep(step, c), []);
  }

  /** A message followed by its CRC, high byte first, has CRC zero. */
  lemma CrcOfMessageWithCrc(data: seq<bv8>)
    ensures Crc(data + [(Crc(data) >> 8) as bv8, (Crc(data) & 0xFF) as bv8]) == 0
  {
    var c := Crc(data);
    var hi, lo := (c >> 8) as bv8, (c & 0xFF) as bv8;
    CrcFromConcat(0xFFFF, data, [hi, lo]);
    CrcFromTwo(c, hi, lo);
    OwnHighByte(c);
    OwnLowByte(c);
  }
  // ---------- the check value ----------

  /** One round on concrete values: the shifts of the byte at the top of the register. */
  lemma StepTo(crc: bv16, data: seq<bv8>, next: bv16)
    requires data != []
    requires next == (crc << 8) ^ ShiftUp8((((crc >> 8) as bv8 ^ data[0]) as bv16) << 8)
    ensures CrcFrom(crc, data) == CrcFrom(next, data[1..])
  {
    EntryIsShifts((crc >> 8) as bv8 ^ data[0]);
  }

  /** The value that chats/p2p/crc/crc16-ccitt.h states for the digits 1 to 9. */
  lemma CheckValue()
    ensures Crc([0x31, 0x32, 0x33, 0x34, 0x35, 0x36, 0x37, 0x38, 0x39]) == 0x29B1
  {
    StepTo(0xFFFF, [0x31, 0x32, 0x33, 0x34, 0x35, 0x36, 0x37, 0x38, 0x39], 0xC782);
    StepTo(0xC782, [0x32, 0x33, 0x34, 0x35, 0x36, 0x37, 0x38, 0x39], 0x3DBA);
    StepTo(0x3DBA, [0x33, 0x34, 0x35, 0x36, 0x37, 0x38, 0x39], 0x5BCE);
    StepTo(0x5BCE, [0x34, 0x35, 0x36, 0x37, 0x38, 0x39], 0x5349);
    StepTo(0x5349, [0x35, 0x36, 0x37, 0x38, 0x39], 0x4560);
    StepTo(0x4560, [0x36, 0x37, 0x38, 0x39], 0x2EF4);
    StepTo(0x2EF4, [0x37, 0x38, 0x39], 0x7718);
    StepTo(0x7718, [0x38, 0x39], 0xA12B);
    StepTo(0xA12B, [0x39], 0x29B1);
  }
}
