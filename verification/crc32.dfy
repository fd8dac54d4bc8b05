/** The CRC-32 behind the FINGERPRINT attribute: the table-driven loop, the bit-at-a-time
    reference it must agree with, and what changes to a message it detects. */
module Crc32 {
  import opened Octets

  const CRC_MASK: bv32 := 0xFFFF_FFFF
  const CRCPOLY: bv32 := 0xEDB8_8320

  /* ---------- The reflected bit-at-a-time reference ---------- */

  function BitStep(r: bv32): bv32 {
    if r & 1 == 1 then (r >> 1) ^ CRCPOLY else r >> 1
  }

  function ByteStep(r: bv32): bv32 {
    BitStep(BitStep(BitStep(BitStep(BitStep(BitStep(BitStep(BitStep(r))))))))
  }

  function Extend(c: byte): bv32 { Bits(c) as bv32 }

  /** A 32-bit register. The wrapper keeps proofs about whole runs away from single bits. */
  datatype Word = Word(bits: bv32)

  /** One octet, fed least significant bit first. */
  function Step(r: Word, c: byte): Word { Word(ByteStep(r.bits ^ Extend(c))) }

  function Register(r: Word, s: seq<byte>): Word
    decreases |s|
  {
    if s == [] then r else Register(Step(r, s[0]), s[1..])
  }

  function Complement(r: Word): Word { Word(!r.bits) }

  function Reference(s: seq<byte>): Word { Complement(Register(Word(CRC_MASK), s)) }

  /* ---------- The lookup table, row by row as the source lists it ---------- */

  const ROWS: seq<seq<bv32>> := [
    [
      0x0000_0000, 0x7707_3096, 0xEE0E_612C, 0x9909_51BA, 0x076D_C419, 0x706A_F48F, 0xE963_A535, 0x9E64_95A3,
      0x0EDB_8832, 0x79DC_B8A4, 0xE0D5_E91E, 0x97D2_D988, 0x09B6_4C2B, 0x7EB1_7CBD, 0xE7B8_2D07, 0x90BF_1D91
    ],
    [
      0x1DB7_1064, 0x6AB0_20F2, 0xF3B9_7148, 0x84BE_41DE, 0x1ADA_D47D, 0x6DDD_E4EB, 0xF4D4_B551, 0x83D3_85C7,
      0x136C_9856, 0x646B_A8C0, 0xFD62_F97A, 0x8A65_C9EC, 0x1401_5C4F, 0x6306_6CD9, 0xFA0F_3D63, 0x8D08_0DF5
    ],
    [
      0x3B6E_20C8, 0x4C69_105E, 0xD560_41E4, 0xA267_7172, 0x3C03_E4D1, 0x4B04_D447, 0xD20D_85FD, 0xA50A_B56B,
      0x35B5_A8FA, 0x42B2_986C, 0xDBBB_C9D6, 0xACBC_F940, 0x32D8_6CE3, 0x45DF_5C75, 0xDCD6_0DCF, 0xABD1_3D59
    ],
    [
      0x26D9_30AC, 0x51DE_003A, 0xC8D7_5180, 0xBFD0_6116, 0x21B4_F4B5, 0x56B3_C423, 0xCFBA_9599, 0xB8BD_A50F,
      0x2802_B89E, 0x5F05_8808, 0xC60C_D9B2, 0xB10B_E924, 0x2F6F_7C87, 0x5868_4C11, 0xC161_1DAB, 0xB666_2D3D
    ],
    [
      0x76DC_4190, 0x01DB_7106, 0x98D2_20BC, 0xEFD5_102A, 0x71B1_8589, 0x06B6_B51F, 0x9FBF_E4A5, 0xE8B8_D433,
      0x7807_C9A2, 0x0F00_F934, 0x9609_A88E, 0xE10E_9818, 0x7F6A_0DBB, 0x086D_3D2D, 0x9164_6C97, 0xE663_5C01
    ],
    [
      0x6B6B_51F4, 0x1C6C_6162, 0x8565_30D8, 0xF262_004E, 0x6C06_95ED, 0x1B01_A57B, 0x8208_F4C1, 0xF50F_C457,
      0x65B0_D9C6, 0x12B7_E950, 0x8BBE_B8EA, 0xFCB9_887C, 0x62DD_1DDF, 0x15DA_2D49, 0x8CD3_7CF3, 0xFBD4_4C65
    ],
    [
      0x4DB2_6158, 0x3AB5_51CE, 0xA3BC_0074, 0xD4BB_30E2, 0x4ADF_A541, 0x3DD8_95D7, 0xA4D1_C46D, 0xD3D6_F4FB,
      0x4369_E96A, 0x346E_D9FC, 0xAD67_8846, 0xDA60_B8D0, 0x4404_2D73, 0x3303_1DE5, 0xAA0A_4C5F, 0xDD0D_7CC9
    ],
    [
      0x5005_713C, 0x2702_41AA, 0xBE0B_1010, 0xC90C_2086, 0x5768_B525, 0x206F_85B3, 0xB966_D409, 0xCE61_E49F,
      0x5EDE_F90E, 0x29D9_C998, 0xB0D0_9822, 0xC7D7_A8B4, 0x59B3_3D17, 0x2EB4_0D81, 0xB7BD_5C3B, 0xC0BA_6CAD
    ],
    [
      0xEDB8_8320, 0x9ABF_B3B6, 0x03B6_E20C, 0x74B1_D29A, 0xEAD5_4739, 0x9DD2_77AF, 0x04DB_2615, 0x73DC_1683,
      0xE363_0B12, 0x9464_3B84, 0x0D6D_6A3E, 0x7A6A_5AA8, 0xE40E_CF0B, 0x9309_FF9D, 0x0A00_AE27, 0x7D07_9EB1
    ],
    [
      0xF00F_9344, 0x8708_A3D2, 0x1E01_F268, 0x6906_C2FE, 0xF762_575D, 0x8065_67CB, 0x196C_3671, 0x6E6B_06E7,
      0xFED4_1B76, 0x89D3_2BE0, 0x10DA_7A5A, 0x67DD_4ACC, 0xF9B9_DF6F, 0x8EBE_EFF9, 0x17B7_BE43, 0x60B0_8ED5
    ],
    [
      0xD6D6_A3E8, 0xA1D1_937E, 0x38D8_C2C4, 0x4FDF_F252, 0xD1BB_67F1, 0xA6BC_5767, 0x3FB5_06DD, 0x48B2_364B,
      0xD80D_2BDA, 0xAF0A_1B4C, 0x3603_4AF6, 0x4104_7A60, 0xDF60_EFC3, 0xA867_DF55, 0x316E_8EEF, 0x4669_BE79
    ],
    [
      0xCB61_B38C, 0xBC66_831A, 0x256F_D2A0, 0x5268_E236, 0xCC0C_7795, 0xBB0B_4703, 0x2202_16B9, 0x5505_262F,
      0xC5BA_3BBE, 0xB2BD_0B28, 0x2BB4_5A92, 0x5CB3_6A04, 0xC2D7_FFA7, 0xB5D0_CF31, 0x2CD9_9E8B, 0x5BDE_AE1D
    ],
    [
      0x9B64_C2B0, 0xEC63_F226, 0x756A_A39C, 0x026D_930A, 0x9C09_06A9, 0xEB0E_363F, 0x7207_6785, 0x0500_5713,
      0x95BF_4A82, 0xE2B8_7A14, 0x7BB1_2BAE, 0x0CB6_1B38, 0x92D2_8E9B, 0xE5D5_BE0D, 0x7CDC_EFB7, 0x0BDB_DF21
    ],
    [
      0x86D3_D2D4, 0xF1D4_E242, 0x68DD_B3F8, 0x1FDA_836E, 0x81BE_16CD, 0xF6B9_265B, 0x6FB0_77E1, 0x18B7_4777,
      0x8808_5AE6, 0xFF0F_6A70, 0x6606_3BCA, 0x1101_0B5C, 0x8F65_9EFF, 0xF862_AE69, 0x616B_FFD3, 0x166C_CF45
    ],
    [
      0xA00A_E278, 0xD70D_D2EE, 0x4E04_8354, 0x3903_B3C2, 0xA767_2661, 0xD060_16F7, 0x4969_474D, 0x3E6E_77DB,
      0xAED1_6A4A, 0xD9D6_5ADC, 0x40DF_0B66, 0x37D8_3BF0, 0xA9BC_AE53, 0xDEBB_9EC5, 0x47B2_CF7F, 0x30B5_FFE9
    ],
    [
      0xBDBD_F21C, 0xCABA_C28A, 0x53B3_9330, 0x24B4_A3A6, 0xBAD0_3605, 0xCDD7_0693, 0x54DE_5729, 0x23D9_67BF,
      0xB366_7A2E, 0xC461_4AB8, 0x5D68_1B02, 0x2A6F_2B94, 0xB40B_BE37, 0xC30C_8EA1, 0x5A05_DF1B, 0x2D02_EF8D
    ]
  ]

  /** The constant at index `n` of the 256-entry table. */
  function CrcTable(n: nat): bv32
    requires n < 256
  {
    ROWS[n / 16][n % 16]
  }

  ghost predicate IsGenerated(t: seq<bv32>) {
    |t| == 256 && forall n :: 0 <= n < 256 ==> t[n] == ByteStep(n as bv32)
  }

  /** The inner loop of the table generator, which the source keeps as a comment. */
  method MakeEntry(i: bv32) returns (r: bv32)
    ensures r == ByteStep(i)
  {
    r := i;
    var j := 8;
    StepsEight(i);
    while j > 0
      invariant 0 <= j <= 8
      invariant Steps(r, j) == ByteStep(i)
    {
      if r & 1 == 1 {
        r := (r >> 1) ^ CRCPOLY;
      } else {
        r := r >> 1;
      }
      j := j - 1;
    }
  }

  method MakeCrcTable() returns (t: seq<bv32>)
    ensures IsGenerated(t)
  {
    t := [];
    for i := 0 to 256
      invariant |t| == i
      invariant forall n :: 0 <= n < i ==> t[n] == ByteStep(n as bv32)
    {
      var r := MakeEntry(i as bv32);
      t := t + [r];
    }
  }

  function Steps(r: bv32, n: nat): bv32
    decreases n
  {
    if n == 0 then r else Steps(BitStep(r), n - 1)
  }

  lemma StepsEight(r: bv32)
    ensures Steps(r, 8) == ByteStep(r)
  {
  }

  function Sixteen<T>(t: seq<T>, k: nat): (r: seq<T>)
    requires k + 16 <= |t|
    ensures r == t[k..k + 16]
  {
    [t[k + 0], t[k + 1], t[k + 2], t[k + 3], t[k + 4], t[k + 5], t[k + 6], t[k + 7],
     t[k + 8], t[k + 9], t[k + 10], t[k + 11], t[k + 12], t[k + 13], t[k + 14], t[k + 15]]
  }

  lemma Row0(t: seq<bv32>)
    requires IsGenerated(t)
    ensures ROWS[0] == t[0..16]
  {
    var row := Sixteen(t, 0);
  }

  lemma Row1(t: seq<bv32>)
    requires IsGenerated(t)
    ensures ROWS[1] == t[16..32]
  {
    var row := Sixteen(t, 16);
  }

  lemma Row2(t: seq<bv32>)
    requires IsGenerated(t)
    ensures ROWS[2] == t[32..48]
  {
    var row := Sixteen(t, 32);
  }

  lemma Row3(t: seq<bv32>)
    requires IsGenerated(t)
    ensures ROWS[3] == t[48..64]
  {
    var row := Sixteen(t, 48);
  }

  lemma Row4(t: seq<bv32>)
    requires IsGenerated(t)
    ensures ROWS[4] == t[64..80]
  {
    var row := Sixteen(t, 64);
  }

  lemma Row5(t: seq<bv32>)
    requires IsGenerated(t)
    ensures ROWS[5] == t[80..96]
  {
    var row := Sixteen(t, 80);
  }

  lemma Row6(t: seq<bv32>)
    requires IsGenerated(t)
    ensures ROWS[6] == t[96..112]
  {
    var row := Sixteen(t, 96);
  }

  lemma Row7(t: seq<bv32>)
    requires IsGenerated(t)
    ensures ROWS[7] == t[112..128]
  {
    var row := Sixteen(t, 112);
  }

  lemma Row8(t: seq<bv32>)
    requires IsGenerated(t)
    ensures ROWS[8] == t[128..144]
  {
    var row := Sixteen(t, 128);
  }

  lemma Row9(t: seq<bv32>)
    requires IsGenerated(t)
    ensures ROWS[9] == t[144..160]
  {
    var row := Sixteen(t, 144);
  }

  lemma Row10(t: seq<bv32>)
    requires IsGenerated(t)
    ensures ROWS[10] == t[160..176]
  {
    var row := Sixteen(t, 160);
  }

  lemma Row11(t: seq<bv32>)
    requires IsGenerated(t)
    ensures ROWS[11] == t[176..192]
  {
    var row := Sixteen(t, 176);
  }

  lemma Row12(t: seq<bv32>)
    requires IsGenerated(t)
    ensures ROWS[12] == t[192..208]
  {
    var row := Sixteen(t, 192);
  }

  lemma Row13(t: seq<bv32>)
    requires IsGenerated(t)
    ensures ROWS[13] == t[208..224]
  {
    var row := Sixteen(t, 208);
  }

  lemma Row14(t: seq<bv32>)
    requires IsGenerated(t)
    ensures ROWS[14] == t[224..240]
  {
    var row := Sixteen(t, 224);
  }

  lemma Row15(t: seq<bv32>)
    requires IsGenerated(t)
    ensures ROWS[15] == t[240..256]
  {
    var row := Sixteen(t, 240);
  }

  lemma Row(t: seq<bv32>, k: nat)
    requires IsGenerated(t) && k < 16
    ensures |ROWS| == 16 && ROWS[k] == t[16 * k..16 * k + 16]
  {
    match k
    case 0 => Row0(t);
    case 1 => Row1(t);
    case 2 => Row2(t);
    case 3 => Row3(t);
    case 4 => Row4(t);
    case 5 => Row5(t);
    case 6 => Row6(t);
    case 7 => Row7(t);
    case 8 => Row8(t);
    case 9 => Row9(t);
    case 10 => Row10(t);
    case 11 => Row11(t);
    case 12 => Row12(t);
    case 13 => Row13(t);
    case 14 => Row14(t);
    case _ => Row15(t);
  }

  /** The 256 constants are exactly what the generator computes. */
  lemma TableIsGenerated(t: seq<bv32>, n: nat)
    requires IsGenerated(t) && n < 256
    ensures CrcTable(n) == t[n]
  {
    Row(t, n / 16);
    assert t[16 * (n / 16)..16 * (n / 16) + 16][n % 16] == t[n];
  }

  /* ---------- The table-driven loop ---------- */

  /** The index `(u08bits)crc ^ (u08bits)c`. */
  function Index(crc: bv32, c: byte): bv8 { (crc & 0xFF) as bv8 ^ Bits(c) }

  lemma IndexInRange(v: bv8)
    ensures 0 <= v as int < 256
  {
  }

  function LookUp(v: bv8): bv32 {
    IndexInRange(v);
    CrcTable(v as int)
  }

  function UpdateCrc(crc: Word, c: byte): Word {
    Word(LookUp(Index(crc.bits, c)) ^ (crc.bits >> 8))
  }

  lemma {:induction false} RegisterAppend(r: Word, s: seq<byte>, u: seq<byte>)
    ensures Register(r, s + u) == Register(Register(r, s), u)
    decreases |s|
  {
    hide Step;
    if s == [] {
      assert s + u == u;
    } else {
      RegisterAppend(Step(r, s[0]), s[1..], u);
      assert (s + u)[0] == s[0] && (s + u)[1..] == s[1..] + u;
    }
  }

  lemma ExtendIndex(crc: bv32, c: byte)
    ensures Index(crc, c) as bv32 == (crc & 0xFF) ^ Extend(c)
    ensures (crc ^ Extend(c)) == (Index(crc, c) as bv32) ^ (crc & 0xFFFF_FF00)
  {
  }

  /* ---------- The bit step over XOR ---------- */

  lemma Odd(a: bv32, b: bv32)
    ensures (a ^ b) & 1 == (a & 1) ^ (b & 1)
  {
  }

  lemma OddCases(a: bv32)
    ensures a & 1 == 1 || a & 1 == 0
  {
  }

  lemma Shift(a: bv32, b: bv32)
    ensures (a ^ b) >> 1 == (a >> 1) ^ (b >> 1)
  {
  }

  lemma XorMoves(x: bv32, y: bv32, p: bv32)
    ensures (x ^ y) ^ p == x ^ (y ^ p) == (x ^ p) ^ y
    ensures (x ^ p) ^ (y ^ p) == x ^ y
  {
  }

  lemma BitStepOfXor(a: bv32, b: bv32)
    ensures BitStep(a ^ b) == BitStep(a) ^ BitStep(b)
  {
    Odd(a, b);
    OddCases(a);
    OddCases(b);
    Shift(a, b);
    XorMoves(a >> 1, b >> 1, CRCPOLY);
  }

  lemma BitStepLinear(a: bv32, b: bv32, c: bv32)
    requires c == a ^ b
    ensures BitStep(c) == BitStep(a) ^ BitStep(b)
  {
    BitStepOfXor(a, b);
  }

  lemma BitStepLinearNamed(a: bv32, b: bv32, c: bv32, a1: bv32, b1: bv32, c1: bv32)
    requires c == a ^ b && a1 == BitStep(a) && b1 == BitStep(b) && c1 == BitStep(c)
    ensures c1 == a1 ^ b1
  {
    hide BitStep;
    calc {
      c1;
      BitStep(c);
      { BitStepLinear(a, b, c); }
      BitStep(a) ^ BitStep(b);
      a1 ^ b1;
    }
  }

  lemma {:induction false} StepsLinear(a: bv32, b: bv32, c: bv32, n: nat)
    requires c == a ^ b
    ensures Steps(c, n) == Steps(a, n) ^ Steps(b, n)
    decreases n
  {
    if n > 0 {
      var a1, b1, c1 := BitStep(a), BitStep(b), BitStep(c);
      BitStepLinearNamed(a, b, c, a1, b1, c1);
      StepsLinear(a1, b1, c1, n - 1);
    }
  }

  lemma StepsIsByteStep(r: bv32, n: nat)
    requires n == 8
    ensures Steps(r, n) == ByteStep(r)
  {
    StepsEight(r);
  }

  lemma EightStepsLinear(a: bv32, b: bv32, c: bv32, n: nat)
    requires c == a ^ b && n == 8
    ensures ByteStep(c) == ByteStep(a) ^ ByteStep(b)
  {
    hide ByteStep, BitStep, Steps;
    calc {
      ByteStep(c);
      { StepsIsByteStep(c, n); }
      Steps(c, n);
      { StepsLinear(a, b, c, n); }
      Steps(a, n) ^ Steps(b, n);
      { StepsIsByteStep(a, n); StepsIsByteStep(b, n); }
      ByteStep(a) ^ ByteStep(b);
    }
  }

  /** Eight bit steps are linear over XOR. */
  lemma ByteStepLinear(a: bv32, b: bv32, c: bv32)
    requires c == a ^ b
    ensures ByteStep(c) == ByteStep(a) ^ ByteStep(b)
  {
    EightStepsLinear(a, b, c, 8);
  }

  /** A register whose low octet is clear is only shifted. */
  lemma ByteStepShifts(h: bv32)
    requires h & 0xFF == 0
    ensures ByteStep(h) == h >> 8
  {
  }

  /** A small result shows that no feedback happened, so the register can be read back. */
  lemma ByteStepBack(d: bv32)
    requires ByteStep(d) < 0x0100_0000
    ensures d == ByteStep(d) << 8
  {
  }

  /* ---------- The table-driven loop computes the reference ---------- */

  lemma WordOfOctet(v: bv8)
    ensures 0 <= v as int < 256
    ensures (v as int) as bv32 == v as bv32
  {
    SameNumber(v);
    WordRoundTrip(v as bv32);
  }

  lemma SameNumber(v: bv8)
    ensures v as bv32 as int == v as int
  {
  }

  lemma WordRoundTrip(w: bv32)
    ensures (w as int) as bv32 == w
  {
  }

  ghost function Generated(): (t: seq<bv32>)
    ensures IsGenerated(t)
  {
    seq(256, n requires 0 <= n < 256 => ByteStep(n as bv32))
  }

  lemma LookUpIsByteStep(v: bv8)
    ensures LookUp(v) == ByteStep(v as bv32)
  {
    WordOfOctet(v);
    TableIsGenerated(Generated(), v as int);
  }

  lemma HighPart(crc: bv32)
    ensures ByteStep(crc & 0xFFFF_FF00) == crc >> 8
  {
    ByteStepShifts(crc & 0xFFFF_FF00);
  }

  lemma StepSplits(crc: bv32, c: byte)
    ensures ByteStep(crc ^ Extend(c)) == ByteStep(Index(crc, c) as bv32) ^ ByteStep(crc & 0xFFFF_FF00)
  {
    hide ByteStep;
    ExtendIndex(crc, c);
    ByteStepLinear(Index(crc, c) as bv32, crc & 0xFFFF_FF00, crc ^ Extend(c));
  }

  lemma XorBoth(a: bv32, b: bv32, c: bv32, d: bv32)
    requires a == c && b == d
    ensures a ^ b == c ^ d
  {
  }

  lemma LookUpSplits(r: bv32, c: byte)
    ensures LookUp(Index(r, c)) ^ (r >> 8) == ByteStep(Index(r, c) as bv32) ^ ByteStep(r & 0xFFFF_FF00)
  {
    hide ByteStep, LookUp, Index, Extend;
    HighPart(r);
    LookUpIsByteStep(Index(r, c));
    XorBoth(LookUp(Index(r, c)), r >> 8, ByteStep(Index(r, c) as bv32), ByteStep(r & 0xFFFF_FF00));
  }

  lemma LookUpIsStep(r: bv32, c: byte)
    ensures LookUp(Index(r, c)) ^ (r >> 8) == ByteStep(r ^ Extend(c))
  {
    hide ByteStep, LookUp, Index, Extend;
    LookUpSplits(r, c);
    StepSplits(r, c);
  }

  lemma SameWord(crc: Word, c: byte)
    requires LookUp(Index(crc.bits, c)) ^ (crc.bits >> 8) == ByteStep(crc.bits ^ Extend(c))
    ensures UpdateCrc(crc, c) == Step(crc, c)
  {
    hide ByteStep, LookUp, Index, Extend;
  }

  /** One table look-up does the work of eight bit steps. */
  lemma UpdateIsStep(crc: Word, c: byte)
    ensures UpdateCrc(crc, c) == Step(crc, c)
  {
    hide ByteStep, LookUp, Index, Extend, UpdateCrc, Step;
    LookUpIsStep(crc.bits, c);
    SameWord(crc, c);
  }

  lemma RegisterNext(r: Word, s: seq<byte>, c: byte)
    ensures Register(r, s + [c]) == UpdateCrc(Register(r, s), c)
  {
    hide Step, UpdateCrc;
    RegisterAppend(r, s, [c]);
    assert [c][1..] == [];
    UpdateIsStep(Register(r, s), c);
  }

  method NsCrc32(buffer: array<byte>, len: nat) returns (r: Word)
    requires len <= buffer.Length
    ensures r == Reference(buffer[..len])
  {
    hide Step, UpdateCrc;
    var crc := Word(CRC_MASK);
    var i := 0;
    while i < len
      invariant 0 <= i <= len
      invariant crc == Register(Word(CRC_MASK), buffer[..i])
    {
      RegisterNext(Word(CRC_MASK), buffer[..i], buffer[i]);
      assert buffer[..i + 1] == buffer[..i] + [buffer[i]];
      crc := UpdateCrc(crc, buffer[i]);
      i := i + 1;
    }
    r := Complement(crc);
  }

  /* ---------- What the checksum detects ---------- */

  /** One bit of an octet. */
  predicate IsBit(p: bv32) {
    p == 1 || p == 2 || p == 4 || p == 8 || p == 16 || p == 32 || p == 64 || p == 128
  }

  /** `d` fits in the bits below `p`, and in `k` octets on top of them. */
  predicate FitsIn(d: bv32, p: bv32, k: nat) {
    match k
    case 0 => d < p
    case 1 => d < p << 8
    case 2 => d < p << 16
    case 3 => d < p << 24
    case _ => true
  }

  lemma XorRegroups(r: bv32, q: bv32, m: bv32, n: bv32)
    ensures (r ^ m) ^ (q ^ n) == (r ^ q) ^ (m ^ n)
    ensures ((r ^ q) ^ (m ^ n)) ^ (m ^ n) == r ^ q
  {
  }

  lemma ZeroXor(a: bv32, b: bv32)
    ensures a ^ b == 0 <==> a == b
  {
  }

  lemma ExtendFits(c: byte, e: byte)
    ensures Extend(c) ^ Extend(e) < 0x100
    ensures Extend(c) ^ Extend(e) == 0 ==> c == e
  {
    if Extend(c) ^ Extend(e) == 0 {
      ZeroXor(Extend(c), Extend(e));
      ExtendBits(c);
      ExtendBits(e);
      BitsInjective(c, e);
    }
  }

  lemma ExtendBits(c: byte)
    ensures (Extend(c) & 0xFF) as bv8 == Bits(c)
  {
  }

  lemma StepDifference(r: bv32, q: bv32, c: byte, e: byte)
    ensures ByteStep(r ^ Extend(c)) ^ ByteStep(q ^ Extend(e))
         == ByteStep((r ^ q) ^ (Extend(c) ^ Extend(e)))
  {
    hide ByteStep, Extend;
    XorRegroups(r, q, Extend(c), Extend(e));
    ByteStepLinear(r ^ Extend(c), q ^ Extend(e), (r ^ q) ^ (Extend(c) ^ Extend(e)));
  }

  lemma WordBack(a: bv32, m: bv32, p: bv32, k: nat)
    requires k < 4 && m < 0x100 && IsBit(p) && FitsIn(ByteStep(a ^ m), p, k)
    ensures FitsIn(a, p, k + 1)
  {
    if k < 3 {
      SmallStep(ByteStep(a ^ m), p, k);
      ByteStepBack(a ^ m);
      ReadBack(a, m, ByteStep(a ^ m), p, k);
    }
  }

  lemma SmallStep(x: bv32, p: bv32, k: nat)
    requires k < 3 && IsBit(p) && FitsIn(x, p, k)
    ensures x < 0x0100_0000
  {
    if k == 0 {} else if k == 1 {} else {}
  }

  lemma ReadBack(a: bv32, m: bv32, x: bv32, p: bv32, k: nat)
    requires k < 3 && m < 0x100 && IsBit(p) && FitsIn(x, p, k) && a ^ m == x << 8
    ensures FitsIn(a, p, k + 1)
  {
    if k == 0 {} else if k == 1 {} else {}
  }

  /** An octet that changes no bit below `p`, or is followed by at most two more octets, shows
      in the register. */
  lemma OctetTells(m: bv32, p: bv32, k: nat)
    requires k < 4 && m < 0x100 && IsBit(p) && FitsIn(ByteStep(0 ^ m), p, k)
    requires k == 3 ==> m & (p - 1) == 0
    ensures m == 0
  {
    if k < 3 {
      SmallStep(ByteStep(0 ^ m), p, k);
      ByteStepBack(0 ^ m);
      ShiftedOctet(m, ByteStep(0 ^ m));
    } else {
      AlignedTells(m, p);
    }
  }

  lemma ShiftedOctet(m: bv32, x: bv32)
    requires m < 0x100 && x < 0x0100_0000 && 0 ^ m == x << 8
    ensures m == 0
  {
  }

  /** After the shift past the bits below `p`, feedback would set a bit that does not fit. */
  lemma AlignedTells(m: bv32, p: bv32)
    requires m < 0x100 && IsBit(p) && m & (p - 1) == 0 && ByteStep(0 ^ m) < p << 24
    ensures m == 0
  {
    if p == 1 {} else if p == 2 {} else if p == 4 {} else if p == 8 {} else if p == 16 {}
    else if p == 32 {} else if p == 64 {} else {}
  }

  /** The difference of the registers fits below `p` and `k` octets. */
  predicate Close(r: Word, q: Word, p: bv32, k: nat) { FitsIn(r.bits ^ q.bits, p, k) }

  lemma EqualBits(r: Word, q: Word)
    requires r.bits == q.bits
    ensures r == q
  {
  }

  lemma XorZero(a: bv32, b: bv32)
    requires a ^ b == 0
    ensures a == b
  {
  }

  lemma CloseBits(r: Word, q: Word, p: bv32, k: nat)
    ensures Close(r, q, p, k) == FitsIn(r.bits ^ q.bits, p, k)
  {
    hide FitsIn;
  }

  lemma StepBits(r: Word, c: byte)
    ensures Step(r, c).bits == ByteStep(r.bits ^ Extend(c))
  {
    hide ByteStep, Extend;
  }

  lemma EqualIsClose(r: Word)
    ensures Close(r, r, 1, 0)
  {
    SelfXor(r.bits);
  }

  lemma StepBackBits(r: bv32, q: bv32, c: byte, e: byte, p: bv32, k: nat)
    requires k < 4 && IsBit(p)
    requires FitsIn(ByteStep(r ^ Extend(c)) ^ ByteStep(q ^ Extend(e)), p, k)
    ensures FitsIn(r ^ q, p, k + 1)
  {
    hide ByteStep, Extend, FitsIn, IsBit;
    StepDifference(r, q, c, e);
    ExtendFits(c, e);
    WordBack(r ^ q, Extend(c) ^ Extend(e), p, k);
  }

  /** The octets differ in no bit below `p`. */
  predicate Aligned(c: byte, e: byte, p: bv32) { (Extend(c) ^ Extend(e)) & (p - 1) == 0 }

  lemma StepTellsBits(r: bv32, c: byte, e: byte, p: bv32, k: nat)
    requires k < 4 && IsBit(p) && (k == 3 ==> Aligned(c, e, p))
    requires FitsIn(ByteStep(r ^ Extend(c)) ^ ByteStep(r ^ Extend(e)), p, k)
    ensures c == e
  {
    hide ByteStep, Extend, FitsIn, IsBit;
    StepDifference(r, r, c, e);
    SelfXor(r);
    ExtendFits(c, e);
    OctetTells(Extend(c) ^ Extend(e), p, k);
  }

  lemma CloseSteps(r: Word, q: Word, c: byte, e: byte, p: bv32, k: nat)
    requires Close(Step(r, c), Step(q, e), p, k)
    ensures FitsIn(ByteStep(r.bits ^ Extend(c)) ^ ByteStep(q.bits ^ Extend(e)), p, k)
  {
    hide ByteStep, Extend, FitsIn, Close, Step;
    CloseBits(Step(r, c), Step(q, e), p, k);
    StepBits(r, c);
    StepBits(q, e);
  }

  lemma FitsSteps(r: Word, q: Word, c: byte, e: byte, p: bv32, k: nat)
    requires k < 4 && IsBit(p)
    requires FitsIn(ByteStep(r.bits ^ Extend(c)) ^ ByteStep(q.bits ^ Extend(e)), p, k)
    ensures Close(r, q, p, k + 1)
  {
    hide ByteStep, Extend, FitsIn, IsBit;
    StepBackBits(r.bits, q.bits, c, e, p, k);
  }

  /** Going back over one octet widens the difference of two registers by one octet. */
  lemma StepBack(r: Word, q: Word, c: byte, e: byte, p: bv32, k: nat)
    requires k < 4 && IsBit(p) && Close(Step(r, c), Step(q, e), p, k)
    ensures Close(r, q, p, k + 1)
  {
    hide ByteStep, Extend, FitsIn, Close, Step, IsBit;
    CloseSteps(r, q, c, e, p, k);
    FitsSteps(r, q, c, e, p, k);
  }

  lemma FitsTell(r: Word, c: byte, e: byte, p: bv32, k: nat)
    requires k < 4 && IsBit(p) && (k == 3 ==> Aligned(c, e, p))
    requires FitsIn(ByteStep(r.bits ^ Extend(c)) ^ ByteStep(r.bits ^ Extend(e)), p, k)
    ensures c == e
  {
    hide ByteStep, Extend, FitsIn, IsBit, Aligned;
    StepTellsBits(r.bits, c, e, p, k);
  }

  /** From equal registers, different octets cannot lead to close ones. */
  lemma StepTells(r: Word, c: byte, e: byte, p: bv32, k: nat)
    requires k < 4 && IsBit(p) && (k == 3 ==> Aligned(c, e, p))
    requires Close(Step(r, c), Step(r, e), p, k)
    ensures c == e
  {
    hide ByteStep, Extend, FitsIn, Close, Step, IsBit, Aligned;
    CloseSteps(r, r, c, e, p, k);
    FitsTell(r, c, e, p, k);
  }

  /** Over a window of at most four octets, close registers afterwards were close before,
      and equal registers before saw equal windows. */
  lemma {:induction false} WindowBack(r: Word, q: Word, u: seq<byte>, w: seq<byte>, p: bv32, k: nat)
    requires |u| == |w| && |u| + k <= 4 && IsBit(p)
    requires |u| + k == 4 && u != [] ==> Aligned(u[0], w[0], p)
    requires Close(Register(r, u), Register(q, w), p, k)
    ensures Close(r, q, p, k + |u|)
    ensures r == q ==> u == w
    decreases |u|
  {
    hide Step, Close, IsBit, Aligned;
    if u != [] {
      WindowBack(Step(r, u[0]), Step(q, w[0]), u[1..], w[1..], p, k);
      StepBack(r, q, u[0], w[0], p, k + |u| - 1);
      if r == q {
        StepTells(r, u[0], w[0], p, k + |u| - 1);
      }
      assert u == [u[0]] + u[1..] && w == [w[0]] + w[1..];
    }
  }

  lemma AlignedAlways(c: byte, e: byte)
    ensures Aligned(c, e, 1)
  {
    hide Extend;
  }

  /** Registers that meet over a last octet that changes only bits below `p` were close. */
  lemma LastOctet(r: Word, q: Word, c: byte, e: byte, p: bv32)
    requires Step(r, c) == Step(q, e) && Extend(c) ^ Extend(e) < p
    ensures Close(r, q, p, 0)
  {
    hide ByteStep, Extend, Step, Close, FitsIn;
    StepBits(r, c);
    StepBits(q, e);
    SameStep(r.bits, q.bits, c, e);
    CloseBits(r, q, p, 0);
    FitsBelow(r.bits ^ q.bits, p);
  }

  lemma FitsBelow(d: bv32, p: bv32)
    requires d < p
    ensures FitsIn(d, p, 0)
  {
  }

  lemma SameStep(r: bv32, q: bv32, c: byte, e: byte)
    requires ByteStep(r ^ Extend(c)) == ByteStep(q ^ Extend(e))
    ensures r ^ q == Extend(c) ^ Extend(e)
  {
    hide ByteStep, Extend;
    SameStepNamed(r, q, Extend(c), Extend(e), r ^ Extend(c), q ^ Extend(e));
  }

  lemma SameStepNamed(r: bv32, q: bv32, m: bv32, n: bv32, x: bv32, y: bv32)
    requires x == r ^ m && y == q ^ n && ByteStep(x) == ByteStep(y)
    ensures r ^ q == m ^ n
  {
    hide ByteStep;
    ByteStepSame(x, y);
    CrossXor(r, q, m, n);
  }

  lemma ByteStepSame(a: bv32, b: bv32)
    requires ByteStep(a) == ByteStep(b)
    ensures a == b
  {
    hide ByteStep;
    ByteStepLinear(a, b, a ^ b);
    SelfXor(ByteStep(a));
    ByteStepZero(a ^ b);
    XorZero(a, b);
  }

  lemma CrossXor(r: bv32, q: bv32, m: bv32, n: bv32)
    requires r ^ m == q ^ n
    ensures r ^ q == m ^ n
  {
  }

  /** The windows differ in a burst of at most 32 bits, in the order in which the register
      takes them, least significant bit of an octet first: in four octets, or in the bits from
      `p` on of the first octet through the bits below `p` of the fifth. */
  predicate Burst(u: seq<byte>, w: seq<byte>, p: bv32) {
    && |u| == |w| <= 5 && IsBit(p)
    && (|u| == 5 ==> Aligned(u[0], w[0], p) && Extend(u[4]) ^ Extend(w[4]) < p)
  }

  /** From equal registers, a burst of 32 bits cannot lead to equal ones. */
  lemma BurstTells(r: Word, u: seq<byte>, w: seq<byte>, p: bv32)
    requires Burst(u, w, p) && Register(r, u) == Register(r, w)
    ensures u == w
  {
    hide Step, Close, Aligned, IsBit, Extend;
    if |u| <= 4 {
      EqualIsClose(Register(r, u));
      BitOne();
      if u != [] {
        AlignedAlways(u[0], w[0]);
      }
      WindowBack(r, r, u, w, 1, 0);
    } else {
      var u4, w4 := u[..4], w[..4];
      assert u == u4 + [u[4]] && w == w4 + [w[4]];
      RegisterLast(r, u4, u[4]);
      RegisterLast(r, w4, w[4]);
      LastOctet(Register(r, u4), Register(r, w4), u[4], w[4], p);
      WindowBack(r, r, u4, w4, p, 0);
      LastTells(Register(r, u4), u[4], w[4]);
    }
  }

  lemma BitOne()
    ensures IsBit(1)
  {
  }

  lemma RegisterLast(r: Word, s: seq<byte>, c: byte)
    ensures Register(r, s + [c]) == Step(Register(r, s), c)
  {
    hide Step;
    RegisterAppend(r, s, [c]);
    assert [c][1..] == [];
  }

  lemma LastTells(r: Word, c: byte, e: byte)
    requires Step(r, c) == Step(r, e)
    ensures c == e
  {
    hide Step, Close, Aligned, IsBit;
    EqualIsClose(Step(r, c));
    BitOne();
    StepTells(r, c, e, 1, 0);
  }

  /** Equal registers after the same octets were equal before them. */
  lemma {:induction false} SuffixBack(r: Word, q: Word, z: seq<byte>)
    requires Register(r, z) == Register(q, z)
    ensures r == q
    decreases |z|
  {
    hide Step, Close;
    if z != [] {
      SuffixBack(Step(r, z[0]), Step(q, z[0]), z[1..]);
      StepInjective(r, q, z[0]);
    }
  }

  lemma StepInjective(r: Word, q: Word, c: byte)
    requires Step(r, c) == Step(q, c)
    ensures r == q
  {
    hide ByteStep, Extend, Step;
    StepBits(r, c);
    StepBits(q, c);
    ByteStepInjective(r.bits, q.bits, Extend(c));
    EqualBits(r, q);
  }

  lemma ByteStepInjective(a: bv32, b: bv32, m: bv32)
    requires ByteStep(a ^ m) == ByteStep(b ^ m)
    ensures a == b
  {
    hide ByteStep;
    ByteStepSame(a ^ m, b ^ m);
    SameMask(a, b, m);
    SelfXor(a ^ m);
    XorZero(a, b);
  }

  lemma ByteStepZero(d: bv32)
    requires ByteStep(d) == 0
    ensures d == 0
  {
    ByteStepBack(d);
  }

  lemma SameMask(r: bv32, q: bv32, m: bv32)
    ensures r ^ q == (r ^ m) ^ (q ^ m)
  {
  }

  lemma SelfXor(a: bv32)
    ensures a ^ a == 0
  {
  }

  lemma ComplementInjective(r: Word, q: Word)
    requires Complement(r) == Complement(q)
    ensures r == q
  {
  }

  /** Two sequences that differ only in a burst of at most 32 bits have different checksums;
      one changed octet is such a burst. */
  lemma BurstDetected(a: seq<byte>, b: seq<byte>, k: nat, n: nat, p: bv32)
    requires |a| == |b| && a != b && k + n <= |a|
    requires a[..k] == b[..k] && a[k + n..] == b[k + n..] && Burst(a[k..k + n], b[k..k + n], p)
    ensures Reference(a) != Reference(b)
  {
    hide Step, Register, Complement, Burst;
    if Reference(a) == Reference(b) {
      var init := Word(CRC_MASK);
      var r := Register(init, a[..k]);
      var u, w, z := a[k..k + n], b[k..k + n], a[k + n..];
      assert a == a[..k] + u + z && b == a[..k] + w + z;
      RegisterAppend(init, a[..k] + u, z);
      RegisterAppend(init, a[..k], u);
      RegisterAppend(init, a[..k] + w, z);
      RegisterAppend(init, a[..k], w);
      ComplementInjective(Register(init, a), Register(init, b));
      SuffixBack(Register(r, u), Register(r, w), z);
      BurstTells(r, u, w, p);
    }
  }

  /** Any change within four adjacent octets is such a burst. */
  lemma FourOctets(u: seq<byte>, w: seq<byte>)
    requires |u| == |w| <= 4
    ensures Burst(u, w, 1)
  {
  }

  /** The check value of this CRC: the digits from 1 to 9 give CBF43926. */
  lemma CheckValue()
    ensures Reference([0x31, 0x32, 0x33, 0x34, 0x35, 0x36, 0x37, 0x38, 0x39]) == Word(0xCBF4_3926)
  {
    var a, b, c: seq<byte> := [0x31, 0x32, 0x33], [0x34, 0x35, 0x36], [0x37, 0x38, 0x39];
    var init := Word(0xFFFF_FFFF);
    assert a + b + c == [0x31, 0x32, 0x33, 0x34, 0x35, 0x36, 0x37, 0x38, 0x39];
    FirstDigits();
    MiddleDigits();
    LastDigits();
    hide Step, Register;
    RegisterAppend(init, a + b, c);
    RegisterAppend(init, a, b);
  }

  lemma FirstDigits()
    ensures Register(Word(0xFFFF_FFFF), [0x31, 0x32, 0x33]) == Word(0x77B7_9C2D)
  {
    assert Step(Word(0xFFFF_FFFF), 0x31) == Word(0x7C23_1048);
    assert Step(Word(0x7C23_1048), 0x32) == Word(0xB0AC_BB32);
    assert Step(Word(0xB0AC_BB32), 0x33) == Word(0x77B7_9C2D);
    hide Step;
    ThreeSteps(Word(0xFFFF_FFFF), 0x31, 0x32, 0x33);
  }

  lemma MiddleDigits()
    ensures Register(Word(0x77B7_9C2D), [0x34, 0x35, 0x36]) == Word(0xF68D_2C9E)
  {
    assert Step(Word(0x77B7_9C2D), 0x34) == Word(0x641C_1F5C);
    assert Step(Word(0x641C_1F5C), 0x35) == Word(0x340A_C5E3);
    assert Step(Word(0x340A_C5E3), 0x36) == Word(0xF68D_2C9E);
    hide Step;
    ThreeSteps(Word(0x77B7_9C2D), 0x34, 0x35, 0x36);
  }

  lemma LastDigits()
    ensures Register(Word(0xF68D_2C9E), [0x37, 0x38, 0x39]) == Word(0x340B_C6D9)
  {
    assert Step(Word(0xF68D_2C9E), 0x37) == Word(0xAFFC_9660);
    assert Step(Word(0xAFFC_9660), 0x38) == Word(0x651F_2550);
    assert Step(Word(0x651F_2550), 0x39) == Word(0x340B_C6D9);
    hide Step;
    ThreeSteps(Word(0xF68D_2C9E), 0x37, 0x38, 0x39);
  }

  lemma ThreeSteps(r: Word, a: byte, b: byte, c: byte)
    ensures Register(r, [a, b, c]) == Step(Step(Step(r, a), b), c)
  {
    hide Step;
    assert [a, b, c][1..] == [b, c] && [b, c][1..] == [c] && [c][1..] == [];
    var s := Step(Step(r, a), b);
    assert Register(Step(r, a), [b, c]) == Register(s, [c]) == Step(s, c);
  }
}
