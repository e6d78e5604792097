/** The MD5 algorithm of RFC 1321 as a function on byte strings: the reference
    the streaming implementation in module Md5 is proved against. */
module Md5Spec {
  import opened Words

  /** The four-word buffer of section 3.3. */
  datatype Abcd = Abcd(a: u32, b: u32, c: u32, d: u32)

  const INITIAL := Abcd(0x6745_2301, 0xefcd_ab89, 0x98ba_dcfe, 0x1032_5476)

  // ----- Section 3.4: the four rounds

  function F(x: u32, y: u32, z: u32): u32 { Or32(And32(x, y), And32(Not32(x), z)) }
  function G(x: u32, y: u32, z: u32): u32 { Or32(And32(x, z), And32(y, Not32(z))) }
  function H(x: u32, y: u32, z: u32): u32 { Xor32(Xor32(x, y), z) }
  function I(x: u32, y: u32, z: u32): u32 { Xor32(y, Or32(x, Not32(z))) }

  function Mix(i: nat, x: u32, y: u32, z: u32): u32 {
    if i < 16 then F(x, y, z) else if i < 32 then G(x, y, z) else if i < 48 then H(x, y, z) else I(x, y, z)
  }

  /** Which word of the block operation `i` (counting from 0) uses. */
  function WordIndex(i: nat): (k: nat)
    ensures k < 16
  {
    if i < 16 then i else if i < 32 then (5 * i + 1) % 16 else if i < 48 then (3 * i + 5) % 16 else 7 * i % 16
  }

  function Shift(i: nat): (s: nat)
    ensures 0 < s < 32
  {
    if i < 16 then Choose(i, 7, 12, 17, 22)
    else if i < 32 then Choose(i, 5, 9, 14, 20)
    else if i < 48 then Choose(i, 4, 11, 16, 23)
    else Choose(i, 6, 10, 15, 21)
  }

  function Choose(i: nat, p: nat, q: nat, r: nat, s: nat): nat {
    match i % 4
    case 0 => p
    case 1 => q
    case 2 => r
    case _ => s
  }

  /** T[i + 1] of the 64-element sine table. */
  function SineTable(i: nat): u32 {
    if i < 16 then Sines1(i) else if i < 32 then Sines2(i) else if i < 48 then Sines3(i) else Sines4(i)
  }

  function Sines1(i: nat): u32 {
    match i
    case 0 => 0xd76a_a478
    case 1 => 0xe8c7_b756
    case 2 => 0x2420_70db
    case 3 => 0xc1bd_ceee
    case 4 => 0xf57c_0faf
    case 5 => 0x4787_c62a
    case 6 => 0xa830_4613
    case 7 => 0xfd46_9501
    case 8 => 0x6980_98d8
    case 9 => 0x8b44_f7af
    case 10 => 0xffff_5bb1
    case 11 => 0x895c_d7be
    case 12 => 0x6b90_1122
    case 13 => 0xfd98_7193
    case 14 => 0xa679_438e
    case _ => 0x49b4_0821
  }

  function Sines2(i: nat): u32 {
    match i
    case 16 => 0xf61e_2562
    case 17 => 0xc040_b340
    case 18 => 0x265e_5a51
    case 19 => 0xe9b6_c7aa
    case 20 => 0xd62f_105d
    case 21 => 0x0244_1453
    case 22 => 0xd8a1_e681
    case 23 => 0xe7d3_fbc8
    case 24 => 0x21e1_cde6
    case 25 => 0xc337_07d6
    case 26 => 0xf4d5_0d87
    case 27 => 0x455a_14ed
    case 28 => 0xa9e3_e905
    case 29 => 0xfcef_a3f8
    case 30 => 0x676f_02d9
    case _ => 0x8d2a_4c8a
  }

  function Sines3(i: nat): u32 {
    match i
    case 32 => 0xfffa_3942
    case 33 => 0x8771_f681
    case 34 => 0x6d9d_6122
    case 35 => 0xfde5_380c
    case 36 => 0xa4be_ea44
    case 37 => 0x4bde_cfa9
    case 38 => 0xf6bb_4b60
    case 39 => 0xbebf_bc70
    case 40 => 0x289b_7ec6
    case 41 => 0xeaa1_27fa
    case 42 => 0xd4ef_3085
    case 43 => 0x0488_1d05
    case 44 => 0xd9d4_d039
    case 45 => 0xe6db_99e5
    case 46 => 0x1fa2_7cf8
    case _ => 0xc4ac_5665
  }

  function Sines4(i: nat): u32 {
    match i
    case 48 => 0xf429_2244
    case 49 => 0x432a_ff97
    case 50 => 0xab94_23a7
    case 51 => 0xfc93_a039
    case 52 => 0x655b_59c3
    case 53 => 0x8f0c_cc92
    case 54 => 0xffef_f47d
    case 55 => 0x8584_5dd1
    case 56 => 0x6fa8_7e4f
    case 57 => 0xfe2c_e6e0
    case 58 => 0xa301_4314
    case 59 => 0x4e08_11a1
    case 60 => 0xf753_7e82
    case 61 => 0xbd3a_f235
    case 62 => 0x2ad7_d2bb
    case _ => 0xeb86_d391
  }

  /** Operation `i`: the first word is replaced and the four words change roles. */
  function Operation(i: nat, s: Abcd, x: seq<u32>): Abcd
    requires |x| == 16
  {
    var t := Wrap32(s.a + Mix(i, s.b, s.c, s.d) + x[WordIndex(i)] + SineTable(i));
    Abcd(s.d, Wrap32(RotateLeft(t, Shift(i)) + s.b), s.b, s.c)
  }

  /** The first `n` of the 64 operations. */
  function Operations(n: nat, s: Abcd, x: seq<u32>): Abcd
    requires |x| == 16
  {
    if n == 0 then s else Operation(n - 1, Operations(n - 1, s, x), x)
  }

  /** The 16 words of a 64-byte block, low-order byte first. */
  function BlockWords(block: seq<byte>): (x: seq<u32>)
    requires |block| == 64
    ensures |x| == 16
  {
    seq(16, (i: nat) requires i < 16 => LeWord(block[4 * i..4 * i + 4]))
  }

  function LeWord(s: seq<byte>): u32
    requires |s| == 4
  {
    Pow2Of32();
    LeValue(s)
  }

  /** The effect of one block on the buffer. */
  function Compress(s: Abcd, block: seq<byte>): Abcd
    requires |block| == 64
  {
    var r := Operations(64, s, BlockWords(block));
    Abcd(Wrap32(s.a + r.a), Wrap32(s.b + r.b), Wrap32(s.c + r.c), Wrap32(s.d + r.d))
  }

  /** The effect of the whole blocks of `m`; a shorter tail is left out. */
  function Absorb(s: Abcd, m: seq<byte>): Abcd
    decreases |m|
  {
    if |m| < 64 then s else Absorb(Compress(s, m[..64]), m[64..])
  }

  // ----- Sections 3.1, 3.2 and 3.5: padding, length and output

  function Zeros(n: nat): (s: seq<byte>)
    ensures |s| == n
  {
    seq(n, _ => 0)
  }

  /** A one bit, then the fewest zero bits that leave 64 bits of room in the last block. */
  function Padding(length: nat): (s: seq<byte>)
    ensures 1 <= |s| <= 64 && (length + |s|) % 64 == 56
    ensures s[0] == 0x80 && forall i :: 0 < i < |s| ==> s[i] == 0
  {
    var n := (55 - length) % 64;
    Mod64Is(length + 1 + n, (length + 1 + n - 56) / 64, 56);
    [0x80] + Zeros(n)
  }

  /** The length of the message in bits, modulo 2^64, low-order byte first. */
  function LengthBytes(length: nat): (s: seq<byte>)
    ensures |s| == 8 && LeValue(s) == 8 * length % 0x1_0000_0000_0000_0000
  {
    Pow2Of32();
    LoadAfterStore(8 * length % 0x1_0000_0000_0000_0000, 8);
    LeBytes(8 * length % 0x1_0000_0000_0000_0000, 8)
  }

  /** The message, a byte 0x80, zeros and the length, in the fewest whole blocks. */
  function Padded(m: seq<byte>): (p: seq<byte>)
    ensures |p| % 64 == 0 && m <= p && |m| + 9 <= |p| < |m| + 73
    ensures p[|m|] == 0x80 && forall i :: |m| < i < |p| - 8 ==> p[i] == 0
    ensures LeValue(p[|p| - 8..]) == 8 * |m| % 0x1_0000_0000_0000_0000
  {
    var p := m + Padding(|m|);
    Mod64Is(|p| + 8, |p| / 64 + 1, 0);
    assert (p + LengthBytes(|m|))[|p|..] == LengthBytes(|m|);
    p + LengthBytes(|m|)
  }

  /** The four words, each low-order byte first. */
  function Output(s: Abcd): (digest: seq<byte>)
    ensures |digest| == 16
    ensures forall i :: 0 <= i < 16 ==> digest[i] == [s.a, s.b, s.c, s.d][i / 4] / Pow2(8 * (i % 4)) % 0x100
  {
    WordDigits(s.a);
    WordDigits(s.b);
    WordDigits(s.c);
    WordDigits(s.d);
    LeBytes(s.a, 4) + LeBytes(s.b, 4) + LeBytes(s.c, 4) + LeBytes(s.d, 4)
  }

  function Md5(m: seq<byte>): (digest: seq<byte>)
    ensures |digest| == 16
  {
    Output(Absorb(INITIAL, Padded(m)))
  }

  lemma WordDigits(v: u32)
    ensures forall j: nat :: j < 4 ==> LeBytes(v, 4)[j] == v / Pow2(8 * j) % 0x100
  {
    forall j: nat | j < 4 { DigitOfBytes(v, 4, j); }
  }

  // ----- What the definitions say

  /** Bit by bit, F selects by x, G selects by z, H is parity, and I is `y ^ (x | ~z)`. */
  lemma BitsOfRounds(x: u32, y: u32, z: u32, k: nat)
    requires k < 32
    ensures Bit(F(x, y, z), k) == if Bit(x, k) then Bit(y, k) else Bit(z, k)
    ensures Bit(G(x, y, z), k) == if Bit(z, k) then Bit(x, k) else Bit(y, k)
    ensures Bit(H(x, y, z), k) == (Bit(x, k) != (Bit(y, k) != Bit(z, k)))
    ensures Bit(I(x, y, z), k) == (Bit(y, k) != (Bit(x, k) || !Bit(z, k)))
  {
    hide And32, Or32, Xor32, Not32, Bit;
    BitsOfOperators(x, y, k);
    BitsOfOperators(Not32(x), z, k);
    BitsOfOperators(And32(x, y), And32(Not32(x), z), k);
    BitsOfOperators(z, y, k);
    BitsOfOperators(x, z, k);
    BitsOfOperators(y, Not32(z), k);
    BitsOfOperators(And32(x, z), And32(y, Not32(z)), k);
    BitsOfOperators(Xor32(x, y), z, k);
    BitsOfOperators(x, Not32(z), k);
    BitsOfOperators(y, Or32(x, Not32(z)), k);
  }

  /** The four words a state starts with are the bytes 01 23 .. ef, then fe dc .. 10. */
  lemma InitialBytes()
    ensures Output(INITIAL) == [0x01, 0x23, 0x45, 0x67, 0x89, 0xab, 0xcd, 0xef,
                                0xfe, 0xdc, 0xba, 0x98, 0x76, 0x54, 0x32, 0x10]
  {
    hide LeBytes;
    BytesOfJoin(0x01, 0x23, 0x45, 0x67);
    BytesOfJoin(0x89, 0xab, 0xcd, 0xef);
    BytesOfJoin(0xfe, 0xdc, 0xba, 0x98);
    BytesOfJoin(0x76, 0x54, 0x32, 0x10);
  }

  /** A word of a block is stored low-order byte first. */
  lemma BytesOfBlockWord(block: seq<byte>, i: nat)
    requires |block| == 64 && i < 16
    ensures LeBytes(BlockWords(block)[i], 4) == block[4 * i..4 * i + 4]
  {
    hide LeBytes, LeValue;
    var b := block[4 * i..4 * i + 4];
    LeValueOfFour(b);
    BytesOfJoin(b[0], b[1], b[2], b[3]);
    assert BlockWords(block)[i] == LeWord(b);
  }

  /** A block adds to each word what the 64 operations make of it, modulo 2^32. */
  lemma CompressAdds(s: Abcd, block: seq<byte>)
    requires |block| == 64
    ensures var r, t := Operations(64, s, BlockWords(block)), Compress(s, block);
            && t.a == (s.a as int + r.a) % 0x1_0000_0000
            && t.b == (s.b as int + r.b) % 0x1_0000_0000
            && t.c == (s.c as int + r.c) % 0x1_0000_0000
            && t.d == (s.d as int + r.d) % 0x1_0000_0000
  {
    hide Operations, BlockWords;
  }

  // ----- Facts

  lemma Table1()
    ensures WordIndex(0) == 0 && Shift(0) == 7 && SineTable(0) == 0xd76a_a478
    ensures WordIndex(1) == 1 && Shift(1) == 12 && SineTable(1) == 0xe8c7_b756
    ensures WordIndex(2) == 2 && Shift(2) == 17 && SineTable(2) == 0x2420_70db
    ensures WordIndex(3) == 3 && Shift(3) == 22 && SineTable(3) == 0xc1bd_ceee
    ensures WordIndex(4) == 4 && Shift(4) == 7 && SineTable(4) == 0xf57c_0faf
    ensures WordIndex(5) == 5 && Shift(5) == 12 && SineTable(5) == 0x4787_c62a
    ensures WordIndex(6) == 6 && Shift(6) == 17 && SineTable(6) == 0xa830_4613
    ensures WordIndex(7) == 7 && Shift(7) == 22 && SineTable(7) == 0xfd46_9501
    ensures WordIndex(8) == 8 && Shift(8) == 7 && SineTable(8) == 0x6980_98d8
    ensures WordIndex(9) == 9 && Shift(9) == 12 && SineTable(9) == 0x8b44_f7af
    ensures WordIndex(10) == 10 && Shift(10) == 17 && SineTable(10) == 0xffff_5bb1
    ensures WordIndex(11) == 11 && Shift(11) == 22 && SineTable(11) == 0x895c_d7be
    ensures WordIndex(12) == 12 && Shift(12) == 7 && SineTable(12) == 0x6b90_1122
    ensures WordIndex(13) == 13 && Shift(13) == 12 && SineTable(13) == 0xfd98_7193
    ensures WordIndex(14) == 14 && Shift(14) == 17 && SineTable(14) == 0xa679_438e
    ensures WordIndex(15) == 15 && Shift(15) == 22 && SineTable(15) == 0x49b4_0821
  {}

  lemma Table2()
    ensures WordIndex(16) == 1 && Shift(16) == 5 && SineTable(16) == 0xf61e_2562
    ensures WordIndex(17) == 6 && Shift(17) == 9 && SineTable(17) == 0xc040_b340
    ensures WordIndex(18) == 11 && Shift(18) == 14 && SineTable(18) == 0x265e_5a51
    ensures WordIndex(19) == 0 && Shift(19) == 20 && SineTable(19) == 0xe9b6_c7aa
    ensures WordIndex(20) == 5 && Shift(20) == 5 && SineTable(20) == 0xd62f_105d
    ensures WordIndex(21) == 10 && Shift(21) == 9 && SineTable(21) == 0x0244_1453
    ensures WordIndex(22) == 15 && Shift(22) == 14 && SineTable(22) == 0xd8a1_e681
    ensures WordIndex(23) == 4 && Shift(23) == 20 && SineTable(23) == 0xe7d3_fbc8
    ensures WordIndex(24) == 9 && Shift(24) == 5 && SineTable(24) == 0x21e1_cde6
    ensures WordIndex(25) == 14 && Shift(25) == 9 && SineTable(25) == 0xc337_07d6
    ensures WordIndex(26) == 3 && Shift(26) == 14 && SineTable(26) == 0xf4d5_0d87
    ensures WordIndex(27) == 8 && Shift(27) == 20 && SineTable(27) == 0x455a_14ed
    ensures WordIndex(28) == 13 && Shift(28) == 5 && SineTable(28) == 0xa9e3_e905
    ensures WordIndex(29) == 2 && Shift(29) == 9 && SineTable(29) == 0xfcef_a3f8
    ensures WordIndex(30) == 7 && Shift(30) == 14 && SineTable(30) == 0x676f_02d9
    ensures WordIndex(31) == 12 && Shift(31) == 20 && SineTable(31) == 0x8d2a_4c8a
  {}

  lemma Table3()
    ensures WordIndex(32) == 5 && Shift(32) == 4 && SineTable(32) == 0xfffa_3942
    ensures WordIndex(33) == 8 && Shift(33) == 11 && SineTable(33) == 0x8771_f681
    ensures WordIndex(34) == 11 && Shift(34) == 16 && SineTable(34) == 0x6d9d_6122
    ensures WordIndex(35) == 14 && Shift(35) == 23 && SineTable(35) == 0xfde5_380c
    ensures WordIndex(36) == 1 && Shift(36) == 4 && SineTable(36) == 0xa4be_ea44
    ensures WordIndex(37) == 4 && Shift(37) == 11 && SineTable(37) == 0x4bde_cfa9
    ensures WordIndex(38) == 7 && Shift(38) == 16 && SineTable(38) == 0xf6bb_4b60
    ensures WordIndex(39) == 10 && Shift(39) == 23 && SineTable(39) == 0xbebf_bc70
    ensures WordIndex(40) == 13 && Shift(40) == 4 && SineTable(40) == 0x289b_7ec6
    ensures WordIndex(41) == 0 && Shift(41) == 11 && SineTable(41) == 0xeaa1_27fa
    ensures WordIndex(42) == 3 && Shift(42) == 16 && SineTable(42) == 0xd4ef_3085
    ensures WordIndex(43) == 6 && Shift(43) == 23 && SineTable(43) == 0x0488_1d05
    ensures WordIndex(44) == 9 && Shift(44) == 4 && SineTable(44) == 0xd9d4_d039
    ensures WordIndex(45) == 12 && Shift(45) == 11 && SineTable(45) == 0xe6db_99e5
    ensures WordIndex(46) == 15 && Shift(46) == 16 && SineTable(46) == 0x1fa2_7cf8
    ensures WordIndex(47) == 2 && Shift(47) == 23 && SineTable(47) == 0xc4ac_5665
  {}

  lemma Table4()
    ensures WordIndex(48) == 0 && Shift(48) == 6 && SineTable(48) == 0xf429_2244
    ensures WordIndex(49) == 7 && Shift(49) == 10 && SineTable(49) == 0x432a_ff97
    ensures WordIndex(50) == 14 && Shift(50) == 15 && SineTable(50) == 0xab94_23a7
    ensures WordIndex(51) == 5 && Shift(51) == 21 && SineTable(51) == 0xfc93_a039
    ensures WordIndex(52) == 12 && Shift(52) == 6 && SineTable(52) == 0x655b_59c3
    ensures WordIndex(53) == 3 && Shift(53) == 10 && SineTable(53) == 0x8f0c_cc92
    ensures WordIndex(54) == 10 && Shift(54) == 15 && SineTable(54) == 0xffef_f47d
    ensures WordIndex(55) == 1 && Shift(55) == 21 && SineTable(55) == 0x8584_5dd1
    ensures WordIndex(56) == 8 && Shift(56) == 6 && SineTable(56) == 0x6fa8_7e4f
    ensures WordIndex(57) == 15 && Shift(57) == 10 && SineTable(57) == 0xfe2c_e6e0
    ensures WordIndex(58) == 6 && Shift(58) == 15 && SineTable(58) == 0xa301_4314
    ensures WordIndex(59) == 13 && Shift(59) == 21 && SineTable(59) == 0x4e08_11a1
    ensures WordIndex(60) == 4 && Shift(60) == 6 && SineTable(60) == 0xf753_7e82
    ensures WordIndex(61) == 11 && Shift(61) == 10 && SineTable(61) == 0xbd3a_f235
    ensures WordIndex(62) == 2 && Shift(62) == 15 && SineTable(62) == 0x2ad7_d2bb
    ensures WordIndex(63) == 9 && Shift(63) == 21 && SineTable(63) == 0xeb86_d391
  {}

  lemma NoOperation(s: Abcd, x: seq<u32>)
    requires |x| == 16
    ensures Operations(0, s, x) == s
  {}

  /** What operation `i` does, in terms of the four words in their current roles. */
  lemma NextOperation(i: nat, s: Abcd, x: seq<u32>, a: u32, b: u32, c: u32, d: u32)
    requires |x| == 16
    requires Operations(i, s, x) == Abcd(a, b, c, d)
    ensures Operations(i + 1, s, x) ==
            var t := Wrap32(a + Mix(i, b, c, d) + x[WordIndex(i)] + SineTable(i));
            Abcd(d, Wrap32(RotateLeft(t, Shift(i)) + b), b, c)
  {
    hide Mix, RotateLeft, WordIndex, Shift, SineTable, Wrap32;
  }

  lemma RoundF(i: nat, s: Abcd, x: seq<u32>, a: u32, b: u32, c: u32, d: u32)
    requires |x| == 16 && 0 <= i < 16
    requires Operations(i, s, x) == Abcd(a, b, c, d)
    ensures Operations(i + 1, s, x) ==
            Abcd(d, Wrap32(RotateLeft(Wrap32(a + F(b, c, d) + x[WordIndex(i)] + SineTable(i)), Shift(i)) + b), b, c)
  {
    hide *;
    NextOperation(i, s, x, a, b, c, d);
    MixOfRound(i, b, c, d);
  }

  lemma RoundG(i: nat, s: Abcd, x: seq<u32>, a: u32, b: u32, c: u32, d: u32)
    requires |x| == 16 && 16 <= i < 32
    requires Operations(i, s, x) == Abcd(a, b, c, d)
    ensures Operations(i + 1, s, x) ==
            Abcd(d, Wrap32(RotateLeft(Wrap32(a + G(b, c, d) + x[WordIndex(i)] + SineTable(i)), Shift(i)) + b), b, c)
  {
    hide *;
    NextOperation(i, s, x, a, b, c, d);
    MixOfRound(i, b, c, d);
  }

  lemma RoundH(i: nat, s: Abcd, x: seq<u32>, a: u32, b: u32, c: u32, d: u32)
    requires |x| == 16 && 32 <= i < 48
    requires Operations(i, s, x) == Abcd(a, b, c, d)
    ensures Operations(i + 1, s, x) ==
            Abcd(d, Wrap32(RotateLeft(Wrap32(a + H(b, c, d) + x[WordIndex(i)] + SineTable(i)), Shift(i)) + b), b, c)
  {
    hide *;
    NextOperation(i, s, x, a, b, c, d);
    MixOfRound(i, b, c, d);
  }

  lemma RoundI(i: nat, s: Abcd, x: seq<u32>, a: u32, b: u32, c: u32, d: u32)
    requires |x| == 16 && 48 <= i < 64
    requires Operations(i, s, x) == Abcd(a, b, c, d)
    ensures Operations(i + 1, s, x) ==
            Abcd(d, Wrap32(RotateLeft(Wrap32(a + I(b, c, d) + x[WordIndex(i)] + SineTable(i)), Shift(i)) + b), b, c)
  {
    hide *;
    NextOperation(i, s, x, a, b, c, d);
    MixOfRound(i, b, c, d);
  }

  lemma MixOfRound(i: nat, x: u32, y: u32, z: u32)
    ensures i < 16 ==> Mix(i, x, y, z) == F(x, y, z)
    ensures 16 <= i < 32 ==> Mix(i, x, y, z) == G(x, y, z)
    ensures 32 <= i < 48 ==> Mix(i, x, y, z) == H(x, y, z)
    ensures 48 <= i < 64 ==> Mix(i, x, y, z) == I(x, y, z)
  {
    hide F, G, H, I;
  }
}
