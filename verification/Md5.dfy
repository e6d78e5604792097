/** The streaming MD5 implementation: a bit counter of two words, a digest buffer of
    four and a partial-block buffer of 64 bytes, all updated in place. */
module Md5 {
  import opened Words
  import opened Md5Spec

  /** How far into its last, partial block a message of this length reaches. */
  function Overhang(length: nat): nat { length % 64 }

  predicate Aligned(n: int) { n % 64 == 0 }

  /** The bytes of `m` after its last whole block. */
  function Tail(m: seq<byte>): (t: seq<byte>)
    ensures |t| == Overhang(|m|) < 64
  {
    m[|m| - Overhang(|m|)..]
  }

  /** The 64-bit number held by two words, low word first. */
  function TwoWords(lo: int, hi: int): int { lo + 0x1_0000_0000 * hi }

  /** The two words count the bits of a message of `length` bytes, modulo 2^64. */
  predicate Counts(lo: u32, hi: u32, length: nat) {
    TwoWords(lo, hi) == 8 * length % 0x1_0000_0000_0000_0000
  }

  /** The 16 words of the block at `data[at..]`. */
  method DecodeBlock(data: array<byte>, at: nat) returns (X: array<u32>)
    requires at + 64 <= data.Length
    ensures fresh(X) && X.Length == 16 && X[..] == BlockWords(data[at..at + 64])
  {
    hide Join, LeValue, Wrap32;
    ghost var words := BlockWords(data[at..at + 64]);
    X := new u32[16];
    var i, xp := 0, at;
    while i < 16
      invariant 0 <= i <= 16 && xp == at + 4 * i
      invariant X[..i] == words[..i]
    {
      WordOfBlock(data[at..at + 64], i);
      assert data[at..at + 64][4 * i..4 * i + 4] == data[xp..xp + 4];
      X[i] := Wrap32(Join(data[xp], data[xp + 1], data[xp + 2], data[xp + 3]));
      i, xp := i + 1, xp + 4;
    }
    assert X[..] == X[..16];
  }

  lemma WordOfBlock(block: seq<byte>, i: nat)
    requires |block| == 64 && i < 16
    ensures var b := block[4 * i..4 * i + 4];
            BlockWords(block)[i] == Wrap32(Join(b[0], b[1], b[2], b[3]))
  {
    hide LeValue, Join;
    var b := block[4 * i..4 * i + 4];
    LeValueOfFour(b);
    assert BlockWords(block)[i] == LeWord(b);
  }

  /** The 64 unrolled operations, each shown to be its row of the table of section
      3.4 with the four words in the roles they then play. */
  method Rounds(a0: u32, b0: u32, c0: u32, d0: u32, X: array<u32>) returns (a: u32, b: u32, c: u32, d: u32)
    requires X.Length == 16
    ensures Abcd(a, b, c, d) == Operations(64, Abcd(a0, b0, c0, d0), X[..])
  {
    hide *;
    a, b, c, d := a0, b0, c0, d0;
    var t: u32;
    ghost var s, x := Abcd(a, b, c, d), X[..];
    NoOperation(s, x);
    // Operations 0 to 15, with F
    Table1();
    RoundF(0, s, x, a, b, c, d);
    t := Wrap32(a + F(b, c, d) + X[0] + 0xd76a_a478);  a := Wrap32(RotateLeft(t, 7) + b);
    RoundF(1, s, x, d, a, b, c);
    t := Wrap32(d + F(a, b, c) + X[1] + 0xe8c7_b756);  d := Wrap32(RotateLeft(t, 12) + a);
    RoundF(2, s, x, c, d, a, b);
    t := Wrap32(c + F(d, a, b) + X[2] + 0x2420_70db);  c := Wrap32(RotateLeft(t, 17) + d);
    RoundF(3, s, x, b, c, d, a);
    t := Wrap32(b + F(c, d, a) + X[3] + 0xc1bd_ceee);  b := Wrap32(RotateLeft(t, 22) + c);
    RoundF(4, s, x, a, b, c, d);
    t := Wrap32(a + F(b, c, d) + X[4] + 0xf57c_0faf);  a := Wrap32(RotateLeft(t, 7) + b);
    RoundF(5, s, x, d, a, b, c);
    t := Wrap32(d + F(a, b, c) + X[5] + 0x4787_c62a);  d := Wrap32(RotateLeft(t, 12) + a);
    RoundF(6, s, x, c, d, a, b);
    t := Wrap32(c + F(d, a, b) + X[6] + 0xa830_4613);  c := Wrap32(RotateLeft(t, 17) + d);
    RoundF(7, s, x, b, c, d, a);
    t := Wrap32(b + F(c, d, a) + X[7] + 0xfd46_9501);  b := Wrap32(RotateLeft(t, 22) + c);
    RoundF(8, s, x, a, b, c, d);
    t := Wrap32(a + F(b, c, d) + X[8] + 0x6980_98d8);  a := Wrap32(RotateLeft(t, 7) + b);
    RoundF(9, s, x, d, a, b, c);
    t := Wrap32(d + F(a, b, c) + X[9] + 0x8b44_f7af);  d := Wrap32(RotateLeft(t, 12) + a);
    RoundF(10, s, x, c, d, a, b);
    t := Wrap32(c + F(d, a, b) + X[10] + 0xffff_5bb1);  c := Wrap32(RotateLeft(t, 17) + d);
    RoundF(11, s, x, b, c, d, a);
    t := Wrap32(b + F(c, d, a) + X[11] + 0x895c_d7be);  b := Wrap32(RotateLeft(t, 22) + c);
    RoundF(12, s, x, a, b, c, d);
    t := Wrap32(a + F(b, c, d) + X[12] + 0x6b90_1122);  a := Wrap32(RotateLeft(t, 7) + b);
    RoundF(13, s, x, d, a, b, c);
    t := Wrap32(d + F(a, b, c) + X[13] + 0xfd98_7193);  d := Wrap32(RotateLeft(t, 12) + a);
    RoundF(14, s, x, c, d, a, b);
    t := Wrap32(c + F(d, a, b) + X[14] + 0xa679_438e);  c := Wrap32(RotateLeft(t, 17) + d);
    RoundF(15, s, x, b, c, d, a);
    t := Wrap32(b + F(c, d, a) + X[15] + 0x49b4_0821);  b := Wrap32(RotateLeft(t, 22) + c);
    // Operations 16 to 31, with G
    Table2();
    RoundG(16, s, x, a, b, c, d);
    t := Wrap32(a + G(b, c, d) + X[1] + 0xf61e_2562);  a := Wrap32(RotateLeft(t, 5) + b);
    RoundG(17, s, x, d, a, b, c);
    t := Wrap32(d + G(a, b, c) + X[6] + 0xc040_b340);  d := Wrap32(RotateLeft(t, 9) + a);
    RoundG(18, s, x, c, d, a, b);
    t := Wrap32(c + G(d, a, b) + X[11] + 0x265e_5a51);  c := Wrap32(RotateLeft(t, 14) + d);
    RoundG(19, s, x, b, c, d, a);
    t := Wrap32(b + G(c, d, a) + X[0] + 0xe9b6_c7aa);  b := Wrap32(RotateLeft(t, 20) + c);
    RoundG(20, s, x, a, b, c, d);
    t := Wrap32(a + G(b, c, d) + X[5] + 0xd62f_105d);  a := Wrap32(RotateLeft(t, 5) + b);
    RoundG(21, s, x, d, a, b, c);
    t := Wrap32(d + G(a, b, c) + X[10] + 0x0244_1453);  d := Wrap32(RotateLeft(t, 9) + a);
    RoundG(22, s, x, c, d, a, b);
    t := Wrap32(c + G(d, a, b) + X[15] + 0xd8a1_e681);  c := Wrap32(RotateLeft(t, 14) + d);
    RoundG(23, s, x, b, c, d, a);
    t := Wrap32(b + G(c, d, a) + X[4] + 0xe7d3_fbc8);  b := Wrap32(RotateLeft(t, 20) + c);
    RoundG(24, s, x, a, b, c, d);
    t := Wrap32(a + G(b, c, d) + X[9] + 0x21e1_cde6);  a := Wrap32(RotateLeft(t, 5) + b);
    RoundG(25, s, x, d, a, b, c);
    t := Wrap32(d + G(a, b, c) + X[14] + 0xc337_07d6);  d := Wrap32(RotateLeft(t, 9) + a);
    RoundG(26, s, x, c, d, a, b);
    t := Wrap32(c + G(d, a, b) + X[3] + 0xf4d5_0d87);  c := Wrap32(RotateLeft(t, 14) + d);
    RoundG(27, s, x, b, c, d, a);
    t := Wrap32(b + G(c, d, a) + X[8] + 0x455a_14ed);  b := Wrap32(RotateLeft(t, 20) + c);
    RoundG(28, s, x, a, b, c, d);
    t := Wrap32(a + G(b, c, d) + X[13] + 0xa9e3_e905);  a := Wrap32(RotateLeft(t, 5) + b);
    RoundG(29, s, x, d, a, b, c);
    t := Wrap32(d + G(a, b, c) + X[2] + 0xfcef_a3f8);  d := Wrap32(RotateLeft(t, 9) + a);
    RoundG(30, s, x, c, d, a, b);
    t := Wrap32(c + G(d, a, b) + X[7] + 0x676f_02d9);  c := Wrap32(RotateLeft(t, 14) + d);
    RoundG(31, s, x, b, c, d, a);
    t := Wrap32(b + G(c, d, a) + X[12] + 0x8d2a_4c8a);  b := Wrap32(RotateLeft(t, 20) + c);
    // Operations 32 to 47, with H
    Table3();
    RoundH(32, s, x, a, b, c, d);
    t := Wrap32(a + H(b, c, d) + X[5] + 0xfffa_3942);  a := Wrap32(RotateLeft(t, 4) + b);
    RoundH(33, s, x, d, a, b, c);
    t := Wrap32(d + H(a, b, c) + X[8] + 0x8771_f681);  d := Wrap32(RotateLeft(t, 11) + a);
    RoundH(34, s, x, c, d, a, b);
    t := Wrap32(c + H(d, a, b) + X[11] + 0x6d9d_6122);  c := Wrap32(RotateLeft(t, 16) + d);
    RoundH(35, s, x, b, c, d, a);
    t := Wrap32(b + H(c, d, a) + X[14] + 0xfde5_380c);  b := Wrap32(RotateLeft(t, 23) + c);
    RoundH(36, s, x, a, b, c, d);
    t := Wrap32(a + H(b, c, d) + X[1] + 0xa4be_ea44);  a := Wrap32(RotateLeft(t, 4) + b);
    RoundH(37, s, x, d, a, b, c);
    t := Wrap32(d + H(a, b, c) + X[4] + 0x4bde_cfa9);  d := Wrap32(RotateLeft(t, 11) + a);
    RoundH(38, s, x, c, d, a, b);
    t := Wrap32(c + H(d, a, b) + X[7] + 0xf6bb_4b60);  c := Wrap32(RotateLeft(t, 16) + d);
    RoundH(39, s, x, b, c, d, a);
    t := Wrap32(b + H(c, d, a) + X[10] + 0xbebf_bc70);  b := Wrap32(RotateLeft(t, 23) + c);
    RoundH(40, s, x, a, b, c, d);
    t := Wrap32(a + H(b, c, d) + X[13] + 0x289b_7ec6);  a := Wrap32(RotateLeft(t, 4) + b);
    RoundH(41, s, x, d, a, b, c);
    t := Wrap32(d + H(a, b, c) + X[0] + 0xeaa1_27fa);  d := Wrap32(RotateLeft(t, 11) + a);
    RoundH(42, s, x, c, d, a, b);
    t := Wrap32(c + H(d, a, b) + X[3] + 0xd4ef_3085);  c := Wrap32(RotateLeft(t, 16) + d);
    RoundH(43, s, x, b, c, d, a);
    t := Wrap32(b + H(c, d, a) + X[6] + 0x0488_1d05);  b := Wrap32(RotateLeft(t, 23) + c);
    RoundH(44, s, x, a, b, c, d);
    t := Wrap32(a + H(b, c, d) + X[9] + 0xd9d4_d039);  a := Wrap32(RotateLeft(t, 4) + b);
    RoundH(45, s, x, d, a, b, c);
    t := Wrap32(d + H(a, b, c) + X[12] + 0xe6db_99e5);  d := Wrap32(RotateLeft(t, 11) + a);
    RoundH(46, s, x, c, d, a, b);
    t := Wrap32(c + H(d, a, b) + X[15] + 0x1fa2_7cf8);  c := Wrap32(RotateLeft(t, 16) + d);
    RoundH(47, s, x, b, c, d, a);
    t := Wrap32(b + H(c, d, a) + X[2] + 0xc4ac_5665);  b := Wrap32(RotateLeft(t, 23) + c);
    // Operations 48 to 63, with I
    Table4();
    RoundI(48, s, x, a, b, c, d);
    t := Wrap32(a + I(b, c, d) + X[0] + 0xf429_2244);  a := Wrap32(RotateLeft(t, 6) + b);
    RoundI(49, s, x, d, a, b, c);
    t := Wrap32(d + I(a, b, c) + X[7] + 0x432a_ff97);  d := Wrap32(RotateLeft(t, 10) + a);
    RoundI(50, s, x, c, d, a, b);
    t := Wrap32(c + I(d, a, b) + X[14] + 0xab94_23a7);  c := Wrap32(RotateLeft(t, 15) + d);
    RoundI(51, s, x, b, c, d, a);
    t := Wrap32(b + I(c, d, a) + X[5] + 0xfc93_a039);  b := Wrap32(RotateLeft(t, 21) + c);
    RoundI(52, s, x, a, b, c, d);
    t := Wrap32(a + I(b, c, d) + X[12] + 0x655b_59c3);  a := Wrap32(RotateLeft(t, 6) + b);
    RoundI(53, s, x, d, a, b, c);
    t := Wrap32(d + I(a, b, c) + X[3] + 0x8f0c_cc92);  d := Wrap32(RotateLeft(t, 10) + a);
    RoundI(54, s, x, c, d, a, b);
    t := Wrap32(c + I(d, a, b) + X[10] + 0xffef_f47d);  c := Wrap32(RotateLeft(t, 15) + d);
    RoundI(55, s, x, b, c, d, a);
    t := Wrap32(b + I(c, d, a) + X[1] + 0x8584_5dd1);  b := Wrap32(RotateLeft(t, 21) + c);
    RoundI(56, s, x, a, b, c, d);
    t := Wrap32(a + I(b, c, d) + X[8] + 0x6fa8_7e4f);  a := Wrap32(RotateLeft(t, 6) + b);
    RoundI(57, s, x, d, a, b, c);
    t := Wrap32(d + I(a, b, c) + X[15] + 0xfe2c_e6e0);  d := Wrap32(RotateLeft(t, 10) + a);
    RoundI(58, s, x, c, d, a, b);
    t := Wrap32(c + I(d, a, b) + X[6] + 0xa301_4314);  c := Wrap32(RotateLeft(t, 15) + d);
    RoundI(59, s, x, b, c, d, a);
    t := Wrap32(b + I(c, d, a) + X[13] + 0x4e08_11a1);  b := Wrap32(RotateLeft(t, 21) + c);
    RoundI(60, s, x, a, b, c, d);
    t := Wrap32(a + I(b, c, d) + X[4] + 0xf753_7e82);  a := Wrap32(RotateLeft(t, 6) + b);
    RoundI(61, s, x, d, a, b, c);
    t := Wrap32(d + I(a, b, c) + X[11] + 0xbd3a_f235);  d := Wrap32(RotateLeft(t, 10) + a);
    RoundI(62, s, x, c, d, a, b);
    t := Wrap32(c + I(d, a, b) + X[2] + 0x2ad7_d2bb);  c := Wrap32(RotateLeft(t, 15) + d);
    RoundI(63, s, x, b, c, d, a);
    t := Wrap32(b + I(c, d, a) + X[9] + 0xeb86_d391);  b := Wrap32(RotateLeft(t, 21) + c);
  }

  class Md5State {
    const count: array<u32>
    const abcd: array<u32>
    const buf: array<byte>
    /** Everything appended since initialisation. */
    ghost var message: seq<byte>

    ghost predicate Shape() {
      && count.Length == 2 && abcd.Length == 4 && buf.Length == 64
      && count != abcd
    }

    ghost function Digest(): Abcd
      requires Shape()
      reads abcd
    {
      Abcd(abcd[0], abcd[1], abcd[2], abcd[3])
    }

    /** The two count words hold the length of the message in bits modulo 2^64, the
        digest buffer has absorbed its whole blocks and the partial-block buffer
        begins with the bytes that are left over. */
    ghost predicate Valid()
      reads this, count, abcd, buf
    {
      && Shape()
      && Counts(count[0], count[1], |message|)
      && Digest() == Absorb(INITIAL, message)
      && buf[..Overhang(|message|)] == Tail(message)
    }

    constructor Init()
      ensures Valid() && message == []
      ensures fresh(count) && fresh(abcd) && fresh(buf)
    {
      hide Absorb, Compress;
      AbsorbRest(INITIAL, []);
      count := new u32[2](_ => 0);
      abcd := new u32[4];
      buf := new byte[64];
      message := [];
      new;
      abcd[0] := 0x6745_2301;
      abcd[1] := 0xefcd_ab89;
      abcd[2] := 0x98ba_dcfe;
      abcd[3] := 0x1032_5476;
    }

    /** Folds the 64 bytes at `data[at..]` into the digest buffer. */
    method Process(data: array<byte>, at: nat)
      requires Shape() && at + 64 <= data.Length
      modifies abcd
      ensures Digest() == Compress(old(Digest()), old(data[at..at + 64]))
    {
      hide Operations, Wrap32;
      var X := DecodeBlock(data, at);
      var a, b, c, d := Rounds(abcd[0], abcd[1], abcd[2], abcd[3], X);
      abcd[0] := Wrap32(abcd[0] as int + a);
      abcd[1] := Wrap32(abcd[1] as int + b);
      abcd[2] := Wrap32(abcd[2] as int + c);
      abcd[3] := Wrap32(abcd[3] as int + d);
    }

    /** Adds the bits of `nbytes` more bytes to the counter. */
    method CountBytes(nbytes: int, ghost length: nat)
      requires Shape() && 0 < nbytes < 0x8000_0000 && Counts(count[0], count[1], length)
      modifies count
      ensures Counts(count[0], count[1], length + nbytes)
    {
      hide Counts;
      var nbits := Wrap32(8 * nbytes);
      CountsAfter(count[0], count[1], length, nbytes);
      count[1] := Wrap32(count[1] as int + nbytes / 0x2000_0000);
      count[0] := Wrap32(count[0] as int + nbits);
      if count[0] < nbits {
        count[1] := Wrap32(count[1] as int + 1);
      }
    }

    /** Copies `n` bytes of `data[p..]` to the partial-block buffer at `at`. */
    method Keep(at: nat, data: array<byte>, p: nat, n: nat)
      requires Shape() && data != buf && at + n <= 64 && p + n <= data.Length
      modifies buf
      ensures buf[..at + n] == old(buf[..at]) + old(data[p..p + n])
    {
      forall i | 0 <= i < n {
        buf[at + i] := data[p + i];
      }
    }

    /** Processes the full blocks of `data[p..p + left]` and says where they end. */
    method ProcessBlocks(data: array<byte>, from: nat, nbytes: nat) returns (p: nat, left: nat)
      requires Shape() && from <= nbytes <= data.Length
      modifies abcd
      ensures from <= p && left == nbytes - p < 64 && Aligned(p - from)
      ensures Digest() == Absorb(old(Digest()), old(data[from..nbytes]))
      ensures old(data[..nbytes]) == data[..nbytes]
    {
      hide Absorb, Compress, Overhang;
      ghost var s, d := Digest(), data[from..nbytes];
      p, left := from, nbytes - from;
      while left >= 64
        invariant from <= p <= nbytes && left == nbytes - p && Aligned(p - from)
        invariant Absorb(Digest(), data[p..nbytes]) == Absorb(s, d)
        invariant old(data[..nbytes]) == data[..nbytes]
      {
        assert data[p..nbytes][..64] == data[p..p + 64] && data[p..nbytes][64..] == data[p + 64..nbytes];
        AbsorbBlock(Digest(), data[p..nbytes]);
        Process(data, p);
        p, left := p + 64, left - 64;
      }
      AbsorbRest(Digest(), data[p..nbytes]);
    }

    /** Completes an initial partial block as far as the data goes, and processes it
        when it is full; `p` is how much of the data that takes. */
    method ProcessPartialBlock(data: array<byte>, offset: nat, nbytes: nat) returns (p: nat, full: bool)
      requires Shape() && data != buf && 0 < offset < 64 && nbytes <= data.Length
      modifies abcd, buf
      ensures full == (offset + nbytes >= 64) && p == if full then 64 - offset else nbytes
      ensures old(data[..nbytes]) == data[..nbytes]
      ensures buf[..offset + p] == old(buf[..offset]) + old(data[..p])
      ensures Digest() == if full then Compress(old(Digest()), old(buf[..offset]) + old(data[..p])) else old(Digest())
    {
      hide Compress;
      p := if offset + nbytes > 64 then 64 - offset else nbytes;
      Keep(offset, data, 0, p);
      full := offset + p >= 64;
      if full {
        assert buf[..] == buf[0..64];
        Process(buf, 0);
      }
    }

    /** Appends the first `nbytes` bytes of `data` to the message. */
    method Append(data: array<byte>, nbytes: int)
      requires Valid() && data != buf
      requires nbytes <= data.Length && Overhang(|message|) + nbytes <= 0x7fff_ffff
      modifies this`message, count, abcd, buf
      ensures Valid()
      ensures message == old(message) + old(data[..if nbytes > 0 then nbytes else 0])
    {
      hide Absorb, Compress, Wrap32, Counts, Overhang, Aligned;
      CountsAlign(count[0], count[1], |message|);
      var offset := count[0] / 8 % 64;
      if nbytes <= 0 {
        assert message + data[..0] == message;
        return;
      }

      ghost var m, d := message, data[..nbytes];
      CountBytes(nbytes, |message|);
      message := message + d;

      var p := 0;
      if offset != 0 {
        var full;
        p, full := ProcessPartialBlock(data, offset, nbytes);
        assert old(data[..p]) == d[..p];
        if !full {
          WithinBlock(m, d);
          return;
        }
      }
      AcrossBlock(m, d, p);
      ghost var from := p;
      assert data[from..nbytes] == data[..nbytes][from..] == d[from..];
      var left;
      p, left := ProcessBlocks(data, p, nbytes);
      LastBlock(m, d, from, p);
      if left != 0 {
        assert data[p..nbytes] == data[..nbytes][p..] == d[p..];
        Keep(0, data, p, left);
      }
      assert buf[..left] == d[p..];
    }

    /** The message length as eight bytes. */
    method SaveLength() returns (data: array<byte>)
      requires Valid()
      ensures fresh(data) && data[..] == LengthBytes(|message|)
    {
      hide LengthBytes, ShiftRight, Counts, Absorb;
      LengthOfCounts(count[0], count[1], |message|);
      data := new byte[8];
      var i := 0;
      while i < 8
        invariant 0 <= i <= 8
        invariant data[..i] == LengthBytes(|message|)[..i]
        modifies data
      {
        data[i] := ShiftRight(count[i / 4], 8 * (i % 4)) % 0x100;
        i := i + 1;
      }
    }

    method Output16(digest: array<byte>)
      requires Shape() && digest.Length == 16
      modifies digest
      ensures digest[..] == Output(old(Digest()))
    {
      hide Output, ShiftRight;
      ghost var s := Digest();
      WordBytes(s);
      var i := 0;
      while i < 16
        invariant 0 <= i <= 16
        invariant digest[..i] == Output(s)[..i] && Digest() == s
        modifies digest
      {
        digest[i] := ShiftRight(abcd[i / 4], 8 * (i % 4)) % 0x100;
        i := i + 1;
      }
    }

    /** Pads the message, appends its length and returns the digest. */
    method Finish(digest: array<byte>)
      requires Valid() && digest.Length == 16
      requires digest != buf
      modifies this`message, count, abcd, buf, digest
      ensures Valid()
      ensures message == Padded(old(message))
      ensures digest[..] == Md5(old(message))
    {
      hide Absorb, Compress, Wrap32, Counts, Overhang, Output, LengthBytes;
      ghost var m := message;
      var pad := new byte[64](i => if i == 0 then 0x80 else 0);

      // The length bytes must not count what follows.
      var data := SaveLength();
      // Eight bytes of room are left in the last block.
      PadLength(count[0], count[1], |m|);
      var n := Wrap32(55 - count[0] as int / 8) % 64 + 1;
      assert pad[..n] == Padding(|m|);
      Append(pad, n);
      // They fill it.
      assert data[..8] == data[..];
      Append(data, 8);
      assert message == Padded(m);
      Output16(digest);
    }
  }

  function Concat(chunks: seq<seq<byte>>): seq<byte> {
    if chunks == [] then [] else Concat(chunks[..|chunks| - 1]) + chunks[|chunks| - 1]
  }

  /** However a message is cut into chunks, feeding them one after another and then
      finishing gives the digest of the whole message. */
  method DigestOfChunks(chunks: seq<seq<byte>>) returns (digest: seq<byte>)
    requires forall i :: 0 <= i < |chunks| ==> Overhang(|Concat(chunks[..i])|) + |chunks[i]| <= 0x7fff_ffff
    ensures digest == Md5(Concat(chunks))
  {
    hide Md5;
    var state := new Md5State.Init();
    var i := 0;
    while i < |chunks|
      invariant 0 <= i <= |chunks|
      invariant state.Valid() && fresh(state) && fresh(state.count) && fresh(state.abcd) && fresh(state.buf)
      invariant state.message == Concat(chunks[..i])
    {
      var data := new byte[|chunks[i]|](j requires 0 <= j < |chunks[i]| => chunks[i][j]);
      state.Append(data, |chunks[i]|);
      assert chunks[..i + 1][..i] == chunks[..i];
      assert data[..|chunks[i]|] == chunks[i];
      i := i + 1;
    }
    assert chunks[..i] == chunks;
    var out := new byte[16];
    state.Finish(out);
    digest := out[..];
  }

  lemma LengthOfCounts(lo: u32, hi: u32, length: nat)
    requires Counts(lo, hi, length)
    ensures forall i :: 0 <= i < 8 ==>
              LengthBytes(length)[i] == ShiftRight(if i / 4 == 0 then lo else hi, 8 * (i % 4)) % 0x100
  {
    hide LeBytes, ShiftRight;
    SplitWords(lo, hi);
    BytesByShifting(lo);
    BytesByShifting(hi);
  }

  lemma PadLength(lo: u32, hi: u32, length: nat)
    requires Counts(lo, hi, length)
    ensures Wrap32(55 - lo as int / 8) % 64 == (55 - length) % 64
  {
    CountsAlign(lo, hi, length);
    PadOfOverhang(lo / 8, length);
  }

  lemma PadOfOverhang(x: int, y: int)
    requires x % 64 == y % 64
    ensures Wrap32(55 - x) % 64 == (55 - y) % 64
  {
    var b := x % 64;
    var r := if b <= 55 then 55 - b else 119 - b;
    var k := (55 - x) / 0x1_0000_0000;
    var c := if b <= 55 then 0 else 1;
    Mod64Is(55 - x - k * 0x1_0000_0000, -(x / 64) - c - k * 0x400_0000, r);
    Mod64Is(55 - y, -(y / 64) - c, r);
  }

  lemma WordBytes(s: Abcd)
    ensures forall i :: 0 <= i < 16 ==>
              Output(s)[i] == ShiftRight([s.a, s.b, s.c, s.d][i / 4], 8 * (i % 4)) % 0x100
  {
    BytesByShifting(s.a);
    BytesByShifting(s.b);
    BytesByShifting(s.c);
    BytesByShifting(s.d);
  }

  /** Data that does not complete the partial block only lengthens it. */
  lemma WithinBlock(m: seq<byte>, d: seq<byte>)
    requires Overhang(|m|) + |d| < 64
    ensures Absorb(INITIAL, m + d) == Absorb(INITIAL, m)
    ensures Tail(m + d) == Tail(m) + d
  {
    hide *;
    assert Absorb(INITIAL, m + d) == Absorb(INITIAL, m) by {
      AbsorbMore(INITIAL, m, d);
      AbsorbRest(Absorb(INITIAL, m), Tail(m) + d);
    }
    TailGrows(m, d);
  }

  lemma TailGrows(m: seq<byte>, d: seq<byte>)
    requires Overhang(|m|) + |d| < 64
    ensures Tail(m + d) == Tail(m) + d
  {
    hide Overhang, Aligned;
    AlignedPart(|m|);
    var t := Tail(m) + d;
    assert (m + d)[|m + d| - |t|..] == t;
    TailOfSuffix(m + d, t);
  }

  /** Data that reaches `from`, the end of the partial block if there is one, has
      that block absorbed first and the rest after it. */
  lemma AcrossBlock(m: seq<byte>, d: seq<byte>, from: nat)
    requires from == (if Overhang(|m|) == 0 then 0 else 64 - Overhang(|m|)) <= |d|
    ensures var s := Absorb(INITIAL, m);
            Absorb(INITIAL, m + d) ==
            Absorb(if Overhang(|m|) == 0 then s else Compress(s, Tail(m) + d[..from]), d[from..])
  {
    hide Absorb, Compress, Overhang;
    AbsorbMore(INITIAL, m, d);
    if Overhang(|m|) == 0 {
      assert Tail(m) + d == d == d[0..];
    } else {
      var t := Tail(m);
      AbsorbBlock(Absorb(INITIAL, m), t + d);
      assert (t + d)[..64] == t + d[..from] && (t + d)[64..] == d[from..];
    }
  }

  /** After whole blocks from `from` to `p`, the bytes left over are the new tail. */
  lemma LastBlock(m: seq<byte>, d: seq<byte>, from: nat, p: nat)
    requires from == if Overhang(|m|) == 0 then 0 else 64 - Overhang(|m|)
    requires from <= p <= |d| < p + 64 && Aligned(p - from)
    ensures Tail(m + d) == d[p..]
  {
    assert (m + d)[|m| + p..] == d[p..];
    assert |m| + p == (|m| - Overhang(|m|)) + (if Overhang(|m|) == 0 then 0 else 64) + (p - from);
    TailOfSuffix(m + d, d[p..]);
  }

  /** The two count words after `n` more bytes: the low word's carry and the bits
      `n >> 29` that do not fit in it reach the high word. */
  lemma CountsAfter(lo: u32, hi: u32, length: nat, n: nat)
    requires Counts(lo, hi, length) && 0 < n < 0x8000_0000
    ensures var nbits := Wrap32(8 * n);
            var lo' := Wrap32(lo as int + nbits);
            var hi' := Wrap32(hi as int + n / 0x2000_0000);
            Counts(lo', if lo' < nbits then Wrap32(hi' as int + 1) else hi', length + n)
  {
    var nbits := Wrap32(8 * n);
    var lo' := Wrap32(lo as int + nbits);
    var carry := if lo' < nbits then 1 else 0;
    var sum := hi + n / 0x2000_0000 + carry;
    var hi' := Wrap32(sum);
    LowWord(lo, nbits);
    HighWord(hi, n / 0x2000_0000, carry);
    EightTimes(n);
    var q := 8 * length / 0x1_0000_0000_0000_0000;
    ModIs(8 * (length + n), q + sum / 0x1_0000_0000, TwoWords(lo', hi'));
  }

  lemma LowWord(lo: u32, nbits: u32)
    ensures var r := Wrap32(lo as int + nbits);
            lo as int + nbits == r + (if r < nbits then 0x1_0000_0000 else 0)
  {}

  lemma HighWord(hi: u32, more: int, carry: int)
    requires 0 <= carry <= 1
    ensures Wrap32(hi as int + more + carry) ==
            if carry == 1 then Wrap32(Wrap32(hi as int + more) as int + 1) else Wrap32(hi as int + more)
  {}

  lemma EightTimes(n: nat)
    ensures 8 * n == Wrap32(8 * n) + 0x1_0000_0000 * (n / 0x2000_0000)
  {
    var q, r := n / 0x2000_0000, n % 0x2000_0000;
    WrapIs(8 * n, q, 8 * r);
  }

  lemma WrapIs(x: int, q: int, r: int)
    requires x == q * 0x1_0000_0000 + r && 0 <= r < 0x1_0000_0000
    ensures Wrap32(x) == r
  {}

  lemma ModIs(x: int, q: int, r: int)
    requires x == q * 0x1_0000_0000_0000_0000 + r && 0 <= r < 0x1_0000_0000_0000_0000
    ensures x % 0x1_0000_0000_0000_0000 == r
  {}

  lemma CountsAlign(lo: u32, hi: u32, length: nat)
    requires Counts(lo, hi, length)
    ensures lo / 8 % 64 == Overhang(length)
  {
    AlignOfBits(lo, hi, length, 8 * length / 0x1_0000_0000_0000_0000);
  }

  lemma AlignOfBits(lo: int, hi: int, length: nat, q: int)
    requires lo + 0x1_0000_0000 * hi == 8 * length - q * 0x1_0000_0000_0000_0000
    ensures lo / 8 % 64 == length % 64
  {
    var x := length - 64 * q * 0x80_0000_0000_0000 - 64 * 0x80_0000 * hi;
    assert lo == 8 * x;
    var a, b := length / 64, length % 64;
    Mod64Is(x, a - q * 0x80_0000_0000_0000 - 0x80_0000 * hi, b);
  }

  lemma TailOfSuffix(m: seq<byte>, t: seq<byte>)
    requires |t| < 64 && |t| <= |m| && Aligned(|m| - |t|) && m[|m| - |t|..] == t
    ensures Tail(m) == t && Overhang(|m|) == |t|
  {}

  lemma AlignedPart(n: nat)
    ensures Aligned(n - Overhang(n))
  {}

  lemma AbsorbBlock(s: Abcd, m: seq<byte>)
    requires |m| >= 64
    ensures Absorb(s, m) == Absorb(Compress(s, m[..64]), m[64..])
  {
    hide Compress;
  }

  lemma AbsorbRest(s: Abcd, m: seq<byte>)
    requires |m| < 64
    ensures Absorb(s, m) == s
  {}

  lemma {:induction false} AbsorbMore(s: Abcd, m: seq<byte>, d: seq<byte>)
    ensures Absorb(s, m + d) == Absorb(Absorb(s, m), Tail(m) + d)
    decreases |m|
  {
    hide Compress;
    if |m| < 64 {
      assert Tail(m) == m;
    } else {
      assert (m + d)[..64] == m[..64] && (m + d)[64..] == m[64..] + d;
      assert Tail(m[64..]) == Tail(m);
      AbsorbMore(Compress(s, m[..64]), m[64..], d);
    }
  }
}
