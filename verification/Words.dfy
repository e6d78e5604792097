/** Machine words: unsigned integers of a fixed width, their bytes in little-endian
    order, and the bitwise operators of C on 32-bit words. */
module Words {
  type byte = x: int | 0 <= x < 0x100
  type u16 = x: int | 0 <= x < 0x1_0000
  type u32 = x: int | 0 <= x < 0x1_0000_0000
  type u64 = x: int | 0 <= x < 0x1_0000_0000_0000_0000

  /** The value an unsigned 32-bit variable holds after being assigned `x`. */
  function Wrap32(x: int): u32 { x % 0x1_0000_0000 }

  lemma NoWrap(x: int)
    ensures 0 <= x < 0x1_0000_0000 ==> Wrap32(x) == x
  {}

  /** The value a signed 32-bit variable holds after being assigned `x`. */
  function ToInt32(x: int): int {
    var w := x % 0x1_0000_0000;
    if w < 0x8000_0000 then w else w - 0x1_0000_0000
  }

  function Pow2(n: nat): (p: nat)
    ensures p > 0
  {
    if n == 0 then 1 else 2 * Pow2(n - 1)
  }

  lemma {:induction false} Pow2Add(m: nat, n: nat)
    ensures Pow2(m + n) == Pow2(m) * Pow2(n)
  {
    if m > 0 { Pow2Add(m - 1, n); }
  }

  lemma {:induction false} Pow2Grows(m: nat, n: nat)
    requires m <= n
    ensures Pow2(m) <= Pow2(n)
  {
    if m > 0 { Pow2Grows(m - 1, n - 1); }
  }

  lemma Pow2Of32()
    ensures Pow2(8) == 0x100 && Pow2(16) == 0x1_0000 && Pow2(32) == 0x1_0000_0000
    ensures Pow2(64) == 0x1_0000_0000_0000_0000
  {
    assert Pow2(8) == 0x100;
    Pow2Add(8, 8);
    Pow2Add(16, 16);
    Pow2Add(32, 32);
  }

  lemma Mod64Is(x: int, q: int, r: int)
    requires x == q * 64 + r && 0 <= r < 64
    ensures x % 64 == r
  {}

  // ----- Quotients

  lemma QuotientIs(n: int, d: int, q: int, r: int)
    requires d > 0 && n == q * d + r && 0 <= r < d
    ensures n / d == q && n % d == r
  {
    var q', r' := n / d, n % d;
    var e := q - q';
    assert e * d == r' - r;
    Multiple(e, d, r' - r);
  }

  lemma ModShift(x: int, q: int, m: int)
    requires m > 0
    ensures (x + q * m) % m == x % m
  {
    var y := x + q * m;
    assert y == (x / m + q) * m + x % m;
    QuotientIs(y, m, x / m + q, x % m);
  }

  lemma Multiple(e: int, d: int, x: int)
    requires e * d == x && -d < x < d
    ensures e == 0
  {
    MulGrows(e, d);
  }

  lemma MulGrows(e: int, d: int)
    requires d > 0
    ensures e >= 1 ==> e * d >= d
    ensures e <= -1 ==> e * d <= -d
  {}

  // ----- Little-endian byte strings

  /** The `n` low bytes of `v`, lowest first: what a store of `n` bytes writes. */
  function LeBytes(v: nat, n: nat): (s: seq<byte>)
    ensures |s| == n
  {
    if n == 0 then [] else [v % 0x100] + LeBytes(v / 0x100, n - 1)
  }

  /** The number a byte string denotes, lowest byte first: what a load reads. */
  function LeValue(s: seq<byte>): (v: nat)
    ensures v < Pow2(8 * |s|)
  {
    if s == [] then 0
    else
      Pow2Add(8, 8 * |s[1..]|);
      s[0] + 0x100 * LeValue(s[1..])
  }

  /** `b0 + (b1 << 8) + (b2 << 16) + (b3 << 24)` */
  function Join(b0: int, b1: int, b2: int, b3: int): int {
    b0 + 0x100 * b1 + 0x1_0000 * b2 + 0x100_0000 * b3
  }

  lemma LeValueOfFour(b: seq<byte>)
    requires |b| == 4
    ensures LeValue(b) == Join(b[0], b[1], b[2], b[3])
  {
    assert b[1..][1..] == b[2..] && b[2..][1..] == b[3..] && b[3..][1..] == [];
    assert LeValue(b[2..]) == b[2] as int + 0x100 * LeValue(b[3..]);
    assert LeValue(b[3..]) == b[3];
  }

  lemma BytesOfJoin(b0: byte, b1: byte, b2: byte, b3: byte)
    ensures 0 <= Join(b0, b1, b2, b3) < 0x1_0000_0000
    ensures LeBytes(Join(b0, b1, b2, b3), 4) == [b0, b1, b2, b3]
  {
    LowByte(b0, b1 + 0x100 * b2 + 0x1_0000 * b3);
    LowByte(b1, b2 + 0x100 * b3);
    LowByte(b2, b3);
    LowByte(b3, 0);
    assert LeBytes(b3, 1) == [b3] + LeBytes(b3 / 0x100, 0);
    assert LeBytes(b2 + 0x100 * b3 as int, 2) == [b2] + LeBytes(b3, 1);
    assert LeBytes(b1 + 0x100 * b2 as int + 0x1_0000 * b3 as int, 3) == [b1] + LeBytes(b2 + 0x100 * b3 as int, 2);
  }

  /** A load of as many bytes as were stored gives back the stored value. */
  lemma {:induction false} LoadAfterStore(v: nat, n: nat)
    requires v < Pow2(8 * n)
    ensures LeValue(LeBytes(v, n)) == v
  {
    if n > 0 {
      Pow2Add(8, 8 * (n - 1));
      LoadAfterStore(v / 0x100, n - 1);
    }
  }

  /** Byte `j` is digit `j` to the base 256. */
  lemma {:induction false} DigitOfBytes(v: nat, n: nat, j: nat)
    requires j < n
    ensures LeBytes(v, n)[j] == v / Pow2(8 * j) % 0x100
  {
    if j > 0 {
      Pow2Of32();
      Pow2Add(8, 8 * (j - 1));
      hide Pow2;
      DivideTwice(v, 0x100, Pow2(8 * (j - 1)));
      DigitOfBytes(v / 0x100, n - 1, j - 1);
    }
  }

  lemma DivideTwice(x: nat, p: nat, q: nat)
    requires 0 < p && 0 < q && 0 < p * q
    ensures x / p / q == x / (p * q)
  {
    var y, r := x / p, x % p;
    var z, s := y / q, y % q;
    assert x == p * (q * z + s) + r;
    Distribute3(p, q, z, s);
    MulGrows2(p, s, q - 1);
    QuotientIs(x, p * q, z, p * s + r);
  }

  lemma Distribute3(p: int, q: int, z: int, s: int)
    ensures p * (q * z + s) == z * (p * q) + p * s
  {}

  lemma MulGrows2(p: nat, s: nat, t: int)
    requires s <= t
    ensures 0 <= p * s <= p * t && p * (t + 1) == p * t + p
  {}

  // ----- Bitwise operators

  function Bit(x: nat, k: nat): bool {
    if k == 0 then x % 2 == 1 else Bit(x / 2, k - 1)
  }

  /** `op` applied to each of the `n` low bits of `x` and `y`. */
  function Bitwise(op: (bool, bool) -> bool, x: nat, y: nat, n: nat): (r: nat)
    ensures r < Pow2(n)
  {
    if n == 0 then 0
    else (if op(x % 2 == 1, y % 2 == 1) then 1 else 0) + 2 * Bitwise(op, x / 2, y / 2, n - 1)
  }

  /** Each of the `n` low bits of the result is the operator on the two bits in its place. */
  lemma {:induction false} BitwiseBits(op: (bool, bool) -> bool, x: nat, y: nat, n: nat, k: nat)
    requires k < n
    ensures Bit(Bitwise(op, x, y, n), k) == op(Bit(x, k), Bit(y, k))
  {
    if k > 0 { BitwiseBits(op, x / 2, y / 2, n - 1, k - 1); }
  }

  predicate Both(p: bool, q: bool) { p && q }
  predicate Either(p: bool, q: bool) { p || q }
  predicate Differ(p: bool, q: bool) { p != q }

  function And32(x: u32, y: u32): u32 { Pow2Of32(); Bitwise(Both, x, y, 32) }
  function Or32(x: u32, y: u32): u32 { Pow2Of32(); Bitwise(Either, x, y, 32) }
  function Xor32(x: u32, y: u32): u32 { Pow2Of32(); Bitwise(Differ, x, y, 32) }
  function Not32(x: u32): u32 { 0xffff_ffff - x }

  function ShiftLeft(x: u32, n: nat): u32
    decreases n
  {
    if n == 0 then x else ShiftLeft(Wrap32(2 * x), n - 1)
  }

  function ShiftRight(x: u32, n: nat): u32 {
    if n == 0 then x else ShiftRight(x / 2, n - 1)
  }

  /** `(x << n) | (x >> (32 - n))` on an unsigned 32-bit word. */
  function RotateLeft(x: u32, n: nat): u32
    requires 0 < n < 32
  {
    Or32(ShiftLeft(x, n), ShiftRight(x, 32 - n))
  }

  lemma {:induction false} BitwiseSplit(op: (bool, bool) -> bool, x0: nat, x1: nat, y0: nat, y1: nat, k: nat, n: nat)
    requires x0 < Pow2(k) && y0 < Pow2(k)
    ensures Pow2(k) * x1 >= 0 && Pow2(k) * y1 >= 0
    ensures Bitwise(op, x0 + Pow2(k) * x1, y0 + Pow2(k) * y1, k + n)
            == Bitwise(op, x0, y0, k) + Pow2(k) * Bitwise(op, x1, y1, n)
  {
    if k > 0 {
      var p := Pow2(k - 1);
      Halves(x0, p, x1);
      Halves(y0, p, y1);
      BitwiseSplit(op, x0 / 2, x1, y0 / 2, y1, k - 1, n);
      Twice(p, Bitwise(op, x1, y1, n));
    }
  }

  lemma Halves(x: nat, p: nat, y: nat)
    ensures p * y >= 0 && 2 * p * y >= 0
    ensures (x + 2 * p * y) / 2 == x / 2 + p * y && (x + 2 * p * y) % 2 == x % 2
  {
    Twice(p, y);
    var z := p * y;
    assert x + 2 * z == 2 * (x / 2 + z) + x % 2;
  }

  lemma Twice(p: nat, y: nat)
    ensures p * y >= 0 && 2 * p * y == 2 * (p * y)
  {}

  lemma {:induction false} BitwiseWithOnes(x: nat, n: nat)
    requires x < Pow2(n)
    ensures Bitwise(Both, x, Pow2(n) - 1, n) == x
  {
    if n > 0 {
      HalfOfOnes(Pow2(n - 1));
      BitwiseWithOnes(x / 2, n - 1);
    }
  }

  lemma HalfOfOnes(p: nat)
    requires p > 0
    ensures (2 * p - 1) / 2 == p - 1 && (2 * p - 1) % 2 == 1
  {}

  lemma {:induction false} BitwiseWithZero(x: nat, n: nat)
    requires x < Pow2(n)
    ensures Bitwise(Both, x, 0, n) == 0
    ensures Bitwise(Either, x, 0, n) == x
    ensures Bitwise(Either, 0, x, n) == x
  {
    if n > 0 { BitwiseWithZero(x / 2, n - 1); }
  }

  // ----- What the operators compute

  /** Bit `k` is digit `k` to the base 2. */
  lemma {:induction false} BitIsDigit(x: nat, k: nat)
    ensures Bit(x, k) <==> x / Pow2(k) % 2 == 1
  {
    if k > 0 {
      DivideTwice(x, 2, Pow2(k - 1));
      BitIsDigit(x / 2, k - 1);
    }
  }

  /** Bit by bit, `&`, `|`, `^` and `~` are and, or, inequality and not. */
  lemma BitsOfOperators(x: u32, y: u32, k: nat)
    requires k < 32
    ensures Bit(And32(x, y), k) <==> Bit(x, k) && Bit(y, k)
    ensures Bit(Or32(x, y), k) <==> Bit(x, k) || Bit(y, k)
    ensures Bit(Xor32(x, y), k) <==> Bit(x, k) != Bit(y, k)
    ensures Bit(Not32(x), k) <==> !Bit(x, k)
  {
    hide Bitwise, Bit;
    BitwiseBits(Both, x, y, 32, k);
    BitwiseBits(Either, x, y, 32, k);
    BitwiseBits(Differ, x, y, 32, k);
    Pow2Of32();
    BitsOfComplement(x, 32, k);
  }

  lemma {:induction false} BitsOfComplement(x: nat, n: nat, k: nat)
    requires k < n && x < Pow2(n)
    ensures Bit(Pow2(n) - 1 - x, k) <==> !Bit(x, k)
  {
    HalfOfComplement(x, Pow2(n - 1));
    if k > 0 { BitsOfComplement(x / 2, n - 1, k - 1); }
  }

  lemma HalfOfComplement(x: nat, p: nat)
    requires x < 2 * p
    ensures (2 * p - 1 - x) / 2 == p - 1 - x / 2
    ensures (2 * p - 1 - x) % 2 == 1 - x % 2
  {}

  lemma {:induction false} BitsOfMultiple(x: nat, n: nat, k: nat)
    ensures Pow2(n) * x >= 0
    ensures Bit(Pow2(n) * x, k) <==> n <= k && Bit(x, k - n)
  {
    if n > 0 {
      Twice(Pow2(n - 1), x);
      if k > 0 { BitsOfMultiple(x, n - 1, k - 1); }
    }
  }

  lemma {:induction false} ShiftRightDivides(x: u32, n: nat)
    ensures ShiftRight(x, n) == x / Pow2(n)
  {
    if n > 0 {
      DivideTwice(x, 2, Pow2(n - 1));
      ShiftRightDivides(x / 2, n - 1);
    }
  }

  lemma {:induction false} ShiftLeftMultiplies(x: u32, n: nat)
    ensures ShiftLeft(x, n) == x * Pow2(n) % 0x1_0000_0000
    decreases n
  {
    if n > 0 {
      var p := Pow2(n - 1);
      ShiftLeftMultiplies(Wrap32(2 * x), n - 1);
      WrapThenMultiply(2 * x, p, x * (2 * p));
    }
  }

  lemma WrapThenMultiply(x: int, p: int, product: int)
    requires product == x / 2 * (2 * p) && x % 2 == 0
    ensures Wrap32(x) * p % 0x1_0000_0000 == product % 0x1_0000_0000
  {
    var w, k := Wrap32(x), x / 0x1_0000_0000;
    assert product == x * p == w * p + k * p * 0x1_0000_0000;
    ModShift(w * p, k * p, 0x1_0000_0000);
  }

  /** A rotation moves the low bits up and puts the bits shifted out below them. */
  lemma RotationIs(x: u32, n: nat)
    requires 0 < n < 32
    ensures RotateLeft(x, n) == x * Pow2(n) % 0x1_0000_0000 + x / Pow2(32 - n)
  {
    hide Pow2, Bitwise, ShiftLeft, ShiftRight;
    var p, q := Pow2(n), Pow2(32 - n);
    Pow2Of32();
    Pow2Add(n, 32 - n);
    ShiftLeftMultiplies(x, n);
    ShiftRightDivides(x, 32 - n);
    var hi, lo := x / q, x % q;
    ShiftedOut(x, p, q);
    BitwiseSplit(Either, 0, lo, hi, 0, n, 32 - n);
    BitwiseWithZero(hi, n);
    BitwiseWithZero(lo, 32 - n);
  }

  lemma ShiftedOut(x: u32, p: nat, q: nat)
    requires 0 < p && 0 < q && p * q == 0x1_0000_0000
    ensures x / q < p && x * p % 0x1_0000_0000 == p * (x % q)
  {
    var hi, lo := x / q, x % q;
    assert x == hi * q + lo;
    if hi >= p { MulGrows2(q, p, hi); }
    assert hi * q * p == hi * (q * p);
    MulGrows2(p, lo, q - 1);
    assert x * p == hi * 0x1_0000_0000 + p * lo;
    QuotientIs(x * p, 0x1_0000_0000, hi, p * lo);
  }

  lemma ByteByShifting(v: u32, n: nat, j: nat)
    requires j < n
    ensures LeBytes(v, n)[j] == ShiftRight(v, 8 * j) % 0x100
  {
    DigitOfBytes(v, n, j);
    ShiftRightDivides(v, 8 * j);
  }

  lemma BytesByShifting(v: u32)
    ensures forall j: nat :: j < 4 ==> LeBytes(v, 4)[j] == ShiftRight(v, 8 * j) % 0x100
  {
    forall j: nat | j < 4 { ByteByShifting(v, 4, j); }
  }

  /** The bytes of a 64-bit number are those of its low word, then of its high word. */
  lemma SplitWords(lo: u32, hi: u32)
    ensures LeBytes(lo as int + 0x1_0000_0000 * hi, 8) == LeBytes(lo, 4) + LeBytes(hi, 4)
  {
    Pow2Of32();
    LeBytesConcat(lo, 4, hi, 4);
  }

  lemma {:induction false} LeBytesConcat(lo: nat, n: nat, hi: nat, k: nat)
    requires lo < Pow2(8 * n)
    ensures Pow2(8 * n) * hi >= 0
    ensures LeBytes(lo + Pow2(8 * n) * hi, n + k) == LeBytes(lo, n) + LeBytes(hi, k)
  {
    if n > 0 {
      hide LeBytes;
      Pow2Of32();
      Pow2Add(8, 8 * (n - 1));
      hide Pow2;
      var p := Pow2(8 * (n - 1));
      Assoc(0x100, p, hi);
      LeBytesConcat(lo / 0x100, n - 1, hi, k);
      ConcatStep(lo, n, p * hi, n + k, LeBytes(hi, k));
    }
  }

  lemma ConcatStep(lo: nat, n: nat, z: nat, m: nat, rest: seq<byte>)
    requires 0 < n && 0 < m && LeBytes(lo / 0x100 + z, m - 1) == LeBytes(lo / 0x100, n - 1) + rest
    ensures LeBytes(lo + 0x100 * z, m) == LeBytes(lo, n) + rest
  {
    LowByte(lo, z);
  }

  lemma Assoc(a: int, b: int, c: int)
    ensures a * b * c == a * (b * c)
  {}

  lemma LowByte(lo: nat, x: nat)
    ensures (lo + 0x100 * x) % 0x100 == lo % 0x100
    ensures (lo + 0x100 * x) / 0x100 == lo / 0x100 + x
  {}
}
