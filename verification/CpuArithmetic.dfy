/** Multiplication and division of the emulated CPU: exact products, the flags they
    set, and division that truncates toward zero and faults out of range. */
module CpuArithmetic {
  import opened Words
  import opened RegisterFile

  datatype FECPUFlags = FECPUFlags(CF: bool, PF: bool, AF: bool, ZF: bool, SF: bool, TF: bool, IF: bool, DF: bool,
                                   OF: bool)

  const NO_FLAGS := FECPUFlags(false, false, false, false, false, false, false, false, false)

  /** The number of values of an operand. */
  function Modulus(width: FEBitWidth): (m: int)
    ensures 0x100 <= m <= 0x1_0000_0000 && m % 2 == 0
  {
    match width
    case k8bit => 0x100
    case k16bit => 0x1_0000
    case k32bit => 0x1_0000_0000
  }

  /** Conversion to the signed type of an operand. */
  function ToSigned(x: int, width: FEBitWidth): (v: int)
    ensures FitsSigned(v, width)
  {
    var m := Modulus(width);
    if x % m < m / 2 then x % m else x % m - m
  }

  /** Conversion to the unsigned type of an operand. */
  function ToUnsigned(x: int, width: FEBitWidth): (v: int)
    ensures FitsUnsigned(v, width)
  {
    x % Modulus(width)
  }

  predicate FitsSigned(x: int, width: FEBitWidth) { -Modulus(width) <= 2 * x < Modulus(width) }

  predicate FitsUnsigned(x: int, width: FEBitWidth) { 0 <= x < Modulus(width) }

  function ToInt64(x: int): int {
    var w := x % 0x1_0000_0000_0000_0000;
    if w < 0x8000_0000_0000_0000 then w else w - 0x1_0000_0000_0000_0000
  }

  function ToUint64(x: int): u64 { x % 0x1_0000_0000_0000_0000 }

  /** The parity flag: the byte has an even number of one bits. */
  predicate EvenParity(b: byte) { OneBits(b, 8) % 2 == 0 }

  function OneBits(x: nat, n: nat): nat {
    if n == 0 then 0 else x % 2 + OneBits(x / 2, n - 1)
  }

  // ----- What conversions and flags say

  /** Conversion keeps a value modulo the number of values of the operand, which is a power of
      two: bits are cut off and none of the others changes. */
  lemma ConversionKeepsBits(x: int, width: FEBitWidth)
    ensures Modulus(width) == Pow2(8 * width.Bytes())
    ensures (ToSigned(x, width) - x) % Modulus(width) == 0
    ensures (ToUnsigned(x, width) - x) % Modulus(width) == 0
  {
    Pow2Of32();
    var m := Modulus(width);
    var q := x / m;
    assert x == q * m + x % m;
    CongruentToZero(x % m - x, -q, m);
    CongruentToZero(x % m - m - x, -q - 1, m);
  }

  lemma CongruentToZero(x: int, q: int, m: int)
    requires 0 < m && x == q * m
    ensures x % m == 0
  {
    QuotientIs(x, m, q, 0);
  }

  /** The sign of a converted value is its top bit. */
  lemma SignIsTopBit(x: int, width: FEBitWidth)
    ensures ToSigned(x, width) < 0 <==> Bit(ToUnsigned(x, width), 8 * width.Bytes() - 1)
  {
    var u, n := ToUnsigned(x, width), 8 * width.Bytes() - 1;
    ConversionKeepsBits(x, width);
    BitIsDigit(u, n);
    TopHalf(u, Pow2(n));
  }

  lemma TopHalf(r: nat, h: nat)
    requires 0 < h && r < 2 * h
    ensures r / h % 2 == 1 <==> r >= h
  {
    if r < h { QuotientIs(r, h, 0, r); } else { QuotientIs(r, h, 1, r - h); }
  }

  /** Those of the `n` low bits of `x` that are one. */
  ghost function SetBits(x: nat, n: nat): set<int> { set k | 0 <= k < n && Bit(x, k) }

  /** The parity flag: of the eight bits of the byte an even number is set. */
  lemma ParityCountsBits(b: byte)
    ensures EvenParity(b) <==> |SetBits(b, 8)| % 2 == 0
  {
    OneBitsCounts(b, 8);
  }

  lemma {:induction false} OneBitsCounts(x: nat, n: nat)
    ensures OneBits(x, n) == |SetBits(x, n)|
  {
    hide Bit;
    if n > 0 {
      var s := SetBits(x, n - 1);
      assert SetBits(x, n) == if Bit(x, n - 1) then s + {n - 1} else s;
      OneBitsCounts(x, n - 1);
      TopOneBit(x, n - 1);
    }
  }

  lemma {:induction false} TopOneBit(x: nat, n: nat)
    ensures OneBits(x, n + 1) == OneBits(x, n) + if Bit(x, n) then 1 else 0
  {
    if n > 0 { TopOneBit(x / 2, n - 1); }
  }

  lemma Int64Exact(x: int)
    requires -0x8000_0000_0000_0000 <= x < 0x8000_0000_0000_0000
    ensures ToInt64(x) == x && ToInt64(ToUint64(x)) == x
    ensures ToUint64(x) == if x < 0 then x + 0x1_0000_0000_0000_0000 else x
  {}

  lemma Uint64Exact(x: int)
    requires 0 <= x < 0x1_0000_0000_0000_0000
    ensures ToUint64(x) == x
  {}

  // ----- Products

  /** A product of two signed operands fits 64 bits. */
  lemma SignedProductBound(x: int, y: int, width: FEBitWidth)
    requires FitsSigned(x, width) && FitsSigned(y, width)
    ensures -0x4000_0000_0000_0000 <= x * y <= 0x4000_0000_0000_0000
  {
    var a: int, b: int := Abs(x), Abs(y);
    assert a <= 0x8000_0000 && b <= 0x8000_0000;
    ProductBound(a, b, 0x8000_0000);
    Signs(x, y);
    assert x * y == a * b || x * y == -(a * b);
  }

  lemma UnsignedProductBound(x: int, y: int, width: FEBitWidth)
    requires FitsUnsigned(x, width) && FitsUnsigned(y, width)
    ensures 0 <= x * y < Modulus(width) * Modulus(width) <= 0x1_0000_0000_0000_0000
  {
    ProductBound(x, y, Modulus(width) - 1);
    var m := Modulus(width);
    assert (m - 1) * (m - 1) == m * m - 2 * m + 1;
    ProductBound(m, m, 0x1_0000_0000);
  }

  lemma ProductBound(a: nat, b: nat, m: nat)
    requires a <= m && b <= m
    ensures 0 <= a * b <= m * m
  {
    assert a * b <= a * m <= m * m;
  }

  function Abs(x: int): nat { if x < 0 then -x else x }

  /** A value equals its truncation to a signed operand exactly when it fits one. */
  lemma TruncationExact(x: int, width: FEBitWidth)
    ensures ToSigned(x, width) == x <==> FitsSigned(x, width)
  {}

  /** Signed and unsigned multiplication agree in the bits of the operand width. */
  lemma ProductsAgree(arg1: u32, arg2: u32, width: FEBitWidth)
    ensures ToUnsigned(ToSigned(arg1, width) * ToSigned(arg2, width), width)
            == ToUnsigned(ToUnsigned(arg1, width) * ToUnsigned(arg2, width), width)
  {
    var m := Modulus(width);
    var x, y, s, t := ToUnsigned(arg1, width), ToUnsigned(arg2, width), ToSigned(arg1, width), ToSigned(arg2, width);
    var k, l := if s == x then 0 else 1, if t == y then 0 else 1;
    assert s == x - k * m && t == y - l * m;
    ProductShift(x, y, k, l, m);
    ModShift(x * y, -x * l - k * y + k * l * m, m);
  }

  lemma ProductShift(x: int, y: int, k: int, l: int, m: int)
    ensures (x - k * m) * (y - l * m) == x * y + (-x * l - k * y + k * l * m) * m
  {}

  lemma Signs(e: int, d: int)
    ensures (-e) * (-d) == e * d && (-e) * d == -(e * d) && e * (-d) == -(e * d)
  {}

  lemma Distribute(p: int, q: int, d: int)
    ensures (p - q) * d == p * d - q * d
  {}

  // ----- Division

  datatype Division = Fault | Division(quotient: int, remainder: int)

  /** The quotient of C, truncated toward zero. */
  function Quotient(n: int, d: int): int
    requires d != 0
  {
    if (n < 0) == (d < 0) then Abs(n) / Abs(d) else -(Abs(n) / Abs(d))
  }

  /** Signed division: `idiv32`. The one quotient 64 bits cannot hold is left to the caller. */
  function Idiv32(n: int, d: int, width: FEBitWidth): (r: Division)
    requires -0x8000_0000_0000_0000 <= n < 0x8000_0000_0000_0000
    requires -0x8000_0000_0000_0000 <= d < 0x8000_0000_0000_0000
    requires !(n == -0x8000_0000_0000_0000 && d == -1)
  {
    if d == 0 then Fault
    else
      var quotient := Quotient(n, d);
      if SignedOutOfRange(quotient, width) then Fault
      else Division(quotient, n - quotient * d)
  }

  predicate SignedOutOfRange(quotient: int, width: FEBitWidth) {
    match width
    case k8bit => quotient > 0x7f || quotient < -0x80
    case k16bit => quotient > 0x7fff || quotient < -0x8000
    case k32bit => quotient > 0x7fff_ffff || quotient < -0x8000_0000
  }

  /** Unsigned division: `div32`. */
  function Div32(n: u64, d: u64, width: FEBitWidth): (r: Division) {
    if d == 0 then Fault
    else
      var quotient := n / d;
      if UnsignedOutOfRange(quotient, width) then Fault
      else Division(quotient, n % d)
  }

  predicate UnsignedOutOfRange(quotient: int, width: FEBitWidth) {
    match width
    case k8bit => quotient > 0xff
    case k16bit => quotient > 0xffff
    case k32bit => quotient > 0xffff_ffff
  }

  /** What it means to divide truncating toward zero. */
  predicate Truncates(n: int, d: int, q: int, r: int) {
    n == q * d + r && Abs(r) < Abs(d) && (r == 0 || (r < 0) == (n < 0))
  }

  /** Signed division delivers the truncating quotient and remainder, which are unique,
      and faults exactly when the divisor is zero or that quotient does not fit. */
  lemma IdivLaw(n: int, d: int, width: FEBitWidth, q: int, r: int)
    requires -0x8000_0000_0000_0000 <= n < 0x8000_0000_0000_0000
    requires -0x8000_0000_0000_0000 <= d < 0x8000_0000_0000_0000
    requires !(n == -0x8000_0000_0000_0000 && d == -1)
    ensures Idiv32(n, d, width) == Division(q, r) <==> d != 0 && Truncates(n, d, q, r) && FitsSigned(q, width)
    ensures Idiv32(n, d, width) == Fault <==> d == 0 || !FitsSigned(Quotient(n, d), width)
  {
    if d != 0 {
      QuotientTruncates(n, d);
      if Truncates(n, d, q, r) {
        TruncationUnique(n, d, q, r, Quotient(n, d), n - Quotient(n, d) * d);
      }
    }
  }

  lemma QuotientTruncates(n: int, d: int)
    requires d != 0
    ensures Truncates(n, d, Quotient(n, d), n - Quotient(n, d) * d)
  {
    var a: int, b: int := Abs(n), Abs(d);
    var q, r := a / b, a % b;
    assert a == q * b + r;
    var product := q * b;
    assert Quotient(n, d) * d == if n < 0 then -product else product by { Signs(q, b); }
    assert n - Quotient(n, d) * d == if n < 0 then -r else r;
  }

  lemma TruncationUnique(n: int, d: int, q: int, r: int, q': int, r': int)
    requires d != 0 && Truncates(n, d, q, r) && Truncates(n, d, q', r')
    ensures q == q' && r == r'
  {
    var e := q' - q;
    Distribute(q', q, d);
    Signs(e, d);
    Multiple(if d > 0 then e else -e, Abs(d), r - r');
  }

  /** Unsigned division likewise. */
  lemma DivLaw(n: u64, d: u64, width: FEBitWidth, q: int, r: int)
    ensures Div32(n, d, width) == Division(q, r) <==>
              d != 0 && n == q * d + r && 0 <= r < d && FitsUnsigned(q, width)
    ensures Div32(n, d, width) == Fault <==> d == 0 || !FitsUnsigned(n / d, width)
  {
    if d != 0 {
      assert n == n / d * d + n % d;
      if n == q * d + r && 0 <= r < d { QuotientIs(n, d, q, r); }
    }
  }

  /** Dividing a product by one of its factors gives back the other, without fault. */
  lemma DivUndoesMul(arg1: u32, arg2: u32, width: FEBitWidth)
    ensures var x, y := ToUnsigned(arg1, width), ToUnsigned(arg2, width);
            0 <= x * y < 0x1_0000_0000_0000_0000
            && (y != 0 ==> Div32(x * y, y, width) == Division(x, 0))
  {
    var x, y := ToUnsigned(arg1, width), ToUnsigned(arg2, width);
    UnsignedProductBound(x, y, width);
    DivLaw(x * y, y, width, x, 0);
  }

  lemma IdivUndoesImul(arg1: u32, arg2: u32, width: FEBitWidth)
    ensures var x, y := ToSigned(arg1, width), ToSigned(arg2, width);
            -0x4000_0000_0000_0000 <= x * y <= 0x4000_0000_0000_0000
            && (y != 0 ==> Idiv32(x * y, y, width) == Division(x, 0))
  {
    var x, y := ToSigned(arg1, width), ToSigned(arg2, width);
    SignedProductBound(x, y, width);
    IdivLaw(x * y, y, width, x, 0);
  }
}
