/** Guest memory as a flat, little-endian byte map, and what loads see after stores. */
module FlatMemory {
  import opened Words

  ghost predicate Mapped(m: map<int, byte>, a: int, n: int) {
    forall x :: a <= x < a + n ==> x in m
  }

  /** `m` with `bytes` stored from `a` on. */
  ghost function Store(m: map<int, byte>, a: int, bytes: seq<byte>): map<int, byte> {
    map x | x in m :: if a <= x < a + |bytes| then bytes[x - a] else m[x]
  }

  /** The `n` bytes of `m` from `a` on. */
  ghost function Load(m: map<int, byte>, a: int, n: nat): (s: seq<byte>)
    requires Mapped(m, a, n)
    ensures |s| == n
  {
    seq(n, (i: nat) requires i < n => m[a + i])
  }

  /** The string at `a`: the bytes before the first zero. */
  ghost function StringAt(m: map<int, byte>, a: int): seq<byte>
    decreases 0x1_0000_0000 - a
  {
    if a !in m || m[a] == 0 || a >= 0x1_0000_0000 then [] else [m[a]] + StringAt(m, a + 1)
  }

  /** `m'` is `m` with bytes at the addresses from `lo` to `hi` added. */
  ghost predicate Extends(m: map<int, byte>, m': map<int, byte>, lo: int, hi: int) {
    && (forall a :: a in m ==> !(lo <= a < hi))
    && (forall a :: a in m' <==> a in m || lo <= a < hi)
    && (forall a :: a in m ==> m'[a] == m[a])
  }

  /** `m'` differs from `m` at most in the bytes from `lo` to `hi`. */
  ghost predicate SameOutside(m: map<int, byte>, m': map<int, byte>, lo: int, hi: int) {
    && m'.Keys == m.Keys
    && forall a :: a in m && !(lo <= a < hi) ==> m'[a] == m[a]
  }

  /** The bytes of `m` at the addresses from `lo` to `hi` are still there in `m'`. */
  ghost predicate KeptWithin(m: map<int, byte>, m': map<int, byte>, lo: int, hi: int) {
    forall a :: lo <= a < hi && a in m ==> a in m' && m'[a] == m[a]
  }

  lemma LoadKept(m: map<int, byte>, m': map<int, byte>, lo: int, hi: int, a: int, n: nat)
    requires KeptWithin(m, m', lo, hi) && lo <= a && a + n <= hi && Mapped(m, a, n)
    ensures Mapped(m', a, n) && Load(m', a, n) == Load(m, a, n)
  {}

  lemma ExtendsThenSame(m: map<int, byte>, m': map<int, byte>, m'': map<int, byte>, lo: int, hi: int)
    requires Extends(m, m', lo, hi) && SameOutside(m', m'', lo, hi)
    ensures Extends(m, m'', lo, hi)
  {
    assert forall a :: a in m'' <==> a in m'.Keys;
  }

  /** A value stored at any width is read back at that width. */
  lemma LoadOfStore(m: map<int, byte>, a: int, v: nat, n: nat)
    requires Mapped(m, a, n) && v < Pow2(8 * n)
    ensures LeValue(Load(Store(m, a, LeBytes(v, n)), a, n)) == v
  {
    assert Load(Store(m, a, LeBytes(v, n)), a, n) == LeBytes(v, n);
    LoadAfterStore(v, n);
  }

  /** A load of any width that overlaps a store in any way sees the stored bytes where
      they overlap and the old bytes elsewhere. */
  lemma LoadOverlapping(m: map<int, byte>, a: int, bytes: seq<byte>, b: int, n: nat)
    requires Mapped(m, b, n)
    ensures Mapped(Store(m, a, bytes), b, n)
    ensures forall i :: 0 <= i < n ==>
              Load(Store(m, a, bytes), b, n)[i] ==
              if a <= b + i < a + |bytes| then bytes[b + i - a] else Load(m, b, n)[i]
    ensures b + n <= a || a + |bytes| <= b ==> Load(Store(m, a, bytes), b, n) == Load(m, b, n)
  {}

  lemma StoredIsLoaded(m: map<int, byte>, a: int, bytes: seq<byte>)
    requires Mapped(m, a, |bytes|)
    ensures Mapped(Store(m, a, bytes), a, |bytes|) && Load(Store(m, a, bytes), a, |bytes|) == bytes
  {}

  /** Reading byte `k` of a stored 32-bit value gives bits `8k` to `8k + 7` of it. */
  lemma ByteOfWord(m: map<int, byte>, a: int, v: u32, k: nat)
    requires Mapped(m, a, 4) && k < 4
    ensures LeValue(Load(Store(m, a, LeBytes(v, 4)), a + k, 1)) == ShiftRight(v, 8 * k) % 0x100
  {
    ByteByShifting(v, 4, k);
    var s := Load(Store(m, a, LeBytes(v, 4)), a + k, 1);
    assert s == [LeBytes(v, 4)[k]];
    assert LeValue(s) == s[0] + 0x100 * LeValue([]);
  }

  /** Stores to ranges that do not meet commute. */
  lemma StoresCommute(m: map<int, byte>, a: int, s: seq<byte>, b: int, t: seq<byte>)
    requires a + |s| <= b || b + |t| <= a
    ensures Store(Store(m, a, s), b, t) == Store(Store(m, b, t), a, s)
  {}

  /** Two adjacent stores are one. */
  lemma StoreAdjacent(m: map<int, byte>, a: int, s: seq<byte>, t: seq<byte>)
    ensures Store(Store(m, a, s), a + |s|, t) == Store(m, a, s + t)
  {}

  /** A store just below a range adds its bytes to the front of it. */
  lemma LoadBelow(m: map<int, byte>, a: int, bytes: seq<byte>, n: nat)
    requires Mapped(m, a, |bytes| + n)
    ensures Load(Store(m, a, bytes), a, |bytes| + n) == bytes + Load(m, a + |bytes|, n)
  {}

  lemma LoadSplit(m: map<int, byte>, a: int, k: nat, n: nat)
    requires Mapped(m, a, k + n)
    ensures Load(m, a, k + n) == Load(m, a, k) + Load(m, a + k, n)
  {}

  /** A string without zeros stored with its terminator is the string read back. */
  lemma {:induction false} StringOfStore(m: map<int, byte>, a: int, t: seq<byte>)
    requires 0 <= a && a + |t| < 0x1_0000_0000 && Mapped(m, a, |t| + 1) && 0 !in t
    ensures StringAt(Store(m, a, t + [0]), a) == t
    decreases |t|
  {
    var m' := Store(m, a, t + [0]);
    if t != [] {
      assert m' == Store(Store(m, a, t[..1]), a + 1, t[1..] + [0]);
      StringOfStore(Store(m, a, t[..1]), a + 1, t[1..]);
      assert m'[a] == t[0] && t == [t[0]] + t[1..];
    }
  }

  lemma {:induction false} StringIs(m: map<int, byte>, a: int, n: nat)
    requires 0 <= a && a + n < 0x1_0000_0000 && Mapped(m, a, n + 1)
    requires m[a + n] == 0 && 0 !in Load(m, a, n)
    ensures StringAt(m, a) == Load(m, a, n)
    decreases n
  {
    if n > 0 {
      assert Load(m, a, n) == [m[a]] + Load(m, a + 1, n - 1);
      StringIs(m, a + 1, n - 1);
    }
  }
}
