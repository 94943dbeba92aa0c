/** How a 32-bit hash becomes a slot of a table with HASH_TABLE_SIZE entries, for every size. */
module HashIndex {
  import opened BitVectors

  /** A C `int` used as a table size. */
  type TableSize = n: nat | 1 <= n < 0x8000_0000 witness 1

  const HASH_TABLE_SIZE: TableSize := 32

  /** The count-leading-zeros builtin on 32-bit values: shift left until the top bit is set. */
  function Clz(x: nat): nat
    requires 0 < x < 0x1_0000_0000
    decreases 0x1_0000_0000 - x
  {
    if x >= 0x8000_0000 then 0 else 1 + Clz(2 * x)
  }

  lemma {:induction false} ClzFindsTopBit(x: nat)
    requires 0 < x < 0x1_0000_0000
    ensures Clz(x) <= 31 && Pow2(31 - Clz(x)) <= x < Pow2(32 - Clz(x))
    decreases 0x1_0000_0000 - x
  {
    if x < 0x8000_0000 {
      ClzFindsTopBit(2 * x);
      var c := Clz(2 * x);
      assert Pow2(0) == 1 && Pow2(1) == 2;
      assert Pow2(32 - c) == 2 * Pow2(31 - c);
      assert Pow2(31 - c) == 2 * Pow2(30 - c);
    } else {
      WordPowers();
    }
  }

  function HashBits(size: TableSize): (n: nat)
    ensures n <= 31
  {
    ClzFindsTopBit(size);
    4 * 8 - 1 - Clz(size)
  }

  function HashMask(size: TableSize): nat {
    Pow2(HashBits(size)) - 1
  }

  /** HASH_MASK + 1 is the largest power of two that does not exceed the table size. */
  lemma MaskIsLargestPower(size: TableSize)
    ensures HashMask(size) + 1 == Pow2(HashBits(size)) <= size < 2 * Pow2(HashBits(size))
    ensures forall n: nat :: Pow2(n) <= size ==> Pow2(n) <= HashMask(size) + 1
  {
    var n := HashBits(size);
    ClzFindsTopBit(size);
    forall m: nat | Pow2(m) <= size
      ensures Pow2(m) <= Pow2(n)
    {
      if m > n {
        PowerMonotone(n + 1, m);
      } else {
        PowerMonotone(m, n);
      }
    }
  }

  /** `int index = hash & HASH_MASK`. */
  function Index(size: TableSize, hash: U32): nat {
    ToNat(And(hash, FromNat(HashMask(size), 32)))
  }

  lemma {:induction false} MaskBits(n: nat, w: nat)
    requires n <= w
    ensures FromNat(Pow2(n) - 1, w) == seq(n, _ => true) + Zeros(w - n)
  {
    if n > 0 {
      assert (Pow2(n) - 1) % 2 == 1 && (Pow2(n) - 1) / 2 == Pow2(n - 1) - 1;
      MaskBits(n - 1, w - 1);
    } else if w > 0 {
      MaskBits(0, w - 1);
    }
  }

  lemma {:induction false} ToNatPadded(b: seq<bool>, z: nat)
    ensures ToNat(b + Zeros(z)) == ToNat(b)
  {
    if b != [] {
      assert (b + Zeros(z))[1..] == b[1..] + Zeros(z);
      ToNatPadded(b[1..], z);
    } else if z > 0 {
      assert (b + Zeros(z))[1..] == b + Zeros(z - 1);
      ToNatPadded(b, z - 1);
    }
  }

  /** Masking keeps the low HASH_BITS bits, so every index is inside the table. */
  lemma IndexIsLowBits(size: TableSize, hash: U32)
    ensures Index(size, hash) == ToNat(hash[..HashBits(size)])
    ensures Index(size, hash) <= HashMask(size) < size
  {
    var n := HashBits(size);
    MaskBits(n, 32);
    assert And(hash, FromNat(HashMask(size), 32)) == hash[..n] + Zeros(32 - n);
    ToNatPadded(hash[..n], 32 - n);
    ToNatBound(hash[..n]);
    MaskIsLargestPower(size);
  }

  /** Some hash selects the slot. */
  ghost predicate Addressable(size: TableSize, slot: nat) {
    exists hash: U32 :: Index(size, hash) == slot
  }

  lemma AddressableSlots(size: TableSize, slot: nat)
    ensures Addressable(size, slot) <==> slot <= HashMask(size)
  {
    if slot <= HashMask(size) {
      var n := HashBits(size);
      var hash: U32 := FromNat(slot, n) + Zeros(32 - n);
      ToFromNat(slot, n);
      IndexIsLowBits(size, hash);
      assert hash[..n] == FromNat(slot, n);
      assert Index(size, hash) == slot;
    } else {
      forall hash: U32 ensures Index(size, hash) != slot {
        IndexIsLowBits(size, hash);
      }
    }
  }

  /** No slot is wasted exactly when the configured size is a power of two. */
  lemma EverySlotUsedIffPowerOfTwo(size: TableSize)
    ensures (forall slot: nat :: slot < size ==> Addressable(size, slot)) <==> (exists n: nat :: Pow2(n) == size)
  {
    MaskIsLargestPower(size);
    AddressableSlots(size, size - 1);
    forall slot: nat | slot <= HashMask(size) ensures Addressable(size, slot) {
      AddressableSlots(size, slot);
    }
    if n: nat :| Pow2(n) == size {
      assert size <= HashMask(size) + 1;
    } else {
      assert Pow2(HashBits(size)) != size;
    }
  }
}
