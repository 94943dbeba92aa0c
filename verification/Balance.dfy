/** With the built-in key and the default table size, the bucket map spreads the 2^48 endpoints
    evenly over the 32 buckets, and every bucket is shared. */
module Balance {
  import opened BitVectors
  import opened HashIndex
  import opened Toeplitz
  import opened HashTable

  // ---------- The low bits of the hash, for every key that begins like the built-in one ----------

  /** The low 16 bits of the built-in key, from 0x1417. */
  const LOW_KEY_BITS: seq<bool> := [
    true, true, true, false, true, false, false, false,
    false, false, true, false, true, false, false, false]

  type LowKey = key: HashKey | key[..16] == LOW_KEY_BITS witness LOW_KEY_BITS + Zeros(304)

  /** `k` with address bits 6 to 10 replaced by `x`. */
  function WithBlock(k: KeyBits, x: seq<bool>): KeyBits
    requires |x| == 5
  {
    k[..6] + x + k[11..]
  }

  /** What address bits 6 to 10 contribute to hash bit `j`. */
  function BlockParity(x: seq<bool>, j: nat): bool
    requires |x| == 5 && j < 5
  {
    if j == 0 then x[4] else if j == 1 then x[3] else x[4 - j] != x[6 - j]
  }

  /** What all other bits contribute. */
  function RestParity(key: HashKey, k: KeyBits, j: nat): bool
    requires j < 5
  {
    Parity(key, k, j, 0, 6) != Parity(key, k, j, 11, 48)
  }

  lemma BlockParityComputed(key: LowKey, k: KeyBits, x: seq<bool>, j: nat)
    requires |x| == 5 && j < 5
    ensures Parity(key, WithBlock(k, x), j, 6, 11) == BlockParity(x, j)
  {
    var w := WithBlock(k, x);
    assert forall i {:trigger key[i]} :: 0 <= i < 16 ==> key[i] == LOW_KEY_BITS[i] by {
      assert forall i {:trigger key[i]} :: 0 <= i < 16 ==> key[i] == key[..16][i];
    }
    assert w[6] == x[0] && w[7] == x[1] && w[8] == x[2] && w[9] == x[3] && w[10] == x[4];
    var p10 := Parity(key, w, j, 6, 10);
    var p8 := Parity(key, w, j, 6, 8);
    assert Parity(key, w, j, 6, 11) == (p10 != (x[4] && key[10 + j]));
    assert p10 == (Parity(key, w, j, 6, 9) != (x[3] && key[9 + j]));
    assert Parity(key, w, j, 6, 9) == (p8 != (x[2] && key[8 + j]));
    assert p8 == (Parity(key, w, j, 6, 7) != (x[1] && key[7 + j]));
    assert Parity(key, w, j, 6, 7) == (Parity(key, w, j, 6, 6) != (x[0] && key[6 + j]));
  }

  lemma BlockSplitsHash(key: LowKey, k: KeyBits, x: seq<bool>, j: nat)
    requires |x| == 5 && j < 5
    ensures Hash(key, WithBlock(k, x))[j] == (BlockParity(x, j) != RestParity(key, k, j))
  {
    var w := WithBlock(k, x);
    ParitySplits(key, w, j, 0, 6, 48);
    ParitySplits(key, w, j, 6, 11, 48);
    BlockParityComputed(key, k, x, j);
    ParityAgrees(key, key, w, k, j, 0, 6);
    ParityAgrees(key, key, w, k, j, 11, 48);
  }

  /** Back substitution: the block `x` for which `BlockParity(x, j) != r[j]` is `t[j]`. */
  function SolveBlock(r: seq<bool>, t: seq<bool>): (x: seq<bool>)
    requires |r| == |t| == 5
    ensures |x| == 5
  {
    var x2 := (t[2] != r[2]) != (t[0] != r[0]);
    [(t[4] != r[4]) != x2, (t[3] != r[3]) != (t[1] != r[1]), x2, t[1] != r[1], t[0] != r[0]]
  }

  lemma FiveBits(a: seq<bool>, b: seq<bool>)
    requires |a| == |b| == 5
    ensures a == b <==> a[0] == b[0] && a[1] == b[1] && a[2] == b[2] && a[3] == b[3] && a[4] == b[4]
  {
  }

  lemma BlockSystemHasOneSolution(x: seq<bool>, r: seq<bool>, h: seq<bool>, t: seq<bool>)
    requires |x| == |r| == |h| == |t| == 5
    requires forall j: nat :: j < 5 ==> h[j] == (BlockParity(x, j) != r[j])
    ensures h == t <==> x == SolveBlock(r, t)
  {
    FiveBits(h, t);
    FiveBits(x, SolveBlock(r, t));
  }

  /** The setting of bits 6 to 10 of `k` that produces the low hash bits `t`. */
  function Solve(key: HashKey, k: KeyBits, t: seq<bool>): (x: seq<bool>)
    requires |t| == 5
    ensures |x| == 5
  {
    SolveBlock(seq(5, j requires 0 <= j < 5 => RestParity(key, k, j)), t)
  }

  lemma BlockDecidesLowBits(key: LowKey, k: KeyBits, x: seq<bool>, t: seq<bool>)
    requires |x| == 5 && |t| == 5
    ensures Hash(key, WithBlock(k, x))[..5] == t <==> x == Solve(key, k, t)
  {
    var h := Hash(key, WithBlock(k, x))[..5];
    var r := seq(5, j requires 0 <= j < 5 => RestParity(key, k, j));
    forall j: nat | j < 5 ensures h[j] == (BlockParity(x, j) != r[j]) {
      BlockSplitsHash(key, k, x, j);
    }
    BlockSystemHasOneSolution(x, r, h, t);
  }

  lemma Bit5IsDead(key: LowKey, k: KeyBits)
    ensures Hash(key, k[5 := !k[5]])[..5] == Hash(key, k)[..5]
  {
    var k' := k[5 := !k[5]];
    forall j: nat | j < 5 ensures Hash(key, k')[j] == Hash(key, k)[j] {
      ParitySplits(key, k, j, 0, 6, 48);
      ParitySplits(key, k', j, 0, 6, 48);
      ParityAgrees(key, key, k', k, j, 6, 48);
      ParityAgrees(key, key, k', k, j, 0, 5);
      assert key[5 + j] == key[..16][5 + j] == LOW_KEY_BITS[5 + j];
    }
  }

  // ---------- The built-in key ----------

  function BitValue(b: bool): nat {
    if b then 1 else 0
  }

  lemma EightBits(b: seq<bool>)
    requires |b| == 8
    ensures ToNat(b) == BitValue(b[0]) + 2 * BitValue(b[1]) + 4 * BitValue(b[2]) + 8 * BitValue(b[3])
                        + 16 * BitValue(b[4]) + 32 * BitValue(b[5]) + 64 * BitValue(b[6]) + 128 * BitValue(b[7])
  {
    forall i | 0 <= i < 8 ensures ToNat(b[i..]) == BitValue(b[i]) + 2 * ToNat(b[i + 1..]) {
      assert b[i..][1..] == b[i + 1..];
    }
    assert b[0..] == b && b[8..] == [];
  }

  lemma LowBits(x: nat, u: nat, y: nat, w: nat)
    requires x < Pow2(u)
    ensures FromNat(x + Pow2(u) * y, u + w)[..u] == FromNat(x, u)
  {
    FromNatAppend(x, u, y, w);
  }

  lemma LowBytes(x: nat, lo: seq<bool>, y: nat, hi: seq<bool>)
    requires x < 0x100 && FromNat(x, 8) == lo && FromNat(y, 8) == hi
    ensures FromNat(x + 0x100 * y, 16) == lo + hi
  {
    assert Pow2(8) == 0x100 by {
      WordPowers();
    }
    Join(x, 8, y, 8, lo, hi);
  }

  lemma LowHalf(v: nat, z: nat)
    requires v < 0x1_0000
    ensures FromNat(v + 0x1_0000 * z, 32)[..16] == FromNat(v, 16)
  {
    assert Pow2(16) == 0x1_0000 by {
      WordPowers();
    }
    LowBits(v, 16, z, 16);
  }

  lemma LowHalfOfWord(x: nat, lo: seq<bool>, y: nat, hi: seq<bool>, z: nat, v: nat)
    requires x < 0x100 && y < 0x100 && FromNat(x, 8) == lo && FromNat(y, 8) == hi && v == x + 0x100 * y
    ensures FromNat(v + 0x1_0000 * z, 32)[..16] == lo + hi
  {
    LowHalf(v, z);
    LowBytes(x, lo, y, hi);
  }

  lemma FirstWord(words: seq<nat>)
    requires words != []
    ensures BitsOfWords(words)[..32] == FromNat(words[0], 32)
  {
    assert forall i :: 0 <= i < 32 ==> i / 32 == 0 && i % 32 == i;
  }

  lemma LongerPrefix(b: seq<bool>)
    requires |b| >= 32
    ensures b[..32][..16] == b[..16]
  {
  }

  lemma KeyStartsWith(words: seq<nat>, x: nat, lo: seq<bool>, y: nat, hi: seq<bool>, z: nat, v: nat)
    requires words != [] && words[0] == v + 0x1_0000 * z && v == x + 0x100 * y
    requires x < 0x100 && y < 0x100 && FromNat(x, 8) == lo && FromNat(y, 8) == hi
    ensures BitsOfWords(words)[..16] == lo + hi
  {
    FirstWord(words);
    LongerPrefix(BitsOfWords(words));
    LowHalfOfWord(x, lo, y, hi, z, v);
  }

  lemma BuiltInKeyIsLowKey()
    ensures TOEPLITZ_KEY[..16] == LOW_KEY_BITS
  {
    var lo, hi := LOW_KEY_BITS[..8], LOW_KEY_BITS[8..];
    EightBits(lo);
    EightBits(hi);
    FromToNat(lo);
    FromToNat(hi);
    KeyStartsWith(KEY_WORDS, ToNat(lo), lo, ToNat(hi), hi, 0xD6E3, 0x1417);
  }

  /** The bucket of 48 key bits in a table of the default size. */
  function Slot(k: KeyBits): nat {
    Index(HASH_TABLE_SIZE, Hash(TOEPLITZ_KEY, k))
  }

  lemma DefaultHashBits()
    ensures HashBits(HASH_TABLE_SIZE) == 5 && HashMask(HASH_TABLE_SIZE) == 31
  {
    var n := HashBits(HASH_TABLE_SIZE);
    MaskIsLargestPower(HASH_TABLE_SIZE);
    assert Pow2(5) == 32;
    if n < 5 {
      PowerMonotone(n, 4);
    } else {
      PowerMonotone(5, n);
    }
  }

  /** The default table has 32 slots, and some hash selects each of them. */
  lemma DefaultTableIsFull(slot: nat)
    ensures HASH_TABLE_SIZE == 32
    ensures Addressable(HASH_TABLE_SIZE, slot) <==> slot < 32
  {
    DefaultHashBits();
    AddressableSlots(HASH_TABLE_SIZE, slot);
  }

  lemma SlotIsLow5(key: HashKey, k: KeyBits)
    ensures Index(HASH_TABLE_SIZE, Hash(key, k)) == ToNat(Hash(key, k)[..5])
  {
    DefaultHashBits();
    IndexIsLowBits(HASH_TABLE_SIZE, Hash(key, k));
  }

  lemma BlockReachesIndexOnce(key: LowKey, k: KeyBits, x: seq<bool>, b: nat)
    requires |x| == 5 && b < 32
    ensures Index(HASH_TABLE_SIZE, Hash(key, WithBlock(k, x))) == b <==> x == Solve(key, k, FromNat(b, 5))
  {
    var h := Hash(key, WithBlock(k, x))[..5];
    SlotIsLow5(key, WithBlock(k, x));
    BlockDecidesLowBits(key, k, x, FromNat(b, 5));
    FromToNat(h);
    assert Pow2(5) == 32;
    ToFromNat(b, 5);
  }

  /** With everything else fixed, each bucket is reached by exactly one of the 32 settings of
      address bits 6 to 10. */
  lemma BlockReachesEveryBucketOnce(k: KeyBits, b: nat)
    requires b < 32
    ensures exists x: seq<bool> :: |x| == 5 && Slot(WithBlock(k, x)) == b
    ensures forall x, y: seq<bool> :: |x| == |y| == 5 && Slot(WithBlock(k, x)) == Slot(WithBlock(k, y)) == b ==> x == y
  {
    BuiltInKeyIsLowKey();
    var key: LowKey := TOEPLITZ_KEY;
    var s := Solve(key, k, FromNat(b, 5));
    forall x: seq<bool> | |x| == 5 ensures Slot(WithBlock(k, x)) == b <==> x == s {
      BlockReachesIndexOnce(key, k, x, b);
    }
    assert Slot(WithBlock(k, s)) == b;
  }

  /** Address bit 5 never reaches the bucket. */
  lemma FlippingBit5KeepsBucket(k: KeyBits)
    ensures Slot(k[5 := !k[5]]) == Slot(k)
  {
    BuiltInKeyIsLowKey();
    Bit5IsDead(TOEPLITZ_KEY, k);
    SlotIsLow5(TOEPLITZ_KEY, k);
    SlotIsLow5(TOEPLITZ_KEY, k[5 := !k[5]]);
  }

  /** The endpoint that differs in address bit 5 only. */
  function Shadow(a: NetAddr): NetAddr {
    NetAddr(a.ip[5 := !a.ip[5]], a.port)
  }

  lemma ShadowDiffers(a: NetAddr)
    ensures Shadow(a) != a
  {
    assert Shadow(a).ip[5] != a.ip[5];
  }

  lemma ShadowKey(ip: U32, port: U16)
    ensures ip[5 := !ip[5]] + port == (ip + port)[5 := !(ip + port)[5]]
  {
  }

  lemma SameSlotSameBucket(a: NetAddr, b: NetAddr, k: KeyBits, l: KeyBits)
    requires a.ip + a.port == k && b.ip + b.port == l && Slot(k) == Slot(l)
    ensures Bucket(HASH_TABLE_SIZE, a) == Bucket(HASH_TABLE_SIZE, b)
  {
  }

  /** No endpoint has a bucket to itself. */
  lemma EveryEndpointIsShadowed(a: NetAddr)
    ensures Shadow(a) != a && Bucket(HASH_TABLE_SIZE, Shadow(a)) == Bucket(HASH_TABLE_SIZE, a)
  {
    ShadowDiffers(a);
    ShadowKey(a.ip, a.port);
    FlippingBit5KeepsBucket(a.ip + a.port);
    SameSlotSameBucket(Shadow(a), a, Shadow(a).ip + a.port, a.ip + a.port);
  }

  // ---------- Counting ----------

  function Prefixed(t: set<seq<bool>>, bit: bool): set<seq<bool>> {
    set c | c in t :: [bit] + c
  }

  function AllBits(n: nat): set<seq<bool>> {
    if n == 0 then {[]} else Prefixed(AllBits(n - 1), false) + Prefixed(AllBits(n - 1), true)
  }

  lemma PrefixedMembers(t: set<seq<bool>>, bit: bool, b: seq<bool>)
    ensures b in Prefixed(t, bit) <==> b != [] && b[0] == bit && b[1..] in t
  {
    if b != [] && b[0] == bit {
      assert b == [bit] + b[1..];
    }
    if c :| c in t && b == [bit] + c {
      assert b[1..] == c;
    }
  }

  lemma {:induction false} AllBitsMembers(n: nat, b: seq<bool>)
    ensures b in AllBits(n) <==> |b| == n
  {
    if n > 0 {
      PrefixedMembers(AllBits(n - 1), false, b);
      PrefixedMembers(AllBits(n - 1), true, b);
      if b != [] {
        AllBitsMembers(n - 1, b[1..]);
      }
    }
  }

  ghost predicate Bijection<A(!new), B(!new)>(s: set<A>, t: set<B>, f: A -> B) {
    && (forall x, y :: x in s && y in s && f(x) == f(y) ==> x == y)
    && (forall x :: x in s ==> f(x) in t)
    && (forall y :: y in t ==> exists x :: x in s && f(x) == y)
  }

  lemma {:induction false} BijectionKeepsSize<A(!new), B(!new)>(s: set<A>, t: set<B>, f: A -> B)
    requires Bijection(s, t, f)
    ensures |s| == |t|
  {
    if s != {} {
      var x :| x in s;
      BijectionKeepsSize(s - {x}, t - {f(x)}, f);
    } else {
      assert forall y :: y !in t;
    }
  }

  lemma PrefixedSize(t: set<seq<bool>>, bit: bool)
    ensures |Prefixed(t, bit)| == |t|
  {
    var f := (c: seq<bool>) => [bit] + c;
    forall x, y | f(x) == f(y) ensures x == y {
      assert f(x)[1..] == x && f(y)[1..] == y;
    }
    BijectionKeepsSize(t, Prefixed(t, bit), f);
  }

  lemma {:induction false} AllBitsSize(n: nat)
    ensures |AllBits(n)| == Pow2(n)
  {
    if n > 0 {
      AllBitsSize(n - 1);
      PrefixedSize(AllBits(n - 1), false);
      PrefixedSize(AllBits(n - 1), true);
      var s0, s1 := Prefixed(AllBits(n - 1), false), Prefixed(AllBits(n - 1), true);
      assert forall b :: b in s0 ==> !b[0];
      assert forall b :: b in s1 ==> b[0];
      assert s0 !! s1;
      assert |s0 + s1| == |s0| + |s1|;
    }
  }

  /** The 48 bits that agree with `rest` outside address bits 6 to 10 and fall into bucket `b`. */
  function Completion(key: HashKey, rest: seq<bool>, b: nat): (k: seq<bool>)
    ensures |k| == 48
  {
    if |rest| != 43 then Zeros(48)
    else
      var k := rest[..6] + Zeros(5) + rest[6..];
      WithBlock(k, Solve(key, k, FromNat(b, 5)))
  }

  lemma CompletionKeepsRest(key: HashKey, rest: seq<bool>, b: nat)
    requires |rest| == 43
    ensures RestOf(Completion(key, rest, b)) == rest
  {
  }

  /** The bits of a key other than address bits 6 to 10. */
  function RestOf(k: KeyBits): (rest: seq<bool>)
    ensures |rest| == 43
  {
    k[..6] + k[11..]
  }

  lemma CompletionIsUnique(key: LowKey, k: KeyBits, b: nat)
    requires b < 32
    ensures Index(HASH_TABLE_SIZE, Hash(key, k)) == b <==> k == Completion(key, RestOf(k), b)
  {
    var rest := RestOf(k);
    var z: KeyBits := rest[..6] + Zeros(5) + rest[6..];
    assert WithBlock(z, k[6..11]) == k;
    BlockReachesIndexOnce(key, z, k[6..11], b);
    var s := Solve(key, z, FromNat(b, 5));
    assert WithBlock(z, s)[6..11] == s;
  }

  /** The members of `keys` that share bucket `b`. */
  function InBucket(key: HashKey, keys: set<seq<bool>>, b: nat): set<seq<bool>> {
    set k | k in keys && |k| == 48 && Index(HASH_TABLE_SIZE, Hash(key, k)) == b
  }

  lemma CompletionInjective(key: HashKey, b: nat, x: seq<bool>, y: seq<bool>)
    requires |x| == |y| == 43 && Completion(key, x, b) == Completion(key, y, b)
    ensures x == y
  {
    CompletionKeepsRest(key, x, b);
    CompletionKeepsRest(key, y, b);
  }

  lemma CompletionHitsBucket(key: LowKey, b: nat, rest: seq<bool>)
    requires b < 32 && |rest| == 43
    ensures Index(HASH_TABLE_SIZE, Hash(key, Completion(key, rest, b))) == b
  {
    CompletionKeepsRest(key, rest, b);
    CompletionIsUnique(key, Completion(key, rest, b), b);
  }

  lemma CompletionIsBijection(key: LowKey, b: nat, rests: set<seq<bool>>, keys: set<seq<bool>>)
    requires b < 32
    requires forall r {:trigger r in rests} :: r in rests <==> |r| == 43
    requires forall k {:trigger k in keys} :: k in keys <==> |k| == 48
    ensures |InBucket(key, keys, b)| == |rests|
  {
    var f := (r: seq<bool>) => Completion(key, r, b);
    var t := InBucket(key, keys, b);
    forall x, y | x in rests && y in rests && f(x) == f(y) ensures x == y {
      CompletionInjective(key, b, x, y);
    }
    forall r | r in rests ensures f(r) in t {
      CompletionHitsBucket(key, b, r);
      assert f(r) in keys;
    }
    forall k | k in t ensures exists r :: r in rests && f(r) == k {
      assert f(RestOf(k)) == k by {
        CompletionIsUnique(key, k, b);
      }
      assert RestOf(k) in rests;
    }
    BijectionKeepsSize(rests, t, f);
  }

  /** Perfect balance: of the 2^48 endpoints, each of the 32 buckets holds exactly 2^43. */
  lemma EveryBucketHoldsItsShare(b: nat, n: nat)
    requires b < 32 && n == 48
    ensures |InBucket(TOEPLITZ_KEY, AllBits(n), b)| == Pow2(n - 5)
    ensures |AllBits(n)| == Pow2(n)
  {
    BuiltInKeyIsLowKey();
    forall r {:trigger r in AllBits(n - 5)} ensures r in AllBits(n - 5) <==> |r| == n - 5 {
      AllBitsMembers(n - 5, r);
    }
    forall k {:trigger k in AllBits(n)} ensures k in AllBits(n) <==> |k| == n {
      AllBitsMembers(n, k);
    }
    CompletionIsBijection(TOEPLITZ_KEY, b, AllBits(n - 5), AllBits(n));
    AllBitsSize(n - 5);
    AllBitsSize(n);
  }

  // ---------- Pigeonhole ----------

  function Below(n: nat): (s: set<nat>)
    ensures |s| == n && forall i: nat :: i in s <==> i < n
  {
    if n == 0 then {} else Below(n - 1) + {n - 1}
  }

  lemma SubsetSize<A>(s: set<A>, t: set<A>)
    requires s <= t
    ensures |s| <= |t|
  {
    assert t == s + (t - s);
  }

  /** More endpoints than HASH_MASK + 1 always include two with the same bucket: the documented
      capacity of 32 filters is a bound that no choice of filters can exceed. */
  lemma MoreAddressesThanSlotsCollide(size: TableSize, addrs: set<NetAddr>)
    requires |addrs| > HashMask(size) + 1
    ensures exists a, b :: a in addrs && b in addrs && a != b && Bucket(size, a) == Bucket(size, b)
  {
    if forall a, b :: a in addrs && b in addrs && Bucket(size, a) == Bucket(size, b) ==> a == b {
      var f := (a: NetAddr) => Bucket(size, a);
      var image := set a | a in addrs :: Bucket(size, a);
      BijectionKeepsSize(addrs, image, f);
      forall i | i in image ensures i in Below(HashMask(size) + 1) {
        var a :| a in addrs && i == Bucket(size, a);
        IndexIsLowBits(size, Hash(TOEPLITZ_KEY, a.ip + a.port));
      }
      SubsetSize(image, Below(HashMask(size) + 1));
    }
  }
}
