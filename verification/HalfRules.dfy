/** Which pairs of filters open a bucket that nobody asked for, by the linearity of the hash. */
module HalfRules {
  import opened BitVectors
  import opened HashIndex
  import opened Toeplitz
  import opened HashTable
  import opened Balance
  import opened RuleInstall
  import opened FilterText
  import opened Frames
  import opened KnownHashes

  // ---------- Buckets and differences ----------

  /** The bits in which two endpoints differ. */
  function Difference(a: NetAddr, b: NetAddr): NetAddr {
    NetAddr(Xor(a.ip, b.ip), Xor(a.port, b.port))
  }

  lemma DifferenceKey(a: NetAddr, b: NetAddr)
    ensures Xor(a.ip + a.port, b.ip + b.port) == Difference(a, b).ip + Difference(a, b).port
  {
  }

  /** For every table size, two endpoints share a bucket if and only if their difference falls into
      bucket 0. */
  lemma SameBucketIffDifferenceIsZero(size: TableSize, a: NetAddr, b: NetAddr)
    ensures Bucket(size, a) == Bucket(size, b) <==> Bucket(size, Difference(a, b)) == 0
  {
    SameBucketByKeys(size, TOEPLITZ_KEY, a.ip + a.port, b.ip + b.port);
    DifferenceKey(a, b);
  }

  // ---------- Pairs of rules ----------

  /** The differences of two endpoints in the address alone and in the port alone. */
  function AddressPart(a: NetAddr, b: NetAddr): NetAddr {
    NetAddr(Xor(a.ip, b.ip), Zeros(16))
  }

  function PortPart(a: NetAddr, b: NetAddr): NetAddr {
    NetAddr(Zeros(32), Xor(a.port, b.port))
  }

  lemma HalfDifferences(a: NetAddr, b: NetAddr)
    ensures Difference(a, NetAddr(b.ip, a.port)) == AddressPart(a, b)
    ensures Difference(b, NetAddr(b.ip, a.port)) == PortPart(a, b)
  {
    assert Xor(b.port, a.port) == Xor(a.port, b.port);
    assert Xor(a.port, a.port) == Zeros(16) && Xor(b.ip, b.ip) == Zeros(32);
  }

  lemma PairHalvesRequestedIff(size: TableSize, a: NetAddr, b: NetAddr)
    ensures HalvesRequested(size, [a, b])
            <==> Bucket(size, AddressPart(a, b)) == 0 || Bucket(size, PortPart(a, b)) == 0
  {
    var rules := [a, b];
    var half := NetAddr(b.ip, a.port);
    assert HalfWritten(rules, 1) == half;
    HalfDifferences(a, b);
    SameBucketIffDifferenceIsZero(size, a, half);
    SameBucketIffDifferenceIsZero(size, b, half);
    assert Requested(size, rules, Bucket(size, half))
        <==> Bucket(size, rules[0]) == Bucket(size, half) || Bucket(size, rules[1]) == Bucket(size, half);
  }

  /** Some interleaving of the configuration opens a bucket that no rule asks for. */
  ghost predicate Harmful(size: TableSize, rules: seq<NetAddr>) {
    exists c: nat :: Reachable(size, rules, c) && !Requested(size, rules, c)
  }

  /** Configuring `a` and then `b` opens a third bucket in some interleaving unless the difference of
      their addresses or the difference of their ports falls into bucket 0. */
  lemma PairIsHarmfulIff(size: TableSize, a: NetAddr, b: NetAddr)
    ensures Harmful(size, [a, b]) <==> Bucket(size, AddressPart(a, b)) != 0 && Bucket(size, PortPart(a, b)) != 0
  {
    PairHalvesRequestedIff(size, a, b);
    OnlyRequestedIffHalvesRequested(size, [a, b]);
  }

  // ---------- Every filter has partners that open a third bucket ----------

  /** The endpoint with address bit `i` and port bit `j` flipped. */
  function Partner(a: NetAddr, i: nat, j: nat): NetAddr
    requires i < 32 && j < 16
  {
    NetAddr(a.ip[i := !a.ip[i]], a.port[j := !a.port[j]])
  }

  lemma PartnerParts(a: NetAddr, i: nat, j: nat)
    requires i < 32 && j < 16
    ensures AddressPart(a, Partner(a, i, j)).ip + AddressPart(a, Partner(a, i, j)).port == Zeros(48)[i := true]
    ensures PortPart(a, Partner(a, i, j)).ip + PortPart(a, Partner(a, i, j)).port == Zeros(48)[32 + j := true]
  {
  }

  lemma PartBuckets(a: NetAddr, i: nat, j: nat, key: StartKey)
    requires i < 32 && j < 16 && key == TOEPLITZ_KEY
    ensures Bucket(HASH_TABLE_SIZE, AddressPart(a, Partner(a, i, j))) == 0 <==> i == 5
    ensures Bucket(HASH_TABLE_SIZE, PortPart(a, Partner(a, i, j))) != 0
  {
    PartnerParts(a, i, j);
    SingleBitIndexIsZeroIff(key, i);
    SingleBitIndexIsZeroIff(key, 32 + j);
  }

  /** An endpoint and one that differs from it in one address bit and one port bit: configuring both
      can open a bucket that belongs to neither, unless the address bit is the one that never matters. */
  lemma PartnerIsHarmfulIff(a: NetAddr, i: nat, j: nat)
    requires i < 32 && j < 16
    ensures Harmful(HASH_TABLE_SIZE, [a, Partner(a, i, j)]) <==> i != 5
  {
    BuiltInKeyIsStartKey();
    PartBuckets(a, i, j, TOEPLITZ_KEY);
    PairIsHarmfulIff(HASH_TABLE_SIZE, a, Partner(a, i, j));
  }

  lemma ThirdBucketIsHarmful(size: TableSize, a: NetAddr, b: NetAddr, half: NetAddr)
    requires half == NetAddr(b.ip, a.port)
    requires Bucket(size, half) != Bucket(size, a) && Bucket(size, half) != Bucket(size, b)
    ensures Harmful(size, [a, b])
  {
    assert HalfWritten([a, b], 1) == half;
    HalfRequestedIsReachable(size, [a, b], 1);
  }

  /** The documented filter list can open a bucket that neither of its filters asks for. */
  lemma DocumentedExampleOpensThirdBucket()
    ensures Harmful(HASH_TABLE_SIZE, [Wire(Endpoint(192, 168, 2, 1, 8500)), Wire(Endpoint(192, 168, 2, 95, 8501))])
  {
    DocumentedSlots();
    ThirdBucketIsHarmful(HASH_TABLE_SIZE, Wire(FIRST_EXAMPLE), Wire(SECOND_EXAMPLE), Wire(HALF_EXAMPLE));
  }
}
