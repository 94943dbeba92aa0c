/** The tagless hash table: a key is never stored, only the value in its bucket. */
module HashTable {
  import opened BitVectors
  import opened HashIndex
  import opened Toeplitz

  /** A UDP endpoint, in the bit order in which the hardware sees it. */
  datatype NetAddr = NetAddr(ip: U32, port: U16)

  type Table = t: seq<nat> | 1 <= |t| < 0x8000_0000 witness [0]

  function Bucket(size: TableSize, a: NetAddr): (b: nat)
    ensures b < size
  {
    IndexIsLowBits(size, Hash(TOEPLITZ_KEY, a.ip + a.port));
    Index(size, Hash(TOEPLITZ_KEY, a.ip + a.port))
  }

  function EmptyTable(size: TableSize): Table {
    seq(size, _ => 0)
  }

  function Lookup(t: Table, a: NetAddr): nat {
    t[Bucket(|t|, a)]
  }

  function Insert(t: Table, a: NetAddr, value: nat): Table {
    t[Bucket(|t|, a) := value]
  }

  /** Two insertions commute exactly when they go to different buckets or carry the same value. */
  lemma InsertionsCommuteIff(t: Table, a: NetAddr, v: nat, b: NetAddr, w: nat)
    ensures Insert(Insert(t, a, v), b, w) == Insert(Insert(t, b, w), a, v)
            <==> (Bucket(|t|, a) != Bucket(|t|, b) || v == w)
  {
    var left, right := Insert(Insert(t, a, v), b, w), Insert(Insert(t, b, w), a, v);
    if Bucket(|t|, a) == Bucket(|t|, b) {
      assert left[Bucket(|t|, a)] == w && right[Bucket(|t|, a)] == v;
    } else {
      assert left == right;
    }
  }

  // ---------- A sequence of insertions ----------

  datatype Insertion = Insertion(addr: NetAddr, value: nat)

  function InsertAll(t: Table, ins: seq<Insertion>): (r: Table)
    ensures |r| == |t|
  {
    if ins == [] then t
    else
      var last := ins[|ins| - 1];
      Insert(InsertAll(t, ins[..|ins| - 1]), last.addr, last.value)
  }

  lemma InsertOneMore(t: Table, ins: seq<Insertion>, i: Insertion)
    ensures InsertAll(t, ins + [i]) == Insert(InsertAll(t, ins), i.addr, i.value)
  {
    assert (ins + [i])[..|ins|] == ins;
  }

  /** The map the table stands in for: the value last given to this very address, 0 by default. */
  function IdealLookup(ins: seq<Insertion>, a: NetAddr): nat {
    if ins == [] then 0
    else if ins[|ins| - 1].addr == a then ins[|ins| - 1].value
    else IdealLookup(ins[..|ins| - 1], a)
  }

  /** Insertion `i` is the latest one into bucket `b`. */
  ghost predicate LatestInto(size: TableSize, ins: seq<Insertion>, b: nat, i: nat) {
    && i < |ins|
    && Bucket(size, ins[i].addr) == b
    && forall j :: i < j < |ins| ==> Bucket(size, ins[j].addr) != b
  }

  /** The table is the history of its buckets: each cell holds the value of the latest insertion
      into it, whatever key that insertion was for, and 0 if there was none. */
  lemma {:induction false} TableIsHistory(size: TableSize, ins: seq<Insertion>, b: nat)
    requires b < size
    ensures (forall i :: 0 <= i < |ins| ==> Bucket(size, ins[i].addr) != b) ==> InsertAll(EmptyTable(size), ins)[b] == 0
    ensures forall i: nat :: LatestInto(size, ins, b, i) ==> InsertAll(EmptyTable(size), ins)[b] == ins[i].value
  {
    if ins != [] {
      var init, n := ins[..|ins| - 1], |ins| - 1;
      TableIsHistory(size, init, b);
      forall i: nat | LatestInto(size, ins, b, i) ensures InsertAll(EmptyTable(size), ins)[b] == ins[i].value {
        LatestStep(size, ins, b, i);
      }
    }
  }

  /** The latest insertion into a bucket is the last one of all, or the latest one before that. */
  lemma LatestStep(size: TableSize, ins: seq<Insertion>, b: nat, i: nat)
    requires b < size && LatestInto(size, ins, b, i)
    requires i < |ins| - 1 && LatestInto(size, ins[..|ins| - 1], b, i) ==>
      InsertAll(EmptyTable(size), ins[..|ins| - 1])[b] == ins[i].value
    ensures InsertAll(EmptyTable(size), ins)[b] == ins[i].value
  {
    var init, n := ins[..|ins| - 1], |ins| - 1;
    var before := InsertAll(EmptyTable(size), init);
    assert InsertAll(EmptyTable(size), ins) == before[Bucket(size, ins[n].addr) := ins[n].value];
    if i < n {
      assert Bucket(size, ins[n].addr) != b;
      assert LatestInto(size, init, b, i);
    }
  }

  ghost predicate BucketDistinct(size: TableSize, addrs: set<NetAddr>) {
    forall a, b :: a in addrs && b in addrs && Bucket(size, a) == Bucket(size, b) ==> a == b
  }

  ghost predicate InsertsOnly(ins: seq<Insertion>, addrs: set<NetAddr>) {
    forall i :: 0 <= i < |ins| ==> ins[i].addr in addrs
  }

  /** On every insertion sequence over `addrs` the table answers like the ideal map. */
  ghost predicate ActsAsMap(size: TableSize, addrs: set<NetAddr>) {
    forall ins: seq<Insertion>, a: NetAddr :: InsertsOnly(ins, addrs) && a in addrs
      ==> Lookup(InsertAll(EmptyTable(size), ins), a) == IdealLookup(ins, a)
  }

  lemma {:induction false} DistinctBucketsAgree(size: TableSize, addrs: set<NetAddr>, ins: seq<Insertion>, a: NetAddr)
    requires BucketDistinct(size, addrs) && InsertsOnly(ins, addrs) && a in addrs
    ensures Lookup(InsertAll(EmptyTable(size), ins), a) == IdealLookup(ins, a)
  {
    if ins != [] {
      DistinctBucketsAgree(size, addrs, ins[..|ins| - 1], a);
    }
  }

  lemma SingleInsertion(size: TableSize, a: NetAddr, b: NetAddr)
    requires Bucket(size, a) == Bucket(size, b)
    ensures Lookup(InsertAll(EmptyTable(size), [Insertion(b, 1)]), a) == 1
    ensures a != b ==> IdealLookup([Insertion(b, 1)], a) == 0
  {
    var ins := [Insertion(b, 1)];
    TableIsHistory(size, ins, Bucket(size, a));
    assert LatestInto(size, ins, Bucket(size, a), 0);
    assert IdealLookup(ins[..0], a) == 0;
  }

  lemma MapNeedsDistinctBuckets(size: TableSize, addrs: set<NetAddr>, a: NetAddr, b: NetAddr)
    requires ActsAsMap(size, addrs) && a in addrs && b in addrs && Bucket(size, a) == Bucket(size, b)
    ensures a == b
  {
    SingleInsertion(size, a, b);
    assert InsertsOnly([Insertion(b, 1)], addrs);
  }

  /** The table implements a map from addresses to actions on a set of addresses if and only if
      no two of them share a bucket. */
  lemma MapIffBucketsDistinct(size: TableSize, addrs: set<NetAddr>)
    ensures ActsAsMap(size, addrs) <==> BucketDistinct(size, addrs)
  {
    if BucketDistinct(size, addrs) {
      forall ins: seq<Insertion>, a: NetAddr | InsertsOnly(ins, addrs) && a in addrs
        ensures Lookup(InsertAll(EmptyTable(size), ins), a) == IdealLookup(ins, a)
      {
        DistinctBucketsAgree(size, addrs, ins, a);
      }
    }
    if ActsAsMap(size, addrs) {
      forall a, b | a in addrs && b in addrs && Bucket(size, a) == Bucket(size, b) ensures a == b {
        MapNeedsDistinctBuckets(size, addrs, a, b);
      }
    }
  }

  // ---------- The hardware object ----------

  class ToeplitzHash {
    const toeplitzKey: array<bool>
    const table: array<nat>

    ghost predicate Valid()
      reads toeplitzKey, table
    {
      toeplitzKey[..] == TOEPLITZ_KEY && 1 <= table.Length < 0x8000_0000
    }

    ghost function Cells(): Table
      requires Valid()
      reads toeplitzKey, table
    {
      table[..]
    }

    constructor (size: TableSize)
      ensures Valid() && fresh(toeplitzKey) && fresh(table)
      ensures Cells() == EmptyTable(size)
    {
      toeplitzKey := new bool[320];
      table := new nat[size](_ => 0);
      new;
      FillKey(KEY_WORDS);
      assert table[..] == EmptyTable(size);
    }

    /** The ten range assignments of the constructor. */
    method FillKey(words: seq<nat>)
      requires |words| == 10 && toeplitzKey.Length == 320
      modifies toeplitzKey
      ensures toeplitzKey[..] == BitsOfWords(words)
    {
      SetWord(0, 0, words);
      SetWord(32, 1, words);
      SetWord(64, 2, words);
      SetWord(96, 3, words);
      SetWord(128, 4, words);
      SetWord(160, 5, words);
      SetWord(192, 6, words);
      SetWord(224, 7, words);
      SetWord(256, 8, words);
      SetWord(288, 9, words);
      assert toeplitzKey[..320] == toeplitzKey[..];
    }

    /** The first `n` ranges of the key are filled. */
    ghost predicate Filled(n: nat, words: seq<nat>)
      reads toeplitzKey
    {
      && n <= 10 == |words| && toeplitzKey.Length == 320
      && toeplitzKey[..32 * n] == BitsOfWords(words)[..32 * n]
    }

    method SetWord(lo: nat, i: nat, words: seq<nat>)
      requires i < 10 && lo == 32 * i && Filled(i, words)
      modifies toeplitzKey
      ensures Filled(i + 1, words)
    {
      ghost var before := toeplitzKey[..];
      SetRange(toeplitzKey, lo, FromNat(words[i], 32));
      assert toeplitzKey[..lo + 32] == before[..lo] + FromNat(words[i], 32);
      assert BitsOfWords(words)[..lo + 32] == BitsOfWords(words)[..lo] + FromNat(words[i], 32);
    }

    method GetWindow(bit: bool, offset: nat) returns (w: U32)
      requires Valid() && offset + 31 < 320
      ensures w == Window(TOEPLITZ_KEY, bit, offset)
    {
      w := if bit then toeplitzKey[offset..offset + 32] else Zeros(32);
    }

    method ComputeHash(ip: U32, port: U16) returns (hash: U32)
      requires Valid()
      ensures hash == Hash(TOEPLITZ_KEY, ip + port)
    {
      ghost var k: KeyBits := ip + port;
      hash := Zeros(32);
      assert hash == PartialHash(TOEPLITZ_KEY, k, 0);
      for i := 0 to 32
        invariant hash == PartialHash(TOEPLITZ_KEY, k, i)
      {
        PartialHashStep(TOEPLITZ_KEY, k, i);
        var w := GetWindow(ip[i], i);
        hash := Xor(hash, w);
      }
      for i := 0 to 16
        invariant hash == PartialHash(TOEPLITZ_KEY, k, 32 + i)
      {
        PartialHashStep(TOEPLITZ_KEY, k, 32 + i);
        var w := GetWindow(port[i], i + 32);
        hash := Xor(hash, w);
      }
      assert hash == Hash(TOEPLITZ_KEY, k);
    }

    method LookupAddr(a: NetAddr) returns (value: nat)
      requires Valid()
      ensures value == Lookup(Cells(), a)
    {
      var hash := ComputeHash(a.ip, a.port);
      IndexIsLowBits(table.Length, hash);
      var index := Index(table.Length, hash);
      value := table[index];
    }

    method InsertAddr(a: NetAddr, value: nat)
      requires Valid()
      modifies table
      ensures Valid() && Cells() == Insert(old(Cells()), a, value)
    {
      var hash := ComputeHash(a.ip, a.port);
      IndexIsLowBits(table.Length, hash);
      var index := Index(table.Length, hash);
      table[index] := value;
    }
  }
}
