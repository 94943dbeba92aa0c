/** Known answers: what the built-in key makes of single bits and of the documented filters. */
module KnownHashes {
  import opened BitVectors
  import opened HashIndex
  import opened Toeplitz
  import opened HashTable
  import opened Balance
  import opened FilterText
  import opened Frames

  // ---------- Bits of numbers ----------

  lemma {:induction false} BitOfNat(n: nat, w: nat, j: nat, p: nat)
    requires j < w && p == Pow2(j)
    ensures FromNat(n, w)[j] <==> n / p % 2 == 1
  {
    if j > 0 {
      BitOfNat(n / 2, w - 1, j - 1, Pow2(j - 1));
      HalfThenRest(n, Pow2(j - 1));
    }
  }

  lemma HalfThenRest(n: nat, p: nat)
    requires p > 0
    ensures n / 2 / p == n / (2 * p)
  {
    var q := n / 2 / p;
    assert n / 2 == q * p + n / 2 % p;
    assert n == q * (2 * p) + (2 * (n / 2 % p) + n % 2);
    QuotientIs(n, 2 * p, q, 2 * (n / 2 % p) + n % 2);
  }

  lemma QuotientIs(n: int, d: int, q: int, r: int)
    requires n == q * d + r && 0 <= r < d
    ensures n / d == q
  {
    var k := n / d - q;
    assert k * d == n / d * d - q * d == r - n % d;
    assert k >= 1 ==> k * d >= d;
    assert k <= -1 ==> k * d <= -d;
  }

  lemma DoublePower(j: nat, p: nat)
    requires p == Pow2(j)
    ensures 2 * p == Pow2(j + 1)
  {
  }

  lemma ByteBit(x: byte, j: nat, p: nat)
    requires j < 8 && p == Pow2(j)
    ensures FromNat(x, 8)[j] <==> x / p % 2 == 1
  {
    BitOfNat(x, 8, j, p);
  }

  lemma BytePowers()
    ensures Pow2(0) == 1 && Pow2(1) == 2 && Pow2(2) == 4 && Pow2(3) == 8
    ensures Pow2(4) == 16 && Pow2(5) == 32 && Pow2(6) == 64 && Pow2(7) == 128
  {
  }

  lemma ByteBits(x: byte, b: seq<bool>)
    requires b == FromNat(x, 8)
    ensures (b[0] <==> x % 2 == 1) && (b[1] <==> x / 2 % 2 == 1) && (b[2] <==> x / 4 % 2 == 1)
    ensures (b[3] <==> x / 8 % 2 == 1) && (b[4] <==> x / 16 % 2 == 1) && (b[5] <==> x / 32 % 2 == 1)
    ensures (b[6] <==> x / 64 % 2 == 1) && (b[7] <==> x / 128 % 2 == 1)
  {
    BytePowers();
    ByteBit(x, 0, 1);
    ByteBit(x, 1, 2);
    ByteBit(x, 2, 4);
    ByteBit(x, 3, 8);
    ByteBit(x, 4, 16);
    ByteBit(x, 5, 32);
    ByteBit(x, 6, 64);
    ByteBit(x, 7, 128);
  }

  // ---------- The hashes of single bits, as numbers ----------

  /** The hash of a single bit is the window of the key at its place. */
  lemma HashOfSingleBitIsWindow(key: seq<bool>, i: nat)
    requires |key| >= 79 && i < 48
    ensures Hash(key, Zeros(48)[i := true]) == key[i..i + 32]
  {
    var h, w := Hash(key, Zeros(48)[i := true]), key[i..i + 32];
    forall j | 0 <= j < 32 ensures h[j] == w[j] {
      HashOfSingleBit(key, i, j);
    }
  }

  lemma WordBit(words: seq<nat>, w: nat, i: nat)
    requires w < |words| && i < 32
    ensures BitsOfWords(words)[32 * w + i] == FromNat(words[w], 32)[i]
  {
    assert (32 * w + i) / 32 == w && (32 * w + i) % 32 == i;
  }

  lemma SliceAt(b: seq<bool>, lo: nat, w: seq<bool>)
    requires |w| == 32 && lo + 32 <= |b| && forall j :: 0 <= j < 32 ==> b[lo + j] == w[j]
    ensures b[lo..lo + 32] == w
  {
  }

  lemma WordOfKey(words: seq<nat>, i: nat)
    requires i < |words|
    ensures BitsOfWords(words)[32 * i..32 * i + 32] == FromNat(words[i], 32)
  {
    forall j | 0 <= j < 32 ensures BitsOfWords(words)[32 * i + j] == FromNat(words[i], 32)[j] {
      WordBit(words, i, j);
    }
    SliceAt(BitsOfWords(words), 32 * i, FromNat(words[i], 32));
  }

  /** The 32-bit range `i` of a key, as a number. */
  function KeyWord(key: HashKey, i: nat): nat
    requires i < 10
  {
    ToNat(key[32 * i..32 * i + 32])
  }

  lemma KeyWordIs(words: seq<nat>, i: nat)
    requires |words| == 10 && i < 10 && words[i] < 0x1_0000_0000
    ensures KeyWord(BitsOfWords(words), i) == words[i]
  {
    WordOfKey(words, i);
    WordPowers();
    ToFromNat(words[i], 32);
  }

  lemma KeyWordsAre(words: seq<nat>, n: seq<nat>)
    requires |words| == |n| == 10 && words == n
    requires forall i :: 0 <= i < 10 ==> words[i] < 0x1_0000_0000
    ensures forall i: nat :: i < 10 ==> KeyWord(BitsOfWords(words), i) == n[i]
  {
    forall i: nat | i < 10 ensures KeyWord(BitsOfWords(words), i) == n[i] {
      KeyWordIs(words, i);
    }
  }

  /** The ten ranges of the key that the constructor assigns, the lowest first. */
  lemma BuiltInKeyWords(n: seq<nat>)
    requires n == [0xD6E31417, 0x376CC87E, 0x011BA7A6, 0xDC1B91BB, 0x7872E224,
                   0xBFD0404B, 0x260374B8, 0xD9270F6F, 0x18DC4386, 0x7C9C37DE]
    ensures forall i: nat :: i < 10 ==> KeyWord(TOEPLITZ_KEY, i) == n[i]
  {
    KeyWordsAre(KEY_WORDS, n);
  }

  lemma Powers15And17()
    ensures Pow2(15) == 0x8000 && Pow2(17) == 0x2_0000
  {
    WordPowers();
    DoublePower(15, Pow2(15));
    DoublePower(16, Pow2(16));
  }

  lemma LowPart(x: nat, y: nat, u: nat, w: nat, p: nat, n: nat)
    requires p == Pow2(u) && x < p && n == x + p * y
    ensures FromNat(n, u + w)[..u] == FromNat(x, u) && FromNat(n, u + w)[u..] == FromNat(y, w)
  {
    FromNatAppend(x, u, y, w);
  }

  /** A 32-bit word in two parts of 15 and 17 bits. */
  lemma SplitWord(v: nat, lo: nat, hi: nat)
    requires v == lo + 0x8000 * hi && lo < 0x8000
    ensures FromNat(v, 32)[..15] == FromNat(lo, 15) && FromNat(v, 32)[15..] == FromNat(hi, 17)
  {
    Powers15And17();
    LowPart(lo, hi, 15, 17, 0x8000, v);
  }

  lemma JoinWord(n: nat, hi: nat, rest: nat)
    requires hi < 0x2_0000 && n == hi + 0x2_0000 * rest
    ensures FromNat(n, 32) == FromNat(hi, 17) + FromNat(rest, 15)
  {
    Powers15And17();
    JoinParts(hi, 17, rest, 15, 0x2_0000, n);
  }

  lemma JoinParts(x: nat, u: nat, y: nat, w: nat, p: nat, n: nat)
    requires p == Pow2(u) && x < p && n == x + p * y
    ensures FromNat(n, u + w) == FromNat(x, u) + FromNat(y, w)
  {
    FromNatAppend(x, u, y, w);
  }

  lemma SliceOverWords(key: seq<bool>, i: nat, v: seq<bool>, w: seq<bool>)
    requires i + 64 <= |key| && key[i..i + 32] == v && key[i + 32..i + 64] == w
    ensures key[i + 15..i + 47] == v[15..] + w[..15]
  {
    forall j | 0 <= j < 32 ensures key[i + 15..i + 47][j] == (v[15..] + w[..15])[j] {
      if j < 17 {
        assert key[i..i + 32][15 + j] == v[15 + j];
      } else {
        assert key[i + 32..i + 64][j - 17] == w[j - 17];
      }
    }
  }

  /** The window that begins with the upper 17 bits of word 1 and ends in word 2. */
  lemma LastWindow(words: seq<nat>, n: nat, lo: nat, hi: nat, rest: nat, more: nat)
    requires |words| > 2 && words[1] == lo + 0x8000 * hi && words[2] == rest + 0x8000 * more
    requires lo < 0x8000 && rest < 0x8000 && hi < 0x2_0000 && n == hi + 0x2_0000 * rest
    ensures BitsOfWords(words)[47..79] == FromNat(n, 32)
  {
    WordOfKey(words, 1);
    WordOfKey(words, 2);
    SplitWord(words[1], lo, hi);
    SplitWord(words[2], rest, more);
    JoinWord(n, hi, rest);
    SliceOverWords(BitsOfWords(words), 32, FromNat(words[1], 32), FromNat(words[2], 32));
  }

  lemma SingleBitHash(key: HashKey, i: nat, n: nat)
    requires i < 48 && key[i..i + 32] == FromNat(n, 32) && n < 0x1_0000_0000
    ensures ToNat(Hash(key, Zeros(48)[i := true])) == n
  {
    HashOfSingleBitIsWindow(key, i);
    WordPowers();
    ToFromNat(n, 32);
  }

  lemma SingleBitHashes(words: seq<nat>, last: nat, lo: nat, hi: nat, rest: nat, more: nat)
    requires |words| == 10 && words[1] == lo + 0x8000 * hi && words[2] == rest + 0x8000 * more
    requires lo < 0x8000 && rest < 0x8000 && hi < 0x2_0000 && last == hi + 0x2_0000 * rest
    requires words[0] < 0x1_0000_0000
    ensures ToNat(Hash(BitsOfWords(words), Zeros(48)[0 := true])) == words[0]
    ensures ToNat(Hash(BitsOfWords(words), Zeros(48)[32 := true])) == words[1]
    ensures ToNat(Hash(BitsOfWords(words), Zeros(48)[47 := true])) == last
  {
    WordOfKey(words, 0);
    SingleBitHash(BitsOfWords(words), 0, words[0]);
    WordOfKey(words, 1);
    SingleBitHash(BitsOfWords(words), 32, words[1]);
    LastWindow(words, last, lo, hi, rest, more);
    SingleBitHash(BitsOfWords(words), 47, last);
  }

  /** The hashes of address bit 0 and of the first and the last port bit, as numbers. Between them
      they show all 79 key bits that the hash depends on. */
  lemma KnownSingleBitHashes()
    ensures ToNat(Hash(TOEPLITZ_KEY, Zeros(48)[0 := true])) == 0xD6E31417
    ensures ToNat(Hash(TOEPLITZ_KEY, Zeros(48)[32 := true])) == 0x376CC87E
    ensures ToNat(Hash(TOEPLITZ_KEY, Zeros(48)[47 := true])) == 0x4F4C6ED9
  {
    SingleBitHashes(KEY_WORDS, 0x4F4C6ED9, 0x487E, 0x6ED9, 0x27A6, 0x237);
  }

  // ---------- The beginning of the key, bit by bit ----------

  /** The set bits among the low 64 bits of the built-in key, one byte in each line. */
  predicate StartBit(i: int) {
    if i < 8 then i == 0 || i == 1 || i == 2 || i == 4
    else if i < 16 then i == 10 || i == 12
    else if i < 24 then i == 16 || i == 17 || i == 21 || i == 22 || i == 23
    else if i < 32 then i == 25 || i == 26 || i == 28 || i == 30 || i == 31
    else if i < 40 then i == 33 || i == 34 || i == 35 || i == 36 || i == 37 || i == 38
    else if i < 48 then i == 43 || i == 46 || i == 47
    else if i < 56 then i == 50 || i == 51 || i == 53 || i == 54
    else i == 56 || i == 57 || i == 58 || i == 60 || i == 61
  }

  ghost predicate StartsLike(key: HashKey) {
    forall i :: 0 <= i < 64 ==> (key[i] <==> StartBit(i))
  }

  type StartKey = key: HashKey | StartsLike(key) ghost witness seq(320, i => StartBit(i))

  lemma NumberFromBytes(n: nat, a: byte, b: byte, c: byte, d: byte)
    requires n == a + 0x100 * b + 0x1_0000 * c + 0x100_0000 * d
    ensures FromNat(n, 32) == BytesToBits([a, b, c, d])
  {
    assert n == LittleEndian([a, b, c, d]) by {
      QuadValue(a, b, c, d);
    }
    LittleEndianBits([a, b, c, d]);
  }

  /** Byte `p` of a key that begins like `f`. */
  ghost predicate IsByteOf(b: seq<bool>, p: nat, f: int -> bool) {
    |b| == 8 && forall j :: 0 <= j < 8 ==> b[j] == f(8 * p + j)
  }

  lemma EightBitsOf(b: seq<bool>, p: nat, f: int -> bool)
    requires |b| == 8
    requires b[0] == f(8 * p) && b[1] == f(8 * p + 1) && b[2] == f(8 * p + 2) && b[3] == f(8 * p + 3)
    requires b[4] == f(8 * p + 4) && b[5] == f(8 * p + 5) && b[6] == f(8 * p + 6) && b[7] == f(8 * p + 7)
    ensures IsByteOf(b, p, f)
  {
  }

  lemma NumberedByte(x: byte, p: nat, f: int -> bool)
    requires f(8 * p) <==> x % 2 == 1
    requires (f(8 * p + 1) <==> x / 2 % 2 == 1) && (f(8 * p + 2) <==> x / 4 % 2 == 1)
    requires (f(8 * p + 3) <==> x / 8 % 2 == 1) && (f(8 * p + 4) <==> x / 16 % 2 == 1)
    requires (f(8 * p + 5) <==> x / 32 % 2 == 1) && (f(8 * p + 6) <==> x / 64 % 2 == 1)
    requires f(8 * p + 7) <==> x / 128 % 2 == 1
    ensures IsByteOf(FromNat(x, 8), p, f)
  {
    ByteBits(x, FromNat(x, 8));
    EightBitsOf(FromNat(x, 8), p, f);
  }

  lemma BytesOf(bytes: seq<byte>, p: nat, f: int -> bool, i: nat)
    requires forall m :: 0 <= m < |bytes| ==> IsByteOf(FromNat(bytes[m], 8), p + m, f)
    requires i < 8 * |bytes|
    ensures BytesToBits(bytes)[i] == f(8 * p + i)
  {
    var m, j := i / 8, i % 8;
    assert IsByteOf(FromNat(bytes[m], 8), p + m, f);
    assert 8 * (p + m) + j == 8 * p + i;
  }

  lemma FourBytesOf(bytes: seq<byte>, p: nat, f: int -> bool, i: nat)
    requires |bytes| == 4 && i < 32
    requires IsByteOf(FromNat(bytes[0], 8), p, f) && IsByteOf(FromNat(bytes[1], 8), p + 1, f)
    requires IsByteOf(FromNat(bytes[2], 8), p + 2, f) && IsByteOf(FromNat(bytes[3], 8), p + 3, f)
    ensures BytesToBits(bytes)[i] == f(8 * p + i)
  {
    forall m | 0 <= m < |bytes| ensures IsByteOf(FromNat(bytes[m], 8), p + m, f) {
      assert m == 0 || m == 1 || m == 2 || m == 3;
    }
    BytesOf(bytes, p, f, i);
  }

  lemma WordBitFromBytes(words: seq<nat>, w: nat, a: byte, b: byte, c: byte, d: byte, i: nat)
    requires w < |words| && words[w] == a + 0x100 * b + 0x1_0000 * c + 0x100_0000 * d && i < 32
    ensures BitsOfWords(words)[32 * w + i] == BytesToBits([a, b, c, d])[i]
  {
    WordBit(words, w, i);
    NumberFromBytes(words[w], a, b, c, d);
  }

  lemma FirstWordStarts(bytes: seq<byte>, i: nat)
    requires bytes == [0x17, 0x14, 0xE3, 0xD6] && i < 32
    ensures BytesToBits(bytes)[i] == StartBit(i)
  {
    NumberedByte(bytes[0], 0, StartBit);
    NumberedByte(bytes[1], 1, StartBit);
    NumberedByte(bytes[2], 2, StartBit);
    NumberedByte(bytes[3], 3, StartBit);
    FourBytesOf(bytes, 0, StartBit, i);
  }

  lemma SecondWordStarts(bytes: seq<byte>, i: nat)
    requires bytes == [0x7E, 0xC8, 0x6C, 0x37] && i < 32
    ensures BytesToBits(bytes)[i] == StartBit(32 + i)
  {
    NumberedByte(bytes[0], 4, StartBit);
    NumberedByte(bytes[1], 5, StartBit);
    NumberedByte(bytes[2], 6, StartBit);
    NumberedByte(bytes[3], 7, StartBit);
    FourBytesOf(bytes, 4, StartBit, i);
  }

  lemma BuiltInKeyIsStartKey()
    ensures StartsLike(TOEPLITZ_KEY)
  {
    forall i | 0 <= i < 64 ensures TOEPLITZ_KEY[i] <==> StartBit(i) {
      if i < 32 {
        WordBitFromBytes(KEY_WORDS, 0, 0x17, 0x14, 0xE3, 0xD6, i);
        FirstWordStarts([0x17, 0x14, 0xE3, 0xD6], i);
      } else {
        WordBitFromBytes(KEY_WORDS, 1, 0x7E, 0xC8, 0x6C, 0x37, i - 32);
        SecondWordStarts([0x7E, 0xC8, 0x6C, 0x37], i - 32);
      }
    }
  }

  // ---------- Equal slots ----------

  lemma {:induction false} ZeroNumber(b: seq<bool>)
    ensures ToNat(b) == 0 <==> forall i :: 0 <= i < |b| ==> !b[i]
  {
    if b != [] {
      ZeroNumber(b[1..]);
    }
  }

  lemma SameNumber(a: seq<bool>, b: seq<bool>)
    requires |a| == |b|
    ensures ToNat(a) == ToNat(b) <==> forall i :: 0 <= i < |a| ==> a[i] == b[i]
  {
    FromToNat(a);
    FromToNat(b);
  }

  lemma SameIndexIffXorIsZero(size: TableSize, h: U32, g: U32)
    ensures Index(size, h) == Index(size, g) <==> Index(size, Xor(h, g)) == 0
  {
    var n := HashBits(size);
    IndexIsLowBits(size, h);
    IndexIsLowBits(size, g);
    IndexIsLowBits(size, Xor(h, g));
    SameNumber(h[..n], g[..n]);
    ZeroNumber(Xor(h, g)[..n]);
    assert forall i {:trigger h[..n][i]} :: 0 <= i < n ==> Xor(h, g)[..n][i] == (h[..n][i] != g[..n][i]);
  }

  lemma SameBucketByKeys(size: TableSize, key: HashKey, k: KeyBits, l: KeyBits)
    ensures Index(size, Hash(key, k)) == Index(size, Hash(key, l)) <==> Index(size, Hash(key, Xor(k, l))) == 0
  {
    HashLinear(key, k, l);
    SameIndexIffXorIsZero(size, Hash(key, k), Hash(key, l));
  }

  lemma HashBitLeavesBucketZero(key: HashKey, k: KeyBits, j: nat)
    requires j < 5 && Hash(key, k)[j]
    ensures Index(HASH_TABLE_SIZE, Hash(key, k)) != 0
  {
    SlotIsLow5(key, k);
    ZeroNumber(Hash(key, k)[..5]);
    assert Hash(key, k)[..5][j];
  }

  // ---------- Which key bits matter ----------

  /** For every bit but bit 5, the distance to a set key bit within the next five. */
  function LiveOffset(i: nat): nat
    requires i < 48 && i != 5
  {
    if i <= 4 then 4 - i
    else if i <= 10 then 10 - i
    else if i <= 12 then 12 - i
    else if i <= 17 then 17 - i
    else if i <= 22 then 22 - i
    else if i <= 26 then 26 - i
    else if i <= 31 then 31 - i
    else if i <= 36 then 36 - i
    else if i <= 38 then 38 - i
    else if i <= 43 then 43 - i
    else 47 - i
  }

  lemma LiveBit(key: StartKey, i: nat)
    requires i < 48 && i != 5
    ensures LiveOffset(i) < 5 && key[i + LiveOffset(i)]
  {
    assert StartBit(i + LiveOffset(i));
  }

  lemma DeadBit(key: StartKey, j: nat)
    requires j < 5
    ensures !key[5 + j]
  {
    assert !StartBit(5 + j);
  }

  lemma SingleBitIndexIsZeroIff(key: StartKey, i: nat)
    requires i < 48
    ensures Index(HASH_TABLE_SIZE, Hash(key, Zeros(48)[i := true])) == 0 <==> i == 5
  {
    if i == 5 {
      var h := Hash(key, Zeros(48)[5 := true])[..5];
      forall j | 0 <= j < 5 ensures !h[j] {
        HashOfSingleBit(key, 5, j);
        DeadBit(key, j);
      }
      ZeroNumber(h);
      SlotIsLow5(key, Zeros(48)[5 := true]);
    } else {
      LiveBit(key, i);
      HashOfSingleBit(key, i, LiveOffset(i));
      HashBitLeavesBucketZero(key, Zeros(48)[i := true], LiveOffset(i));
    }
  }

  /** With the default table size, flipping one of the 48 address and port bits leaves the slot
      unchanged if and only if it is address bit 5. */
  lemma OnlyBit5IsDead(k: KeyBits, i: nat)
    requires i < 48
    ensures Slot(k[i := !k[i]]) == Slot(k) <==> i == 5
  {
    var flipped: KeyBits := k[i := !k[i]];
    BuiltInKeyIsStartKey();
    SameBucketByKeys(HASH_TABLE_SIZE, TOEPLITZ_KEY, flipped, k);
    assert Xor(flipped, k) == Zeros(48)[i := true];
    SingleBitIndexIsZeroIff(TOEPLITZ_KEY, i);
  }

  // ---------- The slots of the documented filters ----------

  /** One more set bit xors its key window into the hash. */
  lemma AddBit(key: StartKey, k: KeyBits, i: nat, before: seq<bool>, after: seq<bool>)
    requires i < 48 && !k[i] && Hash(key, k)[..5] == before
    requires |before| == |after| == 5
    requires forall j :: 0 <= j < 5 ==> after[j] == (before[j] != StartBit(i + j))
    ensures Hash(key, k[i := true])[..5] == after
  {
    var e: KeyBits := Zeros(48)[i := true];
    assert k[i := true] == Xor(k, e);
    HashLinear(key, k, e);
    HashOfSingleBitIsWindow(key, i);
    forall j | 0 <= j < 5 ensures Hash(key, k[i := true])[j] == after[j] {
      assert before[j] == Hash(key, k)[j];
    }
  }

  lemma AddBits0(key: StartKey, k: KeyBits)
    requires !k[6] && !k[7] && !k[11] && !k[13]
    requires Hash(key, k)[..5] == [false, false, false, false, false]
    ensures Hash(key, k[6 := true][7 := true][11 := true][13 := true])[..5] == [false, true, false, false, false]
  {
    AddBit(key, k, 6, [false, false, false, false, false], [false, false, false, false, true]);
    var k0: KeyBits := k[6 := true];
    AddBit(key, k0, 7, [false, false, false, false, true], [false, false, false, true, true]);
    var k1: KeyBits := k0[7 := true];
    AddBit(key, k1, 11, [false, false, false, true, true], [false, true, false, true, true]);
    var k2: KeyBits := k1[11 := true];
    AddBit(key, k2, 13, [false, true, false, true, true], [false, true, false, false, false]);
  }

  lemma AddBits1(key: StartKey, k: KeyBits)
    requires !k[15] && !k[17] && !k[24] && !k[32]
    requires Hash(key, k)[..5] == [false, true, false, false, false]
    ensures Hash(key, k[15 := true][17 := true][24 := true][32 := true])[..5] == [true, false, true, true, true]
  {
    AddBit(key, k, 15, [false, true, false, false, false], [false, false, true, false, false]);
    var k0: KeyBits := k[15 := true];
    AddBit(key, k0, 17, [false, false, true, false, false], [true, false, true, false, true]);
    var k1: KeyBits := k0[17 := true];
    AddBit(key, k1, 24, [true, false, true, false, true], [true, true, false, false, false]);
    var k2: KeyBits := k1[24 := true];
    AddBit(key, k2, 32, [true, true, false, false, false], [true, false, true, true, true]);
  }

  lemma AddBits2(key: StartKey, k: KeyBits)
    requires !k[37] && !k[42] && !k[44] && !k[45]
    requires Hash(key, k)[..5] == [true, false, true, true, true]
    ensures Hash(key, k[37 := true][42 := true][44 := true][45 := true])[..5] == [false, true, true, false, false]
  {
    AddBit(key, k, 37, [true, false, true, true, true], [false, true, true, true, true]);
    var k0: KeyBits := k[37 := true];
    AddBit(key, k0, 42, [false, true, true, true, true], [false, false, true, true, false]);
    var k1: KeyBits := k0[42 := true];
    AddBit(key, k1, 44, [false, false, true, true, false], [false, false, false, false, false]);
    var k2: KeyBits := k1[44 := true];
    AddBit(key, k2, 45, [false, false, false, false, false], [false, true, true, false, false]);
  }

  lemma AddBits3(key: StartKey, k: KeyBits)
    requires !k[25] && !k[26] && !k[27]
    requires Hash(key, k)[..5] == [false, true, true, false, false]
    ensures Hash(key, k[25 := true][26 := true][27 := true])[..5] == [false, true, false, false, false]
  {
    AddBit(key, k, 25, [false, true, true, false, false], [true, false, true, true, false]);
    var k0: KeyBits := k[25 := true];
    AddBit(key, k0, 26, [true, false, true, true, false], [false, false, false, true, true]);
    var k1: KeyBits := k0[26 := true];
    AddBit(key, k1, 27, [false, false, false, true, true], [false, true, false, false, false]);
  }

  lemma AddBits4(key: StartKey, k: KeyBits)
    requires !k[28] && !k[30]
    requires Hash(key, k)[..5] == [false, true, false, false, false]
    ensures Hash(key, k[28 := true][30 := true])[..5] == [false, false, true, false, true]
  {
    AddBit(key, k, 28, [false, true, false, false, false], [true, true, true, true, false]);
    var k0: KeyBits := k[28 := true];
    AddBit(key, k0, 30, [true, true, true, true, false], [false, false, true, false, true]);
  }

  lemma AddBits5(key: StartKey, k: KeyBits)
    requires !k[40]
    requires Hash(key, k)[..5] == [false, false, true, false, true]
    ensures Hash(key, k[40 := true])[..5] == [false, false, true, true, true]
  {
    AddBit(key, k, 40, [false, false, true, false, true], [false, false, true, true, true]);
  }

  lemma NoBits(key: HashKey)
    ensures Hash(key, Zeros(48))[..5] == [false, false, false, false, false]
  {
    HashOfZero(key);
    assert Zeros(32)[..5] == [false, false, false, false, false];
  }

  /** The documented filters, and the address of the second with the port of the first. */
  const FIRST_EXAMPLE := Endpoint(192, 168, 2, 1, 8500)
  const SECOND_EXAMPLE := Endpoint(192, 168, 2, 95, 8501)
  const HALF_EXAMPLE := Endpoint(192, 168, 2, 95, 8500)

  /** The set bits of the first one. */
  predicate FirstBit(i: int) {
    if i < 8 then i == 6 || i == 7
    else if i < 16 then i == 11 || i == 13 || i == 15
    else if i < 24 then i == 17
    else if i < 32 then i == 24
    else if i < 40 then i == 32 || i == 37
    else i == 42 || i == 44 || i == 45
  }

  predicate HalfBit(i: int) {
    if i < 8 then i == 6 || i == 7
    else if i < 16 then i == 11 || i == 13 || i == 15
    else if i < 24 then i == 17
    else if i < 32 then i == 24 || i == 25 || i == 26 || i == 27 || i == 28 || i == 30
    else if i < 40 then i == 32 || i == 37
    else i == 42 || i == 44 || i == 45
  }

  predicate SecondBit(i: int) {
    if i < 8 then i == 6 || i == 7
    else if i < 16 then i == 11 || i == 13 || i == 15
    else if i < 24 then i == 17
    else if i < 32 then i == 24 || i == 25 || i == 26 || i == 27 || i == 28 || i == 30
    else if i < 40 then i == 32 || i == 37
    else i == 40 || i == 42 || i == 44 || i == 45
  }

  lemma SixBytesOf(bytes: seq<byte>, f: int -> bool, i: nat)
    requires |bytes| == 6 && i < 48
    requires IsByteOf(FromNat(bytes[0], 8), 0, f) && IsByteOf(FromNat(bytes[1], 8), 1, f)
    requires IsByteOf(FromNat(bytes[2], 8), 2, f) && IsByteOf(FromNat(bytes[3], 8), 3, f)
    requires IsByteOf(FromNat(bytes[4], 8), 4, f) && IsByteOf(FromNat(bytes[5], 8), 5, f)
    ensures BytesToBits(bytes)[i] == f(i)
  {
    forall m | 0 <= m < |bytes| ensures IsByteOf(FromNat(bytes[m], 8), m, f) {
      assert m == 0 || m == 1 || m == 2 || m == 3 || m == 4 || m == 5;
    }
    BytesOf(bytes, 0, f, i);
  }

  /** The 48 hashed bits of an endpoint. */
  function KeyOf(e: Endpoint): (k: KeyBits)
    requires e.port < 0x1_0000
  {
    Wire(e).ip + Wire(e).port
  }

  lemma KeyOfBytes(e: Endpoint, hi: byte, lo: byte)
    requires e.port == 0x100 * hi + lo
    ensures KeyOf(e) == BytesToBits([e.a, e.b, e.c, e.d, hi, lo])
  {
    assert e.port / 0x100 == hi && e.port % 0x100 == lo;
    BytesAppend([e.a, e.b, e.c, e.d], [hi, lo]);
    assert [e.a, e.b, e.c, e.d] + [hi, lo] == [e.a, e.b, e.c, e.d, hi, lo];
  }

  lemma BytesAppend(x: seq<byte>, y: seq<byte>)
    ensures BytesToBits(x + y) == BytesToBits(x) + BytesToBits(y)
  {
    var b, c := BytesToBits(x + y), BytesToBits(x) + BytesToBits(y);
    forall i | 0 <= i < 8 * |x + y| ensures b[i] == c[i] {
      if i >= 8 * |x| {
        assert (i - 8 * |x|) / 8 == i / 8 - |x| && (i - 8 * |x|) % 8 == i % 8;
      }
    }
  }

  lemma FirstExampleBits(bytes: seq<byte>, i: nat)
    requires bytes == [192, 168, 2, 1, 0x21, 0x34] && i < 48
    ensures BytesToBits(bytes)[i] <==> FirstBit(i)
  {
    NumberedByte(bytes[0], 0, FirstBit);
    NumberedByte(bytes[1], 1, FirstBit);
    NumberedByte(bytes[2], 2, FirstBit);
    NumberedByte(bytes[3], 3, FirstBit);
    NumberedByte(bytes[4], 4, FirstBit);
    NumberedByte(bytes[5], 5, FirstBit);
    SixBytesOf(bytes, FirstBit, i);
  }

  lemma FirstKeyBits(i: nat)
    requires i < 48
    ensures KeyOf(FIRST_EXAMPLE)[i] <==> FirstBit(i)
  {
    KeyOfBytes(FIRST_EXAMPLE, 0x21, 0x34);
    FirstExampleBits([192, 168, 2, 1, 0x21, 0x34], i);
  }

  lemma HalfExampleBits(bytes: seq<byte>, i: nat)
    requires bytes == [192, 168, 2, 95, 0x21, 0x34] && i < 48
    ensures BytesToBits(bytes)[i] <==> HalfBit(i)
  {
    NumberedByte(bytes[0], 0, HalfBit);
    NumberedByte(bytes[1], 1, HalfBit);
    NumberedByte(bytes[2], 2, HalfBit);
    NumberedByte(bytes[3], 3, HalfBit);
    NumberedByte(bytes[4], 4, HalfBit);
    NumberedByte(bytes[5], 5, HalfBit);
    SixBytesOf(bytes, HalfBit, i);
  }

  lemma HalfKeyBits(i: nat)
    requires i < 48
    ensures KeyOf(HALF_EXAMPLE)[i] <==> HalfBit(i)
  {
    KeyOfBytes(HALF_EXAMPLE, 0x21, 0x34);
    HalfExampleBits([192, 168, 2, 95, 0x21, 0x34], i);
  }

  lemma SecondExampleBits(bytes: seq<byte>, i: nat)
    requires bytes == [192, 168, 2, 95, 0x21, 0x35] && i < 48
    ensures BytesToBits(bytes)[i] <==> SecondBit(i)
  {
    NumberedByte(bytes[0], 0, SecondBit);
    NumberedByte(bytes[1], 1, SecondBit);
    NumberedByte(bytes[2], 2, SecondBit);
    NumberedByte(bytes[3], 3, SecondBit);
    NumberedByte(bytes[4], 4, SecondBit);
    NumberedByte(bytes[5], 5, SecondBit);
    SixBytesOf(bytes, SecondBit, i);
  }

  lemma SecondKeyBits(i: nat)
    requires i < 48
    ensures KeyOf(SECOND_EXAMPLE)[i] <==> SecondBit(i)
  {
    KeyOfBytes(SECOND_EXAMPLE, 0x21, 0x35);
    SecondExampleBits([192, 168, 2, 95, 0x21, 0x35], i);
  }

  lemma FirstLowBits(key: StartKey)
    ensures Hash(key, KeyOf(FIRST_EXAMPLE))[..5] == [false, true, true, false, false]
  {
    NoBits(key);
    AddBits0(key, Zeros(48));
    var k0: KeyBits := Zeros(48)[6 := true][7 := true][11 := true][13 := true];
    AddBits1(key, k0);
    var k1: KeyBits := k0[15 := true][17 := true][24 := true][32 := true];
    AddBits2(key, k1);
    var k2: KeyBits := k1[37 := true][42 := true][44 := true][45 := true];
    forall i | 0 <= i < 48 ensures KeyOf(FIRST_EXAMPLE)[i] == k2[i] {
      FirstKeyBits(i);
    }
    assert KeyOf(FIRST_EXAMPLE) == k2;
  }

  lemma FiveMoreBits(k: KeyBits, h: KeyBits)
    requires forall i :: 0 <= i < 48 ==> k[i] == FirstBit(i)
    requires forall i :: 0 <= i < 48 ==> h[i] == HalfBit(i)
    ensures !k[25] && !k[26] && !k[27] && !k[28] && !k[30]
    ensures h == k[25 := true][26 := true][27 := true][28 := true][30 := true]
  {
  }

  lemma HalfKeyIs(k: KeyBits)
    requires k == KeyOf(FIRST_EXAMPLE)
    ensures !k[25] && !k[26] && !k[27] && !k[28] && !k[30]
    ensures KeyOf(HALF_EXAMPLE) == k[25 := true][26 := true][27 := true][28 := true][30 := true]
  {
    forall i | 0 <= i < 48 ensures k[i] == FirstBit(i) {
      FirstKeyBits(i);
    }
    forall i | 0 <= i < 48 ensures KeyOf(HALF_EXAMPLE)[i] == HalfBit(i) {
      HalfKeyBits(i);
    }
    FiveMoreBits(k, KeyOf(HALF_EXAMPLE));
  }

  lemma HalfLowBits(key: StartKey)
    ensures Hash(key, KeyOf(HALF_EXAMPLE))[..5] == [false, false, true, false, true]
  {
    var k: KeyBits := KeyOf(FIRST_EXAMPLE);
    FirstLowBits(key);
    HalfKeyIs(k);
    AddBits3(key, k);
    AddBits4(key, k[25 := true][26 := true][27 := true]);
  }

  lemma SecondKeyIs(k: KeyBits)
    requires k == KeyOf(HALF_EXAMPLE)
    ensures !k[40] && KeyOf(SECOND_EXAMPLE) == k[40 := true]
  {
    forall i | 0 <= i < 48 ensures k[i] == HalfBit(i) && KeyOf(SECOND_EXAMPLE)[i] == SecondBit(i) {
      HalfKeyBits(i);
      SecondKeyBits(i);
    }
  }

  lemma SecondLowBits(key: StartKey)
    ensures Hash(key, KeyOf(SECOND_EXAMPLE))[..5] == [false, false, true, true, true]
  {
    HalfLowBits(key);
    SecondKeyIs(KeyOf(HALF_EXAMPLE));
    AddBits5(key, KeyOf(HALF_EXAMPLE));
  }

  lemma FiveBitNumber(b: seq<bool>)
    requires |b| == 5
    ensures ToNat(b) == BitValue(b[0]) + 2 * BitValue(b[1]) + 4 * BitValue(b[2]) + 8 * BitValue(b[3])
                        + 16 * BitValue(b[4])
  {
    forall i | 0 <= i < 5 ensures ToNat(b[i..]) == BitValue(b[i]) + 2 * ToNat(b[i + 1..]) {
      assert b[i..][1..] == b[i + 1..];
    }
    assert b[0..] == b && b[5..] == [];
  }

  lemma BucketOfLowBits(e: Endpoint, key: HashKey, b: seq<bool>)
    requires e.port < 0x1_0000 && key == TOEPLITZ_KEY && |b| == 5 && Hash(key, KeyOf(e))[..5] == b
    ensures Bucket(HASH_TABLE_SIZE, Wire(e)) == BitValue(b[0]) + 2 * BitValue(b[1]) + 4 * BitValue(b[2])
                                                + 8 * BitValue(b[3]) + 16 * BitValue(b[4])
  {
    SlotIsLow5(key, KeyOf(e));
    FiveBitNumber(b);
  }

  /** The slots of the documented filters, and of the address of the second with the port of the first. */
  lemma DocumentedSlots()
    ensures Bucket(HASH_TABLE_SIZE, Wire(Endpoint(192, 168, 2, 1, 8500))) == 6
    ensures Bucket(HASH_TABLE_SIZE, Wire(Endpoint(192, 168, 2, 95, 8501))) == 28
    ensures Bucket(HASH_TABLE_SIZE, Wire(Endpoint(192, 168, 2, 95, 8500))) == 20
  {
    BuiltInKeyIsStartKey();
    FirstLowBits(TOEPLITZ_KEY);
    BucketOfLowBits(FIRST_EXAMPLE, TOEPLITZ_KEY, [false, true, true, false, false]);
    SecondLowBits(TOEPLITZ_KEY);
    BucketOfLowBits(SECOND_EXAMPLE, TOEPLITZ_KEY, [false, false, true, true, true]);
    HalfLowBits(TOEPLITZ_KEY);
    BucketOfLowBits(HALF_EXAMPLE, TOEPLITZ_KEY, [false, false, true, false, true]);
  }
}
