/** The Toeplitz hash over the 48 key bits (ip, then port), in the three forms that agree. */
module Toeplitz {
  import opened BitVectors

  /** A 320-bit Toeplitz key and the 48 hashed bits. */
  type HashKey = b: seq<bool> | |b| == 320 witness seq(320, _ => false)
  type KeyBits = U48

  /** The ten words the constructor stores, lowest range first. */
  const KEY_WORDS: seq<nat> := [
    0xD6E31417, 0x376CC87E, 0x011BA7A6, 0xDC1B91BB, 0x7872E224,
    0xBFD0404B, 0x260374B8, 0xD9270F6F, 0x18DC4386, 0x7C9C37DE]

  /** 32-bit words laid side by side, the first in the lowest bits. */
  function BitsOfWords(words: seq<nat>): (b: seq<bool>)
    ensures |b| == 32 * |words|
  {
    seq(32 * |words|, i requires 0 <= i < 32 * |words| => FromNat(words[i / 32], 32)[i % 32])
  }

  const TOEPLITZ_KEY: HashKey := BitsOfWords(KEY_WORDS)

  /** The 32-bit window of the key that starts at `offset`, or zero for a clear input bit. */
  function Window(key: seq<bool>, bit: bool, offset: nat): (w: seq<bool>)
    requires offset + 32 <= |key|
    ensures |w| == 32
  {
    if bit then key[offset..offset + 32] else Zeros(32)
  }

  /** The parity of the products of key bit `i + j` and input bit `i`, for `i` in [lo, hi). */
  function Parity(key: seq<bool>, k: seq<bool>, j: nat, lo: nat, hi: nat): bool
    requires hi <= |k| && hi + j <= |key|
  {
    if hi <= lo then false else Parity(key, k, j, lo, hi - 1) != (k[hi - 1] && key[hi - 1 + j])
  }

  /** The hash as a matrix over GF(2) applied to the input: one parity for each output bit. */
  function Hash(key: seq<bool>, k: KeyBits): U32
    requires |key| >= 79
  {
    seq(32, j requires 0 <= j < 32 => Parity(key, k, j, 0, 48))
  }

  /** The parities over the first `n` input bits only. */
  function PartialHash(key: seq<bool>, k: KeyBits, n: nat): U32
    requires |key| >= 79 && n <= 48
  {
    seq(32, j requires 0 <= j < 32 => Parity(key, k, j, 0, n))
  }

  /** Adding the window of one more input bit. */
  lemma PartialHashStep(key: seq<bool>, k: KeyBits, n: nat)
    requires |key| >= 79 && n < 48
    ensures PartialHash(key, k, n + 1) == Xor(PartialHash(key, k, n), Window(key, k[n], n))
  {
    assert forall j: nat :: j < 32 ==> Zeros(32)[j] == false;
    forall j: nat | j < 32
      ensures PartialHash(key, k, n + 1)[j] == (PartialHash(key, k, n)[j] != Window(key, k[n], n)[j])
    {
      assert Window(key, k[n], n)[j] == (k[n] && key[n + j]);
    }
  }

  /** The hash as a shift register: xor in the low 32 key bits, then shift the key by one bit. */
  function ShiftHash(key: seq<bool>, k: seq<bool>): (h: seq<bool>)
    requires |k| + 31 <= |key|
    ensures |h| == 32
  {
    if k == [] then Zeros(32) else Xor(Window(key, k[0], 0), ShiftHash(key[1..], k[1..]))
  }

  lemma {:induction false} ParityFromFront(key: seq<bool>, k: seq<bool>, j: nat, hi: nat)
    requires 0 < hi <= |k| && hi + j <= |key|
    ensures Parity(key, k, j, 0, hi) == ((k[0] && key[j]) != Parity(key[1..], k[1..], j, 0, hi - 1))
  {
    if hi > 1 {
      ParityFromFront(key, k, j, hi - 1);
    } else {
      assert Parity(key, k, j, 0, 0) == false;
    }
  }

  lemma {:induction false} ShiftRegisterBit(key: seq<bool>, k: seq<bool>, j: nat)
    requires j < 32 && |k| + 31 <= |key|
    ensures ShiftHash(key, k)[j] == Parity(key, k, j, 0, |k|)
  {
    if k != [] {
      ShiftRegisterBit(key[1..], k[1..], j);
      ParityFromFront(key, k, j, |k|);
    }
  }

  lemma ShiftRegisterForm(key: seq<bool>, k: KeyBits)
    requires |key| >= 79
    ensures ShiftHash(key, k) == Hash(key, k)
  {
    forall j: nat | j < 32 ensures ShiftHash(key, k)[j] == Hash(key, k)[j] {
      ShiftRegisterBit(key, k, j);
    }
  }

  lemma {:induction false} ParityLinear(key: seq<bool>, a: seq<bool>, b: seq<bool>, j: nat, lo: nat, hi: nat)
    requires |a| == |b| && hi <= |a| && hi + j <= |key|
    ensures Parity(key, Xor(a, b), j, lo, hi) == (Parity(key, a, j, lo, hi) != Parity(key, b, j, lo, hi))
  {
    if lo < hi {
      ParityLinear(key, a, b, j, lo, hi - 1);
    }
  }

  /** The hash is linear over GF(2). */
  lemma HashLinear(key: seq<bool>, a: KeyBits, b: KeyBits)
    requires |key| >= 79
    ensures Hash(key, Xor(a, b)) == Xor(Hash(key, a), Hash(key, b))
  {
    forall j: nat | j < 32 ensures Hash(key, Xor(a, b))[j] == Xor(Hash(key, a), Hash(key, b))[j] {
      ParityLinear(key, a, b, j, 0, 48);
    }
  }

  lemma HashOfZero(key: seq<bool>)
    requires |key| >= 79
    ensures Hash(key, Zeros(48)) == Zeros(32)
  {
    HashLinear(key, Zeros(48), Zeros(48));
    assert Xor(Zeros(48), Zeros(48)) == Zeros(48);
    var h := Hash(key, Zeros(48));
    assert forall j: nat :: j < 32 ==> h[j] == Xor(h, h)[j];
  }

  lemma {:induction false} ParityAgrees(key: seq<bool>, key': seq<bool>, k: seq<bool>, k': seq<bool>,
                                        j: nat, lo: nat, hi: nat)
    requires hi <= |k| && hi <= |k'| && hi + j <= |key| && hi + j <= |key'|
    requires forall i :: lo <= i < hi ==> k[i] == k'[i] && (k[i] ==> key[i + j] == key'[i + j])
    ensures Parity(key, k, j, lo, hi) == Parity(key', k', j, lo, hi)
  {
    if lo < hi {
      ParityAgrees(key, key', k, k', j, lo, hi - 1);
    }
  }

  lemma {:induction false} ParitySplits(key: seq<bool>, k: seq<bool>, j: nat, lo: nat, mid: nat, hi: nat)
    requires lo <= mid <= hi <= |k| && hi + j <= |key|
    ensures Parity(key, k, j, lo, hi) == (Parity(key, k, j, lo, mid) != Parity(key, k, j, mid, hi))
  {
    if mid < hi {
      ParitySplits(key, k, j, lo, mid, hi - 1);
    }
  }

  lemma {:induction false} ParityOfClearBits(key: seq<bool>, k: seq<bool>, j: nat, lo: nat, hi: nat)
    requires hi <= |k| && hi + j <= |key|
    requires forall i :: lo <= i < hi ==> !k[i]
    ensures !Parity(key, k, j, lo, hi)
  {
    if lo < hi {
      ParityOfClearBits(key, k, j, lo, hi - 1);
    }
  }

  /** Output bit `j` of the hash of a single set input bit `i` is key bit `i + j`. */
  lemma HashOfSingleBit(key: seq<bool>, i: nat, j: nat)
    requires |key| >= 79 && i < 48 && j < 32
    ensures Hash(key, Zeros(48)[i := true])[j] == key[i + j]
  {
    var k := Zeros(48)[i := true];
    ParityOfClearBits(key, k, j, 0, i);
    ParityOfClearBits(key, k, j, i + 1, 48);
    ParitySplits(key, k, j, 0, i + 1, 48);
    assert Parity(key, k, j, 0, i + 1) == (Parity(key, k, j, 0, i) != (k[i] && key[i + j]));
  }

  /** Two 320-bit keys define the same hash function exactly when their low 79 bits agree:
      the other 241 bits of the constant are never used, and none of the 79 is redundant. */
  lemma HashDependsOnLow79Bits(key: HashKey, key': HashKey)
    ensures (forall k: KeyBits :: Hash(key, k) == Hash(key', k)) <==> key[..79] == key'[..79]
  {
    if key[..79] == key'[..79] {
      forall k: KeyBits ensures Hash(key, k) == Hash(key', k) {
        forall j: nat | j < 32 ensures Hash(key, k)[j] == Hash(key', k)[j] {
          assert forall i {:trigger k[i]} :: 0 <= i < 48 ==> key[..79][i + j] == key'[..79][i + j];
          ParityAgrees(key, key', k, k, j, 0, 48);
        }
      }
    }
    if forall k: KeyBits :: Hash(key, k) == Hash(key', k) {
      forall b: nat | b < 79 ensures key[b] == key'[b] {
        var i := if b < 48 then b else 47;
        HashOfSingleBit(key, i, b - i);
        HashOfSingleBit(key', i, b - i);
        var k: KeyBits := Zeros(48)[i := true];
        assert Hash(key, k) == Hash(key', k);
      }
    }
  }
}
