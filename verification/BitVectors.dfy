/** Fixed-width unsigned integers of the hardware (ap_uint) as bit sequences, least significant
    bit first, and their conversion from and to natural numbers. */
module BitVectors {
  type U3 = b: seq<bool> | |b| == 3 witness seq(3, _ => false)
  type U4 = b: seq<bool> | |b| == 4 witness seq(4, _ => false)
  type U8 = b: seq<bool> | |b| == 8 witness seq(8, _ => false)
  type U13 = b: seq<bool> | |b| == 13 witness seq(13, _ => false)
  type U16 = b: seq<bool> | |b| == 16 witness seq(16, _ => false)
  type U32 = b: seq<bool> | |b| == 32 witness seq(32, _ => false)
  type U48 = b: seq<bool> | |b| == 48 witness seq(48, _ => false)
  type U64 = b: seq<bool> | |b| == 64 witness seq(64, _ => false)
  type U512 = b: seq<bool> | |b| == 512 witness seq(512, _ => false)
  type byte = x: nat | x < 256

  function Pow2(n: nat): (p: nat)
    ensures p >= 1
  {
    if n == 0 then 1 else 2 * Pow2(n - 1)
  }

  function Zeros(w: nat): (b: seq<bool>)
    ensures |b| == w
  {
    seq(w, _ => false)
  }

  function Xor(a: seq<bool>, b: seq<bool>): (r: seq<bool>)
    requires |a| == |b|
    ensures |r| == |a|
  {
    seq(|a|, i requires 0 <= i < |a| => a[i] != b[i])
  }

  function And(a: seq<bool>, b: seq<bool>): (r: seq<bool>)
    requires |a| == |b|
    ensures |r| == |a|
  {
    seq(|a|, i requires 0 <= i < |a| => a[i] && b[i])
  }

  function ToNat(b: seq<bool>): nat {
    if b == [] then 0 else (if b[0] then 1 else 0) + 2 * ToNat(b[1..])
  }

  /** The low `w` bits of `n`. */
  function FromNat(n: nat, w: nat): (b: seq<bool>)
    ensures |b| == w
  {
    if w == 0 then [] else [n % 2 == 1] + FromNat(n / 2, w - 1)
  }

  lemma {:induction false} ToNatBound(b: seq<bool>)
    ensures ToNat(b) < Pow2(|b|)
  {
    if b != [] {
      ToNatBound(b[1..]);
    }
  }

  lemma FromNatCons(bit: bool, rest: nat, w: nat)
    ensures FromNat((if bit then 1 else 0) + 2 * rest, w + 1) == [bit] + FromNat(rest, w)
  {
    var n := (if bit then 1 else 0) + 2 * rest;
    assert n / 2 == rest && (n % 2 == 1 <==> bit);
  }

  lemma {:induction false} FromToNat(b: seq<bool>)
    ensures FromNat(ToNat(b), |b|) == b
  {
    if b != [] {
      FromToNat(b[1..]);
      FromNatCons(b[0], ToNat(b[1..]), |b| - 1);
    }
  }

  lemma {:induction false} ToFromNat(n: nat, w: nat)
    requires n < Pow2(w)
    ensures ToNat(FromNat(n, w)) == n
  {
    if w > 0 {
      ToFromNat(n / 2, w - 1);
      assert FromNat(n, w)[1..] == FromNat(n / 2, w - 1);
    }
  }

  lemma FromNatStep(n: nat, w: nat)
    requires w > 0
    ensures FromNat(n, w) == [n % 2 == 1] + FromNat(n / 2, w - 1)
  {
  }

  lemma DoubledShift(x: nat, p: nat, y: nat)
    ensures (x + 2 * p * y) % 2 == x % 2 && (x + 2 * p * y) / 2 == x / 2 + p * y
  {
    assert 2 * p * y == 2 * (p * y);
  }

  /** Concatenation of bit sequences is little-endian positional notation. */
  lemma {:induction false} FromNatAppend(x: nat, u: nat, y: nat, w: nat)
    requires x < Pow2(u)
    ensures FromNat(x + Pow2(u) * y, u + w) == FromNat(x, u) + FromNat(y, w)
  {
    if u > 0 {
      DoubledShift(x, Pow2(u - 1), y);
      FromNatAppend(x / 2, u - 1, y, w);
      FromNatStep(x + Pow2(u) * y, u + w);
      FromNatStep(x, u);
    } else {
      assert FromNat(x, u) + FromNat(y, w) == FromNat(y, w);
    }
  }

  lemma Join(x: nat, u: nat, y: nat, w: nat, lo: seq<bool>, hi: seq<bool>)
    requires x < Pow2(u) && FromNat(x, u) == lo && FromNat(y, w) == hi
    ensures FromNat(x + Pow2(u) * y, u + w) == lo + hi
  {
    FromNatAppend(x, u, y, w);
  }

  lemma {:induction false} PowerAdds(u: nat, w: nat)
    ensures Pow2(u + w) == Pow2(u) * Pow2(w)
  {
    if u > 0 {
      PowerAdds(u - 1, w);
    }
  }

  lemma {:induction false} PowerMonotone(u: nat, w: nat)
    requires u <= w
    ensures Pow2(u) <= Pow2(w)
    decreases w
  {
    if u < w {
      PowerMonotone(u, w - 1);
    }
  }

  lemma WordPowers()
    ensures Pow2(8) == 0x100 && Pow2(16) == 0x1_0000 && Pow2(24) == 0x100_0000
    ensures Pow2(31) == 0x8000_0000 && Pow2(32) == 0x1_0000_0000 && Pow2(64) == 0x1_0000_0000_0000_0000
  {
    assert Pow2(4) == 16;
    PowerAdds(4, 4);
    PowerAdds(8, 8);
    PowerAdds(8, 16);
    PowerAdds(16, 16);
    PowerAdds(32, 32);
  }

  /** The effect of assigning `bits` to the range of `d` that starts at bit `lo`. */
  function Splice(d: seq<bool>, lo: nat, bits: seq<bool>): (r: seq<bool>)
    requires lo + |bits| <= |d|
    ensures |r| == |d|
  {
    d[..lo] + bits + d[lo + |bits|..]
  }

  /** `a.range(lo + |bits| - 1, lo) = bits`. */
  method SetRange(a: array<bool>, lo: nat, bits: seq<bool>)
    requires lo + |bits| <= a.Length
    modifies a
    ensures a[..] == Splice(old(a[..]), lo, bits)
  {
    forall i | 0 <= i < |bits| {
      a[lo + i] := bits[i];
    }
  }

  /** Two adjacent range assignments are one assignment of the joined bits. */
  lemma SplicesJoin(d: seq<bool>, lo: nat, a: seq<bool>, b: seq<bool>)
    requires lo + |a| + |b| <= |d|
    ensures Splice(Splice(d, lo, a), lo + |a|, b) == Splice(d, lo, a + b)
  {
  }

  /** A byte string as it lies on a bus that carries byte 0 in its lowest bits. */
  function BytesToBits(bytes: seq<byte>): (b: seq<bool>)
    ensures |b| == 8 * |bytes|
  {
    seq(8 * |bytes|, i requires 0 <= i < 8 * |bytes| => FromNat(bytes[i / 8], 8)[i % 8])
  }

  lemma BytesSlice(bytes: seq<byte>, i: nat, j: nat)
    requires i <= j <= |bytes|
    ensures BytesToBits(bytes)[8 * i..8 * j] == BytesToBits(bytes[i..j])
  {
  }

  /** The number a little-endian host reads from `bytes`. */
  function LittleEndian(bytes: seq<byte>): nat {
    if bytes == [] then 0 else bytes[0] + 0x100 * LittleEndian(bytes[1..])
  }

  lemma BytesCons(bytes: seq<byte>)
    requires bytes != []
    ensures BytesToBits(bytes) == FromNat(bytes[0], 8) + BytesToBits(bytes[1..])
  {
    forall i | 8 <= i < 8 * |bytes| ensures BytesToBits(bytes)[i] == BytesToBits(bytes[1..])[i - 8] {
      assert (i - 8) / 8 == i / 8 - 1 && (i - 8) % 8 == i % 8;
    }
    forall i | 0 <= i < 8 ensures BytesToBits(bytes)[i] == FromNat(bytes[0], 8)[i] {
      assert i / 8 == 0 && i % 8 == i;
    }
  }

  lemma {:induction false} LittleEndianBound(bytes: seq<byte>)
    ensures LittleEndian(bytes) < Pow2(8 * |bytes|)
  {
    if bytes != [] {
      LittleEndianBound(bytes[1..]);
      WordPowers();
      PowerAdds(8, 8 * |bytes[1..]|);
    }
  }

  lemma {:induction false} LittleEndianBits(bytes: seq<byte>)
    ensures FromNat(LittleEndian(bytes), 8 * |bytes|) == BytesToBits(bytes)
  {
    if bytes != [] {
      var rest := bytes[1..];
      LittleEndianBits(rest);
      BytesCons(bytes);
      assert Pow2(8) == 0x100 by {
        WordPowers();
      }
      var v, n := LittleEndian(rest), 8 * |rest|;
      Join(bytes[0], 8, v, n, FromNat(bytes[0], 8), BytesToBits(rest));
    }
  }

  lemma BytesToNat(bytes: seq<byte>)
    ensures ToNat(BytesToBits(bytes)) == LittleEndian(bytes)
  {
    LittleEndianBits(bytes);
    LittleEndianBound(bytes);
    ToFromNat(LittleEndian(bytes), 8 * |bytes|);
  }

  /** Byte swap of a 16-bit value: `htons`, `rte_be_to_cpu_16` and the builtin on a little-endian host. */
  function Bswap16(x: nat): (r: nat)
    requires x < 0x1_0000
    ensures r < 0x1_0000
  {
    x % 0x100 * 0x100 + x / 0x100
  }
}
