/** Bytes and bits as the C++ code sees them: a `uint8_t` is a number below 256, and a
    `std::vector<uint8_t>` of flags is a sequence of numbers 0 and 1, most significant bit first. */
module Bytes {

  type byte = x: int | 0 <= x < 256
  type bit = x: int | 0 <= x <= 1

  function Repeat<T>(x: T, n: nat): (s: seq<T>)
    ensures |s| == n && forall i :: 0 <= i < n ==> s[i] == x
  {
    seq(n, _ => x)
  }

  /** Taking a concatenation of three apart. */
  lemma ThreeParts<T>(a: seq<T>, b: seq<T>, c: seq<T>)
    ensures (a + b + c)[..|a|] == a
    ensures (a + b + c)[|a|..|a| + |b|] == b
    ensures (a + b + c)[|a| + |b|..] == c
  {
  }

  lemma OneMore<T>(before: seq<T>, s: seq<T>, i: nat)
    requires i < |s|
    ensures before + s[..i] + [s[i]] == before + s[..i + 1]
  {
  }

  lemma Regrouped<T>(a: seq<T>, b: seq<T>, c: seq<T>, d: seq<T>)
    ensures a + b + (c + d) == a + b + c + d
  {
  }

  // ---- Numbers and their bits ---------------------------------------------------------------

  function Pow2(n: nat): (p: nat)
    ensures p > 0
  {
    if n == 0 then 1 else 2 * Pow2(n - 1)
  }

  /** The low `n` bits of a number, most significant first. */
  function NatBits(v: nat, n: nat): (bits: seq<bit>)
    ensures |bits| == n
  {
    if n == 0 then [] else NatBits(v / 2, n - 1) + [v % 2]
  }

  /** The number a bit string denotes, read big-endian. */
  function Value(bits: seq<bit>): nat {
    if bits == [] then 0 else 2 * Value(bits[..|bits| - 1]) + bits[|bits| - 1]
  }

  lemma {:induction false} ValueOfNatBits(v: nat, n: nat)
    requires v < Pow2(n)
    ensures Value(NatBits(v, n)) == v
  {
    if n == 0 {
    } else {
      ValueOfNatBits(v / 2, n - 1);
      assert NatBits(v, n)[..n - 1] == NatBits(v / 2, n - 1);
    }
  }

  lemma {:induction false} NatBitsOfValue(bits: seq<bit>)
    ensures Value(bits) < Pow2(|bits|)
    ensures NatBits(Value(bits), |bits|) == bits
  {
    if bits == [] {
    } else {
      var init := bits[..|bits| - 1];
      NatBitsOfValue(init);
      assert Value(bits) / 2 == Value(init);
      assert bits == init + [bits[|bits| - 1]];
    }
  }

  lemma HalvePow(v: nat, n: nat)
    ensures v / 2 / Pow2(n) == v / Pow2(n + 1)
  {
    var p := Pow2(n);
    var q, r := v / 2 / p, v / 2 % p;
    assert v == 2 * (q * p + r) + v % 2;
    assert v == q * (2 * p) + (2 * r + v % 2) && 0 <= 2 * r + v % 2 < 2 * p;
    DivUnique(v, 2 * p, q, 2 * r + v % 2);
  }

  lemma MulAtLeast(k: int, d: nat)
    requires k >= 1
    ensures k * d >= d
  {
    assert k * d == (k - 1) * d + d;
  }

  lemma DivUnique(v: nat, d: nat, q: nat, r: nat)
    requires d > 0 && v == q * d + r && r < d
    ensures v / d == q && v % d == r
  {
    var q', r' := v / d, v % d;
    assert v == q' * d + r';
    var k := q' - q;
    assert k * d == r - r' by {
      assert (q' - q) * d == q' * d - q * d;
    }
    if k >= 1 {
      MulAtLeast(k, d);
    } else if k <= -1 {
      assert (-k) * d == -(k * d);
      MulAtLeast(-k, d);
    }
  }

  /** Shifting right and masking picks out one bit: `(v >> j) & 1`. */
  lemma {:induction false} NatBitAt(v: nat, n: nat, i: nat)
    requires i < n
    ensures NatBits(v, n)[i] == v / Pow2(n - 1 - i) % 2
  {
    if i < n - 1 {
      NatBitAt(v / 2, n - 1, i);
      HalvePow(v, n - 2 - i);
    }
  }

  // ---- Byte strings and their bits ----------------------------------------------------------

  function ByteBits(b: byte): (bits: seq<bit>)
    ensures |bits| == 8
  {
    NatBits(b, 8)
  }

  function ByteOf(bits: seq<bit>): byte
    requires |bits| == 8
  {
    NatBitsOfValue(bits);
    Value(bits)
  }

  /** All bits of a byte string, most significant first. */
  function Bits(bytes: seq<byte>): (bits: seq<bit>)
    ensures |bits| == 8 * |bytes|
  {
    seq(8 * |bytes|, i requires 0 <= i < 8 * |bytes| => ByteBits(bytes[i / 8])[i % 8])
  }

  /** The byte string that carries a whole number of octets of bits. */
  function Pack(bits: seq<bit>): (bytes: seq<byte>)
    requires |bits| % 8 == 0
    ensures 8 * |bytes| == |bits|
  {
    seq(|bits| / 8, i requires 0 <= i < |bits| / 8 => ByteOf(bits[8 * i..8 * i + 8]))
  }

  lemma PackAt(bits: seq<bit>, i: nat)
    requires |bits| % 8 == 0 && 8 * i < |bits|
    ensures Pack(bits)[i] == ByteOf(bits[8 * i..8 * i + 8])
  {
  }

  lemma BitsOfPack(bits: seq<bit>)
    requires |bits| % 8 == 0
    ensures Bits(Pack(bits)) == bits
  {
    forall i | 0 <= i < |bits| ensures Bits(Pack(bits))[i] == bits[i] {
      NatBitsOfValue(bits[8 * (i / 8)..8 * (i / 8) + 8]);
    }
  }

  lemma PackOfBits(bytes: seq<byte>)
    ensures Pack(Bits(bytes)) == bytes
  {
    forall i | 0 <= i < |bytes| ensures Pack(Bits(bytes))[i] == bytes[i] {
      var bs := Bits(bytes)[8 * i..8 * i + 8];
      forall j | 0 <= j < 8 ensures bs[j] == ByteBits(bytes[i])[j] {
        assert (8 * i + j) / 8 == i && (8 * i + j) % 8 == j;
      }
      assert bs == ByteBits(bytes[i]);
      ValueOfNatBits(bytes[i], 8);
    }
  }

  lemma BitsAppend(a: seq<byte>, b: seq<byte>)
    ensures Bits(a + b) == Bits(a) + Bits(b)
  {
    forall i | 0 <= i < 8 * |a + b| ensures Bits(a + b)[i] == (Bits(a) + Bits(b))[i] {
      if i >= 8 * |a| {
        assert (i - 8 * |a|) / 8 == i / 8 - |a| && (i - 8 * |a|) % 8 == i % 8;
      }
    }
  }
}
