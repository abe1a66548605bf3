/** Cutting bit fields out of packet headers: extraction, the shift that right-aligns the result, and
    what the bytes then mean as a number. */
module BitFields {
  import opened Bytes
  import BitWriting

  datatype Option<T> = None | Some(value: T)

  function Ceil8(n: nat): nat { (n + 7) / 8 }

  /** `n` bits from position `off` on, left-aligned in as few bytes as they need. */
  function Extracted(data: seq<byte>, off: nat, n: nat): (out: seq<byte>)
    requires off + n <= 8 * |data|
    ensures |out| == Ceil8(n)
  {
    Pack(Bits(data)[off..off + n] + Repeat(0, 8 * Ceil8(n) - n))
  }

  lemma ExtractedBits(data: seq<byte>, off: nat, n: nat)
    requires off + n <= 8 * |data|
    ensures Bits(Extracted(data, off, n)) == Bits(data)[off..off + n] + Repeat(0, 8 * Ceil8(n) - n)
  {
    BitsOfPack(Bits(data)[off..off + n] + Repeat(0, 8 * Ceil8(n) - n));
  }

  /** All bits moved `s` places towards the end, zeros coming in at the front. */
  function Shifted(v: seq<byte>, s: nat): (out: seq<byte>)
    requires s < 8
    ensures |out| == |v|
  {
    Pack((Repeat(0, s) + Bits(v))[..8 * |v|])
  }

  function Normalized(v: seq<byte>, bitLength: nat): seq<byte> {
    if bitLength % 8 == 0 || v == [] then v else Shifted(v, 8 - bitLength % 8)
  }

  // ---- Bits of sums and quotients ---------------------------------------------------------------

  lemma {:induction false} SplitBits(hi: nat, lo: nat, n: nat, k: nat)
    requires lo < Pow2(k)
    ensures NatBits(hi * Pow2(k) + lo, n + k) == NatBits(hi, n) + NatBits(lo, k)
  {
    if k == 0 {
    } else {
      var v := hi * Pow2(k) + lo;
      assert v == 2 * (hi * Pow2(k - 1)) + lo by {
        assert hi * Pow2(k) == hi * (2 * Pow2(k - 1)) == 2 * (hi * Pow2(k - 1));
      }
      assert v / 2 == hi * Pow2(k - 1) + lo / 2 && v % 2 == lo % 2;
      SplitBits(hi, lo / 2, n, k - 1);
      assert NatBits(v, n + k) == NatBits(v / 2, n + k - 1) + [v % 2];
    }
  }

  lemma {:induction false} ZeroBits(n: nat)
    ensures NatBits(0, n) == Repeat(0, n)
  {
    if n == 0 {
    } else {
      ZeroBits(n - 1);
    }
  }

  lemma {:induction false} ValueLeadingZeros(p: nat, bits: seq<bit>)
    ensures Value(Repeat(0, p) + bits) == Value(bits)
  {
    var all := Repeat(0, p) + bits;
    if bits != [] {
      var init := bits[..|bits| - 1];
      ValueLeadingZeros(p, init);
      assert all[..|all| - 1] == Repeat(0, p) + init;
    } else if p > 0 {
      ValueLeadingZeros(p - 1, bits);
      assert all[..|all| - 1] == Repeat(0, p - 1) + bits;
    }
  }

  lemma {:induction false} ValueDropsBits(bits: seq<bit>, s: nat)
    requires s <= |bits|
    ensures Value(bits[..|bits| - s]) == Value(bits) / Pow2(s)
  {
    if s == 0 {
      assert bits[..|bits|] == bits;
    } else {
      var init := bits[..|bits| - 1];
      ValueDropsBits(init, s - 1);
      assert init[..|init| - (s - 1)] == bits[..|bits| - s];
      assert Value(init) == Value(bits) / 2;
      HalvePow(Value(bits), s - 1);
    }
  }

  // ---- The byte shift ---------------------------------------------------------------------------

  /** `a | b` */
  function Or(a: byte, b: byte): byte {
    ByteOf(seq(8, i requires 0 <= i < 8 => if ByteBits(a)[i] == 1 || ByteBits(b)[i] == 1 then 1 else 0))
  }

  lemma OrBits(a: byte, b: byte, i: nat)
    requires i < 8
    ensures ByteBits(Or(a, b))[i] == if ByteBits(a)[i] == 1 || ByteBits(b)[i] == 1 then 1 else 0
  {
    NatBitsOfValue(seq(8, i requires 0 <= i < 8 => if ByteBits(a)[i] == 1 || ByteBits(b)[i] == 1 then 1 else 0));
  }

  /** `b >> s` */
  function Down(b: byte, s: nat): byte {
    Divided(b, Pow2(s));
    b / Pow2(s)
  }

  /** The bits a shift by `s` loses. */
  function Low(b: byte, s: nat): nat {
    b % Pow2(s)
  }

  /** `b << (8 - s)` in eight bits: what a byte passes on to the next. */
  function CarryOf(b: byte, s: nat): byte
    requires s <= 8
  {
    b * Pow2(8 - s) % 256
  }

  lemma MulMonotone(a: nat, b: nat, c: nat)
    requires a <= b
    ensures a * c <= b * c
  {
  }

  lemma Divided(b: nat, p: nat)
    requires p > 0
    ensures b == b / p * p + b % p && b % p < p && 0 <= b / p <= b
  {
    var q := b / p;
    if q >= 1 {
      MulMonotone(1, p, q);
    }
  }

  lemma PowSum(s: nat)
    requires 0 < s < 8
    ensures Pow2(s) * Pow2(8 - s) == 256
  {
    assert Pow2(1) == 2 && Pow2(2) == 4 && Pow2(3) == 8 && Pow2(4) == 16;
    assert Pow2(5) == 32 && Pow2(6) == 64 && Pow2(7) == 128;
  }

  lemma Distribute(q: nat, p: nat, r: nat, k: nat)
    ensures (q * p + r) * k == q * (p * k) + r * k
  {
    assert (q * p) * k == q * (p * k);
  }

  lemma RemainderSmall(r: nat, p: nat, k: nat)
    requires r < p && k > 0
    ensures r * k < p * k
  {
    MulMonotone(r, p - 1, k);
    assert (p - 1) * k == p * k - k;
  }

  lemma CarryArithmetic(b: nat, q: nat, p: nat, r: nat, k: nat)
    requires b == q * p + r && r < p && k > 0 && p * k == 256
    ensures b * k % 256 == r * k
  {
    Distribute(q, p, r, k);
    RemainderSmall(r, p, k);
    DivUnique(b * k, 256, q, r * k);
  }

  lemma CarryValue(b: byte, s: nat)
    requires 0 < s < 8
    ensures CarryOf(b, s) == Low(b, s) * Pow2(8 - s) && Low(b, s) < Pow2(s)
  {
    PowSum(s);
    Divided(b, Pow2(s));
    CarryArithmetic(b, Down(b, s), Pow2(s), Low(b, s), Pow2(8 - s));
  }

  lemma TopArithmetic(b: nat, q: nat, p: nat, r: nat, k: nat)
    requires b == q * p + r && k > 0 && p * k == 256 && b < 256
    ensures q < k
  {
    if q >= k {
      MulMonotone(k, q, p);
    }
  }

  /** A byte is its top bits and its low bits. */
  lemma TopAndLow(b: byte, s: nat)
    requires 0 < s < 8
    ensures Down(b, s) < Pow2(8 - s)
    ensures ByteBits(b) == NatBits(Down(b, s), 8 - s) + NatBits(Low(b, s), s)
  {
    PowSum(s);
    Divided(b, Pow2(s));
    TopArithmetic(b, Down(b, s), Pow2(s), Low(b, s), Pow2(8 - s));
    SplitBits(Down(b, s), Low(b, s), 8 - s, s);
  }

  lemma DownBits(b: byte, s: nat)
    requires 0 < s < 8
    ensures ByteBits(Down(b, s)) == Repeat(0, s) + ByteBits(b)[..8 - s]
  {
    TopAndLow(b, s);
    SplitBits(0, Down(b, s), s, 8 - s);
    ZeroBits(s);
  }

  lemma CarryBits(b: byte, s: nat)
    requires 0 < s < 8
    ensures ByteBits(CarryOf(b, s)) == ByteBits(b)[8 - s..] + Repeat(0, 8 - s)
  {
    TopAndLow(b, s);
    CarryValue(b, s);
    SplitBits(Low(b, s), 0, s, 8 - s);
    ZeroBits(8 - s);
  }

  /** The shifted byte with the carry of the one before it OR-ed in. */
  lemma CombinedByte(before: byte, b: byte, s: nat)
    requires 0 < s < 8
    ensures ByteBits(Or(Down(b, s), CarryOf(before, s))) == ByteBits(before)[8 - s..] + ByteBits(b)[..8 - s]
  {
    var x, y := Down(b, s), CarryOf(before, s);
    DownBits(b, s);
    CarryBits(before, s);
    forall i | 0 <= i < 8 ensures ByteBits(Or(x, y))[i] == (ByteBits(before)[8 - s..] + ByteBits(b)[..8 - s])[i] {
      OrBits(x, y, i);
    }
  }

  /** The byte that precedes position `i`; nothing precedes the first. */
  function Preceding(v: seq<byte>, i: nat): byte
    requires i <= |v|
  {
    if i == 0 then 0 else v[i - 1]
  }

  lemma BitOfByte(v: seq<byte>, i: nat, j: nat)
    requires i < |v| && j < 8
    ensures Bits(v)[8 * i + j] == ByteBits(v[i])[j]
  {
    assert (8 * i + j) / 8 == i && (8 * i + j) % 8 == j;
  }

  lemma ByteSlice(v: seq<byte>, i: nat)
    requires i < |v|
    ensures Bits(v)[8 * i..8 * i + 8] == ByteBits(v[i])
  {
    forall j | 0 <= j < 8 ensures Bits(v)[8 * i..8 * i + 8][j] == ByteBits(v[i])[j] {
      BitOfByte(v, i, j);
    }
  }

  lemma SliceAcross(s: seq<bit>, at: nat, back: nat)
    requires back <= 8 && 8 <= at && at + 8 <= |s|
    ensures s[at - back..at + 8 - back] == s[at - 8..at][8 - back..] + s[at..at + 8][..8 - back]
  {
  }

  lemma SliceShifted(bits: seq<bit>, s: nat, from: nat)
    requires s <= from && from + 8 - s <= |bits|
    ensures (Repeat(0, s) + bits)[from..from + 8] == bits[from - s..from + 8 - s]
  {
  }

  /** The eight bits that end up in byte `i`. */
  lemma WindowBits(v: seq<byte>, s: nat, i: nat)
    requires 0 < s < 8 && i < |v|
    ensures (Repeat(0, s) + Bits(v))[8 * i..8 * i + 8] == ByteBits(Preceding(v, i))[8 - s..] + ByteBits(v[i])[..8 - s]
  {
    ByteSlice(v, i);
    if i > 0 {
      ByteSlice(v, i - 1);
      SliceShifted(Bits(v), s, 8 * i);
      SliceAcross(Bits(v), 8 * i, s);
    } else {
      ZeroBits(8);
      assert (Repeat(0, s) + Bits(v))[0..8] == Repeat(0, 8)[8 - s..] + Bits(v)[0..8][..8 - s];
    }
  }

  lemma ShiftedAt(v: seq<byte>, s: nat, i: nat)
    requires 0 < s < 8 && i < |v|
    ensures Shifted(v, s)[i] == Or(Down(v[i], s), CarryOf(Preceding(v, i), s))
  {
    var o := Or(Down(v[i], s), CarryOf(Preceding(v, i), s));
    CombinedByte(Preceding(v, i), v[i], s);
    WindowBits(v, s, i);
    PackAt((Repeat(0, s) + Bits(v))[..8 * |v|], i);
    SliceOfPrefix(Repeat(0, s) + Bits(v), 8 * |v|, 8 * i);
    ByteOfByteBits(o);
  }

  lemma SliceOfPrefix(s: seq<bit>, n: nat, i: nat)
    requires i + 8 <= n <= |s|
    ensures s[..n][i..i + 8] == s[i..i + 8]
  {
  }

  lemma ByteOfByteBits(b: byte)
    ensures ByteOf(ByteBits(b)) == b
  {
    ValueOfNatBits(b, 8);
  }

  /** Shifting a byte string is dividing the number it denotes by a power of two. */
  lemma ShiftDivides(v: seq<byte>, s: nat)
    requires s < 8 && v != []
    ensures Value(Bits(Shifted(v, s))) == Value(Bits(v)) / Pow2(s)
  {
    var bits := Bits(v);
    BitsOfPack((Repeat(0, s) + bits)[..8 * |v|]);
    assert (Repeat(0, s) + bits)[..8 * |v|] == Repeat(0, s) + bits[..|bits| - s];
    ValueLeadingZeros(s, bits[..|bits| - s]);
    ValueDropsBits(bits, s);
  }

  lemma PaddedValue(bits: seq<bit>, p: nat)
    ensures Value((bits + Repeat(0, p))) / Pow2(p) == Value(bits)
  {
    var padded := bits + Repeat(0, p);
    ValueDropsBits(padded, p);
    assert padded[..|padded| - p] == bits;
  }

  lemma Padding(n: nat)
    ensures 8 * Ceil8(n) - n == (8 - n % 8) % 8 && (n % 8 != 0 ==> Ceil8(n) > 0)
  {
  }

  lemma UnalignedField(data: seq<byte>, off: nat, n: nat, p: nat)
    requires off + n <= 8 * |data| && 0 < p < 8 && 8 * Ceil8(n) - n == p && Ceil8(n) > 0
    ensures Value(Bits(Shifted(Extracted(data, off, n), p))) == Value(Bits(data)[off..off + n])
  {
    ExtractedBits(data, off, n);
    ShiftDivides(Extracted(data, off, n), p);
    PaddedValue(Bits(data)[off..off + n], p);
  }

  lemma AlignedField(data: seq<byte>, off: nat, n: nat)
    requires off + n <= 8 * |data| && n % 8 == 0
    ensures Bits(Extracted(data, off, n)) == Bits(data)[off..off + n]
  {
    ExtractedBits(data, off, n);
  }

  /** Extraction and normalisation give the big-endian number formed by the chosen bits. */
  lemma FieldMeansItsBits(data: seq<byte>, off: nat, n: nat)
    requires off + n <= 8 * |data|
    ensures |Normalized(Extracted(data, off, n), n)| == Ceil8(n)
    ensures Value(Bits(Normalized(Extracted(data, off, n), n))) == Value(Bits(data)[off..off + n])
  {
    if n % 8 == 0 {
      AlignedField(data, off, n);
    } else {
      Padding(n);
      UnalignedField(data, off, n, 8 - n % 8);
      assert Normalized(Extracted(data, off, n), n) == Shifted(Extracted(data, off, n), 8 - n % 8);
    }
  }

  // ---- The loops --------------------------------------------------------------------------------

  /** Copying one bit into a row of zeros. */
  lemma NextBit(source: seq<bit>, i: nat, size: nat)
    requires i < |source| && i < size
    ensures source[..i + 1] + Repeat(0, size - i - 1) == (source[..i] + Repeat(0, size - i))[i := source[i]]
  {
  }

  /** OR-s a bit into a zero. */
  method PlaceBit(out: seq<byte>, i: nat, b: nat) returns (placed: seq<byte>)
    requires i < 8 * |out| && Bits(out)[i] == 0 && b <= 1
    ensures |placed| == |out| && Bits(placed) == Bits(out)[i := b]
  {
    placed := out;
    if b == 1 {
      BitWriting.BitsAfterSet(out, i);
      placed := out[i / 8 := BitWriting.SetBit(out[i / 8], i % 8)];
    }
  }

  /** `extract_bits_be`; reading past the end is refused. */
  method ExtractBitsBe(data: seq<byte>, off: nat, n: nat) returns (res: Option<seq<byte>>)
    ensures n == 0 ==> res == Some([])
    ensures n > 0 ==> res == if off + n > 8 * |data| then None else Some(Extracted(data, off, n))
  {
    if n == 0 {
      return Some([]);
    }
    if off + n > 8 * |data| {
      return None;
    }
    var out: seq<byte> := Repeat(0, (n + 7) / 8);
    BitWriting.ZeroBytes(Ceil8(n));
    ghost var source := Bits(data)[off..off + n];
    ghost var size := 8 * Ceil8(n);
    for i := 0 to n
      invariant 8 * |out| == size && Bits(out) == source[..i] + Repeat(0, size - i)
    {
      BitWriting.SourceBit(data, off + i);
      NextBit(source, i, size);
      out := PlaceBit(out, i, BitWriting.BitAt(data, off + i));
    }
    assert source[..n] == source;
    ExtractedBits(data, off, n);
    PackOfBits(out);
    return Some(out);
  }

  /** `shift_right_bits_be`, for shifts below 8. */
  method ShiftRightBitsBe(v: seq<byte>, s: nat) returns (out: seq<byte>)
    requires s < 8
    ensures out == Shifted(v, s)
  {
    if s == 0 || v == [] {
      assert (Repeat(0, s) + Bits(v))[..8 * |v|] == Bits(v);
      PackOfBits(v);
      return v;
    }
    out := v;
    var carry: byte := 0;
    for i := 0 to |v|
      invariant |out| == |v| && out[i..] == v[i..] && out[..i] == Shifted(v, s)[..i]
      invariant carry == CarryOf(Preceding(v, i), s)
    {
      var newCarry := CarryOf(out[i], s);
      assert out[i] == out[i..][0] == v[i..][0] == v[i];
      ShiftedAt(v, s, i);
      out := out[i := Or(Down(out[i], s), carry)];
      carry := newCarry;
    }
  }

  /** `normalize_extracted_value` */
  method NormalizeExtractedValue(v: seq<byte>, bitLength: nat) returns (out: seq<byte>)
    ensures out == Normalized(v, bitLength)
  {
    var rem := bitLength % 8;
    if rem == 0 || v == [] {
      return v;
    }
    out := ShiftRightBitsBe(v, 8 - rem);
  }
}
