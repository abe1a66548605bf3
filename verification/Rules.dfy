/** SCHC rules and parsed headers, the matching operators, and the bit helpers of the compressor. */
module Rules {
  import opened Bytes
  import BitFields
  import BitWriting

  datatype Nature = Compression | NoCompression | Fragmentation
  datatype Direction = Up | Down | Bi
  datatype Operator = Ignore | Equal | MatchMapping | Msb | UnknownOperator
  datatype Action = NotSent | ValueSent | MappingSent | Lsb | OtherAction

  /** The field length of an entry: of type FIXED with a number of bits, or another type. */
  datatype FieldLength = Fixed(bits: nat) | Variable

  /** One line of a rule. */
  datatype Entry = Entry(fid: string, length: FieldLength, values: seq<seq<byte>>, direction: Direction, operator: Operator,
                         msbLength: nat, action: Action)

  datatype Rule = Rule(id: nat, idLength: nat, nature: Nature, entries: seq<Entry>)

  /** A header field: its value right-aligned in bytes, and its exact length in bits. */
  datatype Field = Field(fid: string, value: seq<byte>, bitLength: nat)

  // ---- Bit helpers ------------------------------------------------------------------------------

  /** `value_size_in_bits`: the least number of bits, at least one, that hold `n`. */
  method ValueSizeInBits(n: nat) returns (bits: nat)
    ensures bits == SizeInBits(n)
  {
    var m: nat := n;
    bits := 0;
    while m > 0
      invariant m <= n && (m > 0 ==> SizeInBits(n) == bits + SizeInBits(m))
      invariant m == 0 ==> bits == if n == 0 then 0 else SizeInBits(n)
      decreases m
    {
      m := m / 2;
      bits := bits + 1;
    }
    if bits == 0 {
      bits := 1;
    }
  }

  function SizeInBits(n: nat): (b: nat)
    ensures b >= 1
  {
    if n < 2 then 1 else 1 + SizeInBits(n / 2)
  }

  lemma {:induction false} SizeIsLeast(n: nat)
    ensures n < Pow2(SizeInBits(n)) && (n > 0 ==> Pow2(SizeInBits(n) - 1) <= n)
  {
    if n >= 2 {
      SizeIsLeast(n / 2);
    } else {
      assert Pow2(1) == 2;
    }
  }

  /** The first `msb` bits of two values agree; too short a value agrees with nothing. */
  predicate MsbAgree(a: seq<byte>, b: seq<byte>, msb: nat) {
    msb <= 8 * |a| && msb <= 8 * |b| && Bits(a)[..msb] == Bits(b)[..msb]
  }

  /** `b & (0xFF << k)` */
  function HighPart(b: byte, k: nat): nat {
    BitFields.Down(b, k) * Pow2(k)
  }

  lemma EqualHighParts(a: byte, b: byte, k: nat)
    requires 0 < k < 8
    ensures HighPart(a, k) == HighPart(b, k) <==> ByteBits(a)[..8 - k] == ByteBits(b)[..8 - k]
  {
    BitFields.TopAndLow(a, k);
    BitFields.TopAndLow(b, k);
    var p, q := BitFields.Down(a, k), BitFields.Down(b, k);
    assert ByteBits(a)[..8 - k] == NatBits(p, 8 - k) && ByteBits(b)[..8 - k] == NatBits(q, 8 - k);
    ValueOfNatBits(p, 8 - k);
    ValueOfNatBits(q, 8 - k);
    ProductsEqual(p, q, Pow2(k));
  }

  lemma ProductsEqual(p: nat, q: nat, m: nat)
    requires m > 0
    ensures p * m == q * m <==> p == q
  {
    if p < q {
      BitFields.RemainderSmall(p, q, m);
    } else if q < p {
      BitFields.RemainderSmall(q, p, m);
    }
  }

  lemma AroundByte(a: seq<byte>, n: nat)
    requires n < |a|
    ensures Bits(a) == Bits(a[..n]) + ByteBits(a[n]) + Bits(a[n + 1..])
  {
    assert a == a[..n] + [a[n]] + a[n + 1..];
    BitsAppend(a[..n], [a[n]]);
    BitsAppend(a[..n] + [a[n]], a[n + 1..]);
    assert Bits([a[n]]) == ByteBits(a[n]);
  }

  lemma PrefixOfThree<T>(a: seq<T>, b: seq<T>, c: seq<T>, k: nat)
    requires k <= |b|
    ensures (a + b + c)[..|a| + k] == a + b[..k]
  {
  }

  lemma SuffixOfThree<T>(a: seq<T>, b: seq<T>, c: seq<T>, k: nat)
    requires k <= |b|
    ensures (a + b + c)[|a| + |b| - k..] == b[|b| - k..] + c
  {
  }

  /** Bit prefixes are whole bytes and the top of one more. */
  lemma PrefixBits(a: seq<byte>, n: nat, rem: nat)
    requires rem < 8 && 8 * n + rem <= 8 * |a|
    ensures Bits(a)[..8 * n + rem] == Bits(a[..n]) + if rem > 0 then ByteBits(a[n])[..rem] else []
  {
    if rem > 0 {
      AroundByte(a, n);
      PrefixOfThree(Bits(a[..n]), ByteBits(a[n]), Bits(a[n + 1..]), rem);
    } else {
      BitWriting.BitsPrefix(a, n);
    }
  }

  lemma BitsInjective(a: seq<byte>, b: seq<byte>)
    requires Bits(a) == Bits(b)
    ensures a == b
  {
    PackOfBits(a);
    PackOfBits(b);
  }

  lemma AgreeByParts(a: seq<byte>, b: seq<byte>, n: nat, rem: nat)
    requires rem < 8 && 8 * n + rem <= 8 * |a| && 8 * n + rem <= 8 * |b|
    ensures MsbAgree(a, b, 8 * n + rem)
            <==> a[..n] == b[..n] && (rem > 0 ==> ByteBits(a[n])[..rem] == ByteBits(b[n])[..rem])
  {
    PrefixBits(a, n, rem);
    PrefixBits(b, n, rem);
    var x, y := Bits(a)[..8 * n + rem], Bits(b)[..8 * n + rem];
    if x == y {
      assert x[..8 * n] == Bits(a[..n]) && y[..8 * n] == Bits(b[..n]);
      BitsInjective(a[..n], b[..n]);
      if rem > 0 {
        assert x[8 * n..] == ByteBits(a[n])[..rem] && y[8 * n..] == ByteBits(b[n])[..rem];
      }
    }
  }

  /** `msb_comparator` */
  method MsbComparator(a: seq<byte>, b: seq<byte>, msb: nat) returns (agree: bool)
    ensures agree == MsbAgree(a, b, msb)
  {
    var n, rem := msb / 8, msb % 8;
    if |a| < n + (if rem > 0 then 1 else 0) || |b| < n + (if rem > 0 then 1 else 0) {
      return false;
    }
    AgreeByParts(a, b, n, rem);
    for i := 0 to n
      invariant a[..i] == b[..i]
    {
      if a[i] != b[i] {
        assert a[..n][i] != b[..n][i];
        return false;
      }
    }
    if rem > 0 {
      EqualHighParts(a[n], b[n], 8 - rem);
      if HighPart(a[n], 8 - rem) != HighPart(b[n], 8 - rem) {
        return false;
      }
    }
    return true;
  }

  function Min(a: nat, b: nat): nat { if a < b then a else b }

  /** The low bits of a value, never more than sixteen. */
  function LowBits(value: seq<byte>, bits: nat): nat {
    Value(Last(Bits(value), Min(bits, 16)))
  }

  function Last(bits: seq<bit>, n: nat): (l: seq<bit>)
    ensures |l| == Min(n, |bits|)
  {
    if n >= |bits| then bits else bits[|bits| - n..]
  }

  /** `b & ((1 << take) - 1)` */
  function LowPart(b: byte, take: nat): nat {
    BitFields.Low(b, take)
  }

  /** `v << k` */
  function Scaled(v: nat, k: nat): nat {
    v * Pow2(k)
  }

  /** `out | (part << shift)`, where `out` has only lower bits. */
  function OrAbove(out: nat, part: nat, shift: nat): nat
    requires out < Pow2(shift)
  {
    Scaled(part, shift) + out
  }

  lemma ScaledTwice(v: nat, k: nat)
    requires k > 0
    ensures Scaled(v, k) == 2 * Scaled(v, k - 1)
  {
    assert v * (2 * Pow2(k - 1)) == 2 * (v * Pow2(k - 1));
  }

  lemma {:induction false} ValueOfConcat(a: seq<bit>, b: seq<bit>)
    ensures Value(a + b) == Scaled(Value(a), |b|) + Value(b)
  {
    if b == [] {
      assert a + b == a;
    } else {
      var init := b[..|b| - 1];
      ValueOfConcat(a, init);
      assert (a + b)[..|a + b| - 1] == a + init;
      ScaledTwice(Value(a), |b|);
    }
  }

  /** The last bits of a value: some of one byte, then all of the bytes after it. */
  lemma LastBits(value: seq<byte>, n: nat, take: nat)
    requires n < |value| && take <= 8
    ensures Last(Bits(value), 8 * (|value| - 1 - n) + take) == ByteBits(value[n])[8 - take..] + Bits(value[n + 1..])
  {
    AroundByte(value, n);
    SuffixOfThree(Bits(value[..n]), ByteBits(value[n]), Bits(value[n + 1..]), take);
  }

  lemma LowOfByte(b: byte, take: nat)
    requires 0 < take <= 8
    ensures LowPart(b, take) == Value(ByteBits(b)[8 - take..])
  {
    if take == 8 {
      assert Pow2(8) == 256 && ByteBits(b)[0..] == ByteBits(b);
      ValueOfNatBits(b, 8);
    } else {
      BitFields.TopAndLow(b, take);
      BitFields.Divided(b, Pow2(take));
      assert ByteBits(b)[8 - take..] == NatBits(BitFields.Low(b, take), take);
      ValueOfNatBits(BitFields.Low(b, take), take);
    }
  }

  lemma WholeSuffix(value: seq<byte>, k: nat)
    requires k <= |value|
    ensures Last(Bits(value), 8 * (|value| - k)) == Bits(value[k..])
  {
    BitsAppend(value[..k], value[k..]);
    assert value[..k] + value[k..] == value;
  }

  /** What `lsb_extractor` holds after the bytes from `from` on, with `left` bits of `n` still to take. */
  predicate Collected(value: seq<byte>, n: nat, from: nat, left: nat, out: nat) {
    && from <= |value| && left <= n
    && if left > 0 then n - left == 8 * (|value| - from) && out == Value(Bits(value[from..]))
       else out == Value(Last(Bits(value), n))
  }

  method MaskByte(b: byte, take: nat) returns (part: nat)
    requires 0 < take <= 8
    ensures part == Value(ByteBits(b)[8 - take..])
  {
    LowOfByte(b, take);
    part := LowPart(b, take);
  }

  /** Puts the number of a bit string above that of another. */
  method PutAbove(out: nat, part: nat, ghost high: seq<bit>, ghost low: seq<bit>, shift: nat) returns (r: nat)
    requires out == Value(low) && part == Value(high) && shift == |low|
    ensures r == Value(high + low)
  {
    NatBitsOfValue(low);
    ValueOfConcat(high, low);
    r := OrAbove(out, part, shift);
  }

  method CollectNext(value: seq<byte>, n: nat, i: nat, left: nat, out: nat) returns (left': nat, out': nat)
    requires i < |value| && Collected(value, n, i + 1, left, out) && left > 0
    ensures Collected(value, n, i, left', out') && left' < left
  {
    var take := if left >= 8 then 8 else left;
    var part := MaskByte(value[i], take);
    ghost var high, low := ByteBits(value[i])[8 - take..], Bits(value[i + 1..]);
    out' := PutAbove(out, part, high, low, n - left);
    left' := left - take;
    CollectedOne(value, n, i, left, take);
  }

  /** The low bits of a byte put above the bits of the bytes after it. */
  lemma CollectedOne(value: seq<byte>, n: nat, i: nat, left: nat, take: nat)
    requires i < |value| && 0 < left <= n && n - left == 8 * (|value| - 1 - i) && take == (if left >= 8 then 8 else left)
    ensures Collected(value, n, i, left - take, Value(ByteBits(value[i])[8 - take..] + Bits(value[i + 1..])))
  {
    LastBits(value, i, take);
    WholeSuffix(value, i);
  }

  /** `lsb_extractor` */
  method LsbExtractor(value: seq<byte>, bits: nat) returns (out: nat)
    ensures out == LowBits(value, bits)
  {
    if bits == 0 {
      assert Last(Bits(value), 0) == [];
      return 0;
    }
    var n := if bits > 16 then 16 else bits;
    out := 0;
    var left: nat, pos: nat := n, 0;
    assert Bits(value[|value|..]) == [];
    while pos < |value| && left > 0
      invariant pos <= |value| && Collected(value, n, |value| - pos, left, out)
      decreases left
    {
      left, out := CollectNext(value, n, |value| - 1 - pos, left, out);
      pos := pos + 1;
    }
    assert value[0..] == value;
  }
}
