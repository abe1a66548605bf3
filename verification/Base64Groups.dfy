/** What base64 text looks like: three bytes make four symbols of the alphabet of section 4 of RFC 4648,
    and one or two bytes left over are padded. */
module Base64Groups {
  import opened Bytes
  import opened Base64
  import BitFields

  const UPPER: string := "ABCDEFGHIJKLMNOPQRSTUVWXYZ"
  const LOWER: string := "abcdefghijklmnopqrstuvwxyz"
  const NUMERALS: string := "0123456789"

  lemma Uppers(d: nat)
    requires d < 26
    ensures UPPER[d] as int == 65 + d
  {
  }

  lemma Lowers(d: nat)
    requires d < 26
    ensures LOWER[d] as int == 97 + d
  {
  }

  lemma Numerals(d: nat)
    requires d < 10
    ensures NUMERALS[d] as int == 48 + d
  {
  }

  /** The alphabet of table 1 of RFC 4648, in order. */
  lemma SymbolsOfAlphabet(d: nat)
    requires d < 64
    ensures Symbol(d) == (UPPER + LOWER + NUMERALS + "+/")[d] as int
  {
    if d < 26 {
      Uppers(d);
    } else if d < 52 {
      Lowers(d - 26);
    } else if d < 62 {
      Numerals(d - 52);
    } else {
      assert (UPPER + LOWER + NUMERALS + "+/")[d] == "+/"[d - 62];
    }
  }

  // ---- Six bits at a time -------------------------------------------------------------------------

  lemma DigitOfNumber(d: nat)
    requires d < 64
    ensures DigitOf(NatBits(d, 6)) == d
  {
    assert Pow2(6) == 64;
    ValueOfNatBits(d, 6);
  }

  lemma SmallPowers()
    ensures Pow2(2) == 4 && Pow2(4) == 16 && Pow2(6) == 64
  {
  }

  lemma HighSix(a: byte, h: nat, l: nat)
    requires a == 4 * h + l && l < 4
    ensures ByteBits(a) == NatBits(h, 6) + NatBits(l, 2)
  {
    SmallPowers();
    BitFields.SplitBits(h, l, 6, 2);
  }

  lemma TwoHalves(b: byte, h: nat, l: nat)
    requires b == 16 * h + l && l < 16
    ensures ByteBits(b) == NatBits(h, 4) + NatBits(l, 4)
  {
    SmallPowers();
    assert h * Pow2(4) == 16 * h;
    BitFields.SplitBits(h, l, 4, 4);
  }

  lemma LowSix(c: byte, h: nat, l: nat)
    requires c == 64 * h + l && l < 64
    ensures ByteBits(c) == NatBits(h, 2) + NatBits(l, 6)
  {
    SmallPowers();
    BitFields.SplitBits(h, l, 2, 6);
  }

  lemma TwoThenFour(a: nat, b: nat)
    requires b < 16
    ensures NatBits(16 * a + b, 6) == NatBits(a, 2) + NatBits(b, 4)
  {
    SmallPowers();
    assert a * Pow2(4) == 16 * a;
    BitFields.SplitBits(a, b, 2, 4);
  }

  lemma FourThenTwo(b: nat, a: nat)
    requires a < 4
    ensures NatBits(4 * b + a, 6) == NatBits(b, 4) + NatBits(a, 2)
  {
    SmallPowers();
    assert b * Pow2(2) == 4 * b;
    BitFields.SplitBits(b, a, 4, 2);
  }

  lemma ThreeBytes(a: byte, b: byte, c: byte)
    ensures Bits([a, b, c]) == ByteBits(a) + ByteBits(b) + ByteBits(c)
  {
  }

  lemma FourGroups(bits: seq<bit>, x: seq<bit>, y: seq<bit>, z: seq<bit>, p: seq<bit>, q: seq<bit>, r: seq<bit>,
                   s: seq<bit>, t: seq<bit>, u: seq<bit>, qr: seq<bit>, st: seq<bit>)
    requires bits == x + y + z && x == p + q && y == r + s && z == t + u && qr == q + r && st == s + t
    ensures bits == p + qr + st + u
  {
  }

  lemma SixBitGroups(a: byte, b: byte, c: byte, ah: nat, al: nat, bh: nat, bl: nat, ch: nat, cl: nat)
    requires a == 4 * ah + al && al < 4 && b == 16 * bh + bl && bl < 16 && bh < 16 && c == 64 * ch + cl && cl < 64 && ch < 4
    ensures Bits([a, b, c]) == NatBits(ah, 6) + NatBits(16 * al + bh, 6) + NatBits(4 * bl + ch, 6) + NatBits(cl, 6)
  {
    ThreeBytes(a, b, c);
    HighSix(a, ah, al);
    TwoHalves(b, bh, bl);
    LowSix(c, ch, cl);
    TwoThenFour(al, bh);
    FourThenTwo(bl, ch);
    FourGroups(Bits([a, b, c]), ByteBits(a), ByteBits(b), ByteBits(c),
               NatBits(ah, 6), NatBits(al, 2), NatBits(bh, 4), NatBits(bl, 4), NatBits(ch, 2), NatBits(cl, 6),
               NatBits(16 * al + bh, 6), NatBits(4 * bl + ch, 6));
  }

  lemma DigitsAppend(x: seq<bit>, n: nat, y: seq<bit>, k: nat)
    requires |x| == 6 * n && 6 * k <= |y|
    ensures Digits(x + y, n + k) == Digits(x, n) + Digits(y, k)
  {
    forall i | 0 <= i < n + k ensures Digits(x + y, n + k)[i] == (Digits(x, n) + Digits(y, k))[i] {
      if i < n {
        assert (x + y)[6 * i..6 * i + 6] == x[6 * i..6 * i + 6];
      } else {
        assert (x + y)[6 * i..6 * i + 6] == y[6 * (i - n)..6 * (i - n) + 6];
      }
    }
  }

  lemma OneDigit(d: nat)
    requires d < 64
    ensures Digits(NatBits(d, 6), 1) == [d]
  {
    DigitOfNumber(d);
    assert NatBits(d, 6)[0..6] == NatBits(d, 6);
  }

  lemma TwoDigits(d: nat, e: nat)
    requires d < 64 && e < 64
    ensures Digits(NatBits(d, 6) + NatBits(e, 6), 2) == [d, e]
  {
    OneDigit(d);
    OneDigit(e);
    DigitsAppend(NatBits(d, 6), 1, NatBits(e, 6), 1);
  }

  lemma FourDigits(d: nat, e: nat, f: nat, g: nat)
    requires d < 64 && e < 64 && f < 64 && g < 64
    ensures Digits(NatBits(d, 6) + NatBits(e, 6) + NatBits(f, 6) + NatBits(g, 6), 4) == [d, e, f, g]
  {
    TwoDigits(d, e);
    TwoDigits(f, g);
    DigitsAppend(NatBits(d, 6) + NatBits(e, 6), 2, NatBits(f, 6) + NatBits(g, 6), 2);
    assert NatBits(d, 6) + NatBits(e, 6) + NatBits(f, 6) + NatBits(g, 6)
        == NatBits(d, 6) + NatBits(e, 6) + (NatBits(f, 6) + NatBits(g, 6));
  }

  // ---- Groups of three bytes ----------------------------------------------------------------------

  function Group(a: byte, b: byte, c: byte): seq<byte> {
    [Symbol(a / 4), Symbol(16 * (a % 4) + b / 16), Symbol(4 * (b % 16) + c / 64), Symbol(c % 64)]
  }

  lemma FilledAfterGroup(group: seq<byte>, rest: seq<byte>)
    requires |group| == 3
    ensures Filled(Bits(group + rest)) == Bits(group) + Filled(Bits(rest))
    ensures DigitsFor(8 * |group + rest|) == 4 + DigitsFor(8 * |rest|)
  {
    BitsAppend(group, rest);
    var k := DigitsFor(8 * |rest|);
    assert DigitsFor(8 * |group + rest|) == 4 + k;
    Regrouped([], Bits(group), Bits(rest), Repeat(0, 6 * k - 8 * |rest|));
    assert [] + Bits(group) == Bits(group);
  }

  lemma PaddedAfterGroup(group: seq<byte>, text: seq<byte>)
    requires |group| == 4
    ensures Padded(group + text) == group + Padded(text)
  {
    assert |group + text| % 4 == |text| % 4;
  }

  lemma SymbolsAppend(x: seq<digit>, y: seq<digit>)
    ensures Symbols(x + y) == Symbols(x) + Symbols(y)
  {
  }

  lemma GroupDigits(a: byte, b: byte, c: byte)
    ensures Symbols(Digits(Bits([a, b, c]), 4)) == Group(a, b, c)
  {
    SixBitGroups(a, b, c, a / 4, a % 4, b / 16, b % 16, c / 64, c % 64);
    FourDigits(a / 4, 16 * (a % 4) + b / 16, 4 * (b % 16) + c / 64, c % 64);
  }

  lemma GroupFirst(a: byte, b: byte, c: byte, rest: seq<byte>)
    ensures Encoded([a, b, c] + rest) == Group(a, b, c) + Encoded(rest)
  {
    var group := [a, b, c];
    var k := DigitsFor(8 * |rest|);
    FilledAfterGroup(group, rest);
    DigitsAppend(Bits(group), 4, Filled(Bits(rest)), k);
    SymbolsAppend(Digits(Bits(group), 4), Digits(Filled(Bits(rest)), k));
    GroupDigits(a, b, c);
    PaddedAfterGroup(Group(a, b, c), Symbols(Digits(Filled(Bits(rest)), k)));
  }

  lemma OneByteBits(a: byte)
    ensures Bits([a]) == ByteBits(a)
  {
  }

  lemma TwoByteBits(a: byte, b: byte)
    ensures Bits([a, b]) == ByteBits(a) + ByteBits(b)
  {
  }

  /** The last digits of a text whose bits are given in groups. */
  lemma OneGroupLeft(data: seq<byte>, bits: seq<bit>, p: seq<bit>, q: seq<bit>, qz: seq<bit>)
    requires |data| == 1 && Bits(data) == p + q && |p| == 6 && |q| == 2 && qz == q + Repeat(0, 4)
    ensures Filled(Bits(data)) == p + qz && DigitsFor(8 * |data|) == 2
  {
    assert DigitsFor(8) == 2;
  }

  lemma TwoGroupsLeft(data: seq<byte>, x: seq<bit>, y: seq<bit>, p: seq<bit>, q: seq<bit>, r: seq<bit>, s: seq<bit>, qr: seq<bit>, sz: seq<bit>)
    requires |data| == 2 && Bits(data) == x + y && x == p + q && y == r + s && |p| == 6 && |q| == 2 && |r| == |s| == 4
    requires qr == q + r && sz == s + Repeat(0, 2)
    ensures Filled(Bits(data)) == p + qr + sz && DigitsFor(8 * |data|) == 3
  {
    assert DigitsFor(16) == 3;
  }

  lemma OneByteLeft(a: byte, h: nat, l: nat)
    requires a == 4 * h + l && l < 4
    ensures Encoded([a]) == [Symbol(h), Symbol(16 * l), PAD, PAD]
  {
    OneByteBits(a);
    HighSix(a, h, l);
    BitFields.ZeroBits(4);
    TwoThenFour(l, 0);
    OneGroupLeft([a], Bits([a]), NatBits(h, 6), NatBits(l, 2), NatBits(16 * l, 6));
    TwoDigits(h, 16 * l);
    TextOf([a], [h, 16 * l]);
  }

  lemma TextOf(data: seq<byte>, ds: seq<digit>)
    requires Digits(Filled(Bits(data)), DigitsFor(8 * |data|)) == ds
    ensures Encoded(data) == Padded(Symbols(ds))
  {
  }

  lemma TwoBytesLeft(a: byte, b: byte, ah: nat, al: nat, bh: nat, bl: nat)
    requires a == 4 * ah + al && al < 4 && b == 16 * bh + bl && bl < 16 && bh < 16
    ensures Encoded([a, b]) == [Symbol(ah), Symbol(16 * al + bh), Symbol(4 * bl), PAD]
  {
    LastTwoBits(a, b, ah, al, bh, bl);
    ThreeDigits(ah, 16 * al + bh, 4 * bl);
    TextOf([a, b], [ah, 16 * al + bh, 4 * bl]);
  }

  lemma LastTwoBits(a: byte, b: byte, ah: nat, al: nat, bh: nat, bl: nat)
    requires a == 4 * ah + al && al < 4 && b == 16 * bh + bl && bl < 16 && bh < 16
    ensures Filled(Bits([a, b])) == NatBits(ah, 6) + NatBits(16 * al + bh, 6) + NatBits(4 * bl, 6) && DigitsFor(8 * |[a, b]|) == 3
  {
    TwoByteBits(a, b);
    HighSix(a, ah, al);
    TwoHalves(b, bh, bl);
    LastNibble(bl);
    TwoThenFour(al, bh);
    TwoGroupsLeft([a, b], ByteBits(a), ByteBits(b), NatBits(ah, 6), NatBits(al, 2), NatBits(bh, 4), NatBits(bl, 4),
                  NatBits(16 * al + bh, 6), NatBits(4 * bl, 6));
  }

  lemma LastNibble(bl: nat)
    ensures NatBits(4 * bl, 6) == NatBits(bl, 4) + Repeat(0, 2)
  {
    BitFields.ZeroBits(2);
    FourThenTwo(bl, 0);
  }

  lemma ThreeDigits(d: nat, e: nat, f: nat)
    requires d < 64 && e < 64 && f < 64
    ensures Digits(NatBits(d, 6) + NatBits(e, 6) + NatBits(f, 6), 3) == [d, e, f]
  {
    TwoDigits(d, e);
    OneDigit(f);
    DigitsAppend(NatBits(d, 6) + NatBits(e, 6), 2, NatBits(f, 6), 1);
  }

  /** The last symbols of a text. */
  function Tail(data: seq<byte>): seq<byte>
    requires 1 <= |data| <= 2
  {
    if |data| == 1 then [Symbol(data[0] / 4), Symbol(16 * (data[0] % 4)), PAD, PAD]
    else [Symbol(data[0] / 4), Symbol(16 * (data[0] % 4) + data[1] / 16), Symbol(4 * (data[1] % 16)), PAD]
  }

  lemma EncodedTail(data: seq<byte>)
    requires 1 <= |data| <= 2
    ensures Encoded(data) == Tail(data)
  {
    var a := data[0];
    if |data| == 1 {
      OneByteLeft(a, a / 4, a % 4);
      assert data == [a];
    } else {
      var b := data[1];
      TwoBytesLeft(a, b, a / 4, a % 4, b / 16, b % 16);
      assert data == [a, b];
    }
  }

  lemma EncodedNothing()
    ensures Encoded([]) == []
  {
  }

  /** Base64 as section 4 of RFC 4648 defines it, for byte strings of any length. */
  lemma EncodedInGroups(data: seq<byte>)
    ensures data == [] ==> Encoded(data) == []
    ensures 1 <= |data| <= 2 ==> Encoded(data) == Tail(data)
    ensures |data| >= 3 ==> Encoded(data) == Group(data[0], data[1], data[2]) + Encoded(data[3..])
  {
    if |data| >= 3 {
      GroupFirst(data[0], data[1], data[2], data[3..]);
      assert data == [data[0], data[1], data[2]] + data[3..];
    } else if data != [] {
      EncodedTail(data);
    } else {
      EncodedNothing();
    }
  }
}
