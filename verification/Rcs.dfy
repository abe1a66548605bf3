/** The Reassembly Check Sequence: reflected CRC-32 with polynomial 0xEDB88320, computed on a
    32-bit register kept as its bits, most significant first. */
module Rcs {
  import opened Bytes

  type word = w: seq<bit> | |w| == 32 witness seq(32, _ => 0)

  const ZERO: word := Repeat(0, 32)
  const ONES: word := Repeat(1, 32)
  const POLYNOMIAL: word := Bits([0xED, 0xB8, 0x83, 0x20])

  function Xor(x: word, y: word): word {
    seq(32, i requires 0 <= i < 32 => if x[i] == y[i] then 0 else 1)
  }

  /** `x >> 1` */
  function ShiftRight(x: word): word {
    [0] + x[..31]
  }

  /** `x << 8` */
  function ShiftLeft8(x: word): word {
    x[8..] + Repeat(0, 8)
  }

  /** A byte promoted to 32 bits. */
  function Word(b: byte): word {
    Repeat(0, 24) + Bits([b])
  }

  /** One round of the inner loop: shift out the low bit, folding the polynomial in if it was set. */
  function Shift(crc: word): word {
    if crc[31] == 1 then Xor(ShiftRight(crc), POLYNOMIAL) else ShiftRight(crc)
  }

  function Shifts(crc: word, n: nat): word {
    if n == 0 then crc else Shift(Shifts(crc, n - 1))
  }

  /** The register after a byte string, starting from `crc`. */
  function Feed(crc: word, msg: seq<byte>): word
    decreases |msg|
  {
    if msg == [] then crc else Feed(Shifts(Xor(crc, Word(msg[0])), 8), msg[1..])
  }

  function Crc32(msg: seq<byte>): word {
    Xor(Feed(ONES, msg), ONES)
  }

  /** `calculate_crc32` */
  method CalculateCrc32(msg: seq<byte>) returns (rcs: word)
    ensures rcs == Crc32(msg)
  {
    var crc := ONES;
    for i := 0 to |msg|
      invariant Feed(crc, msg[i..]) == Feed(ONES, msg)
    {
      ghost var before := crc;
      assert msg[i..][1..] == msg[i + 1..];
      crc := Xor(crc, Word(msg[i]));
      ghost var mixed := crc;
      for j := 0 to 8
        invariant crc == Shifts(mixed, j)
      {
        if crc[31] == 1 {
          crc := Xor(ShiftRight(crc), POLYNOMIAL);
        } else {
          crc := ShiftRight(crc);
        }
      }
    }
    return Xor(crc, ONES);
  }

  // ---- The register as a vector space -----------------------------------------------------

  lemma XorCancels(x: word, y: word)
    ensures Xor(Xor(x, y), y) == x && Xor(x, ZERO) == x && Xor(x, x) == ZERO
  {
  }

  lemma XorZero(x: word, y: word)
    requires Xor(x, y) == ZERO
    ensures x == y
  {
    forall i | 0 <= i < 32 ensures x[i] == y[i] {
      assert Xor(x, y)[i] == ZERO[i];
    }
  }

  lemma ShiftLinear(x: word, y: word)
    ensures Shift(Xor(x, y)) == Xor(Shift(x), Shift(y))
  {
  }

  lemma {:induction false} ShiftsLinear(x: word, y: word, n: nat)
    ensures Shifts(Xor(x, y), n) == Xor(Shifts(x, n), Shifts(y, n))
  {
    if n == 0 {
    } else {
      ShiftsLinear(x, y, n - 1);
      ShiftLinear(Shifts(x, n - 1), Shifts(y, n - 1));
    }
  }

  /** The polynomial's top bit is set, so the top bit of the result tells which branch was taken. */
  lemma TopBit(x: word)
    ensures Shift(x)[0] == x[31]
  {
    PolynomialTop();
  }

  lemma PolynomialTop()
    ensures POLYNOMIAL[0] == 1
  {
    var b: byte := 0xED;
    NatBitAt(b, 8, 0);
    assert Pow2(7) == 128;
    assert POLYNOMIAL[0] == ByteBits([b, 0xB8, 0x83, 0x20][0])[0];
  }

  lemma ShiftInjective(x: word, y: word)
    requires Shift(x) == Shift(y)
    ensures x == y
  {
    TopBit(x);
    TopBit(y);
    forall i | 0 <= i < 31 ensures x[i] == y[i] {
      assert Shift(x)[i + 1] == Shift(y)[i + 1];
      assert ShiftRight(x)[i + 1] == x[i] && ShiftRight(y)[i + 1] == y[i];
    }
  }

  lemma {:induction false} ShiftsInjective(x: word, y: word, n: nat)
    requires Shifts(x, n) == Shifts(y, n)
    ensures x == y
  {
    if n == 0 {
    } else {
      ShiftInjective(Shifts(x, n - 1), Shifts(y, n - 1));
      ShiftsInjective(x, y, n - 1);
    }
  }

  lemma {:induction false} FeedInjective(x: word, y: word, msg: seq<byte>)
    requires Feed(x, msg) == Feed(y, msg)
    ensures x == y
    decreases |msg|
  {
    if msg == [] {
    } else {
      var w := Word(msg[0]);
      FeedInjective(Shifts(Xor(x, w), 8), Shifts(Xor(y, w), 8), msg[1..]);
      ShiftsInjective(Xor(x, w), Xor(y, w), 8);
      XorCancels(x, w);
      XorCancels(y, w);
    }
  }

  lemma {:induction false} FeedAppend(x: word, a: seq<byte>, b: seq<byte>)
    ensures Feed(x, a + b) == Feed(Feed(x, a), b)
    decreases |a|
  {
    if a == [] {
      assert a + b == b;
    } else {
      assert (a + b)[1..] == a[1..] + b;
      FeedAppend(Shifts(Xor(x, Word(a[0])), 8), a[1..], b);
    }
  }

  // ---- Burst detection --------------------------------------------------------------------

  /** Undoing `n` rounds is a left shift by `n` as long as the top `n` bits are clear. */
  lemma {:induction false} UnShifts(x: word, n: nat)
    requires n <= 32 && forall i :: 0 <= i < n ==> Shifts(x, n)[i] == 0
    ensures forall i :: 0 <= i < 32 - n ==> x[i] == Shifts(x, n)[i + n]
    ensures forall i :: 32 - n <= i < 32 ==> x[i] == 0
  {
    if n == 0 {
    } else {
      var y := Shifts(x, n - 1);
      TopBit(y);
      assert Shifts(x, n)[0] == 0 && y[31] == 0;
      assert Shift(y) == ShiftRight(y);
      assert forall i :: 0 <= i < 31 ==> y[i] == Shift(y)[i + 1];
      UnShifts(x, n - 1);
    }
  }

  /** The differences of two byte strings as one little-endian word. */
  ghost function Differences(a: seq<byte>, b: seq<byte>): word
    requires |a| == |b|
    decreases |a|
  {
    if a == [] then ZERO
    else Xor(Xor(Word(a[0]), Word(b[0])), ShiftLeft8(Differences(a[1..], b[1..])))
  }

  lemma {:induction false} DifferencesSmall(a: seq<byte>, b: seq<byte>)
    requires |a| == |b| <= 4
    ensures forall i :: 0 <= i < 32 - 8 * |a| ==> Differences(a, b)[i] == 0
    decreases |a|
  {
    if a == [] {
    } else {
      DifferencesSmall(a[1..], b[1..]);
      var d := Differences(a[1..], b[1..]);
      assert forall i :: 0 <= i < 24 ==> ShiftLeft8(d)[i] == d[i + 8];
    }
  }

  /** Two registers that agree after at most four bytes each started apart by exactly the
      differences of those bytes. */
  lemma {:induction false} BackwardsDifferences(x: word, y: word, a: seq<byte>, b: seq<byte>)
    requires |a| == |b| <= 4
    requires Feed(x, a) == Feed(y, b)
    ensures Xor(x, y) == Differences(a, b)
    decreases |a|
  {
    if a == [] {
      XorCancels(x, y);
    } else {
      var u, v := Xor(x, Word(a[0])), Xor(y, Word(b[0]));
      var d := Differences(a[1..], b[1..]);
      BackwardsDifferences(Shifts(u, 8), Shifts(v, 8), a[1..], b[1..]);
      ShiftsLinear(u, v, 8);
      DifferencesSmall(a[1..], b[1..]);
      UnShifts(Xor(u, v), 8);
      assert Xor(u, v) == ShiftLeft8(d);
      Regroup(x, y, Word(a[0]), Word(b[0]));
    }
  }

  lemma Regroup(x: word, y: word, p: word, q: word)
    ensures Xor(x, y) == Xor(Xor(p, q), Xor(Xor(x, p), Xor(y, q)))
  {
  }

  lemma WordInjective(a: byte, b: byte)
    requires Word(a) == Word(b)
    ensures a == b
  {
    assert Bits([a]) == Word(a)[24..] && Bits([b]) == Word(b)[24..];
    PackOfBits([a]);
    PackOfBits([b]);
    assert [a][0] == [b][0];
  }

  lemma {:induction false} NoDifferences(a: seq<byte>, b: seq<byte>)
    requires |a| == |b| <= 4 && Differences(a, b) == ZERO
    ensures a == b
    decreases |a|
  {
    if a == [] {
    } else {
      var e, d := Xor(Word(a[0]), Word(b[0])), Differences(a[1..], b[1..]);
      XorZero(e, ShiftLeft8(d));
      assert e == ShiftLeft8(d);
      DifferencesSmall(a[1..], b[1..]);
      forall i | 0 <= i < 32 ensures e[i] == 0 && d[i] == 0 {
        if i < 24 { assert e[i] == 0; } else { assert ShiftLeft8(d)[i] == 0; }
        if i >= 8 { assert ShiftLeft8(d)[i - 8] == d[i]; assert e[i - 8] == 0; }
      }
      XorZero(Word(a[0]), Word(b[0]));
      WordInjective(a[0], b[0]);
      assert d == ZERO;
      NoDifferences(a[1..], b[1..]);
      assert a == [a[0]] + a[1..] && b == [b[0]] + b[1..];
    }
  }

  lemma CommonEnds(a: seq<byte>, b: seq<byte>, lo: nat, hi: nat)
    requires lo <= hi <= |a| == |b| && hi <= lo + 4
    requires a[..lo] == b[..lo] && a[hi..] == b[hi..]
    requires Feed(ONES, a) == Feed(ONES, b)
    ensures a == b
  {
    var x := Feed(ONES, a[..lo]);
    var m, n := a[lo..hi], b[lo..hi];
    assert a == a[..lo] + (m + a[hi..]) && b == a[..lo] + (n + a[hi..]);
    FeedAppend(ONES, a[..lo], m + a[hi..]);
    FeedAppend(ONES, a[..lo], n + a[hi..]);
    FeedAppend(x, m, a[hi..]);
    FeedAppend(x, n, a[hi..]);
    FeedInjective(Feed(x, m), Feed(x, n), a[hi..]);
    BackwardsDifferences(x, x, m, n);
    XorCancels(x, x);
    NoDifferences(m, n);
  }

  /** Packets of one length, whatever it is, that differ only inside four consecutive bytes
      never share an RCS. */
  lemma BurstDetected(a: seq<byte>, b: seq<byte>, p: nat)
    requires |a| == |b| && a != b
    requires forall i :: 0 <= i < |a| && !(p <= i < p + 4) ==> a[i] == b[i]
    ensures Crc32(a) != Crc32(b)
  {
    if Crc32(a) == Crc32(b) {
      var lo := if p < |a| then p else |a|;
      var hi := if p + 4 < |a| then p + 4 else |a|;
      XorCancels(Feed(ONES, a), ONES);
      XorCancels(Feed(ONES, b), ONES);
      CommonEnds(a, b, lo, hi);
    }
  }
}
