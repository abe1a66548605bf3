/** What the Reassembly Check Sequence is: a remainder of polynomial division over GF(2). */
module RcsDivision {
  import opened Bytes
  import opened Rcs

  // ---- Polynomials over GF(2) -------------------------------------------------------------------

  /** Coefficients by exponent: `p[i]` belongs to x^i. */
  type poly = seq<bit>

  function Coefficient(p: poly, i: int): bit {
    if 0 <= i < |p| then p[i] else 0
  }

  /** Equal up to leading zeros. */
  ghost predicate Same(p: poly, q: poly) {
    forall i: int {:trigger Coefficient(p, i)} :: Coefficient(p, i) == Coefficient(q, i)
  }

  function Plus(a: bit, b: bit): bit {
    if a == b then 0 else 1
  }

  function Sum(p: poly, q: poly): (s: poly)
    ensures forall i: int {:trigger Coefficient(s, i)} :: Coefficient(s, i) == Plus(Coefficient(p, i), Coefficient(q, i))
  {
    var n := if |p| >= |q| then |p| else |q|;
    seq(n, i requires 0 <= i < n => Plus(Coefficient(p, i), Coefficient(q, i)))
  }

  /** p * x^k */
  function Raised(p: poly, k: nat): (s: poly)
    ensures forall i: int {:trigger Coefficient(s, i)} :: Coefficient(s, i) == Coefficient(p, i - k)
  {
    Repeat(0, k) + p
  }

  /** The coefficient of x^i in p * g. */
  function ProductAt(p: poly, g: poly, i: int): bit
    decreases |p|
  {
    if p == [] then 0 else Plus(if p[0] == 1 then Coefficient(g, i) else 0, ProductAt(p[1..], g, i - 1))
  }

  const EXPONENTS: set<int> := {32, 26, 23, 22, 16, 12, 11, 10, 8, 7, 5, 4, 2, 1, 0}

  /** The generator of CRC-32. */
  function Generator(): (g: poly)
    ensures |g| == 33 && forall i: int :: Coefficient(g, i) == if i in EXPONENTS then 1 else 0
  {
    seq(33, i => if i in EXPONENTS then 1 else 0)
  }

  /** `p` is `q` times `g` plus `r`. */
  ghost predicate Divided(p: poly, g: poly, q: poly, r: poly) {
    forall i: int {:trigger Coefficient(p, i)} ::
      Coefficient(p, i) == Plus(ProductAt(q, g, i), Coefficient(r, i))
  }

  /** `r`, of degree below 32, is what division of `p` by the generator leaves. */
  ghost predicate Remainder(p: poly, r: word) {
    exists q: poly :: Divided(p, Generator(), q, r)
  }

  // ---- Remainders are unique ----------------------------------------------------------------------

  ghost predicate Zero(p: poly) {
    forall i: int :: Coefficient(p, i) == 0
  }

  lemma {:induction false} ProductOfZero(p: poly, g: poly, i: int)
    requires Zero(p)
    ensures ProductAt(p, g, i) == 0
    decreases |p|
  {
    if p == [] {
    } else {
      TailOf(p);
      assert Coefficient(p, 0) == 0;
      ProductOfZero(p[1..], g, i - 1);
    }
  }

  lemma TailOf(p: poly)
    requires p != []
    ensures forall i: int :: i >= 0 ==> Coefficient(p[1..], i) == Coefficient(p, i + 1)
    ensures Zero(p) ==> Zero(p[1..])
  {
    assert forall i: int :: 0 <= i < |p| - 1 ==> p[1..][i] == p[i + 1];
  }

  /** A product with a nonzero factor has a coefficient where the leading terms meet. */
  lemma {:induction false} ProductReaches(p: poly, g: poly, i: nat)
    requires g != [] && g[|g| - 1] == 1
    requires Coefficient(p, i) == 1 && forall j: int :: j > i ==> Coefficient(p, j) == 0
    ensures ProductAt(p, g, |g| - 1 + i) == 1
    decreases |p|
  {
    var rest := p[1..];
    TailOf(p);
    if i == 0 {
      forall j: int ensures Coefficient(rest, j) == 0 {
        if j >= 0 { assert Coefficient(p, j + 1) == 0; }
      }
      ProductOfZero(rest, g, |g| - 2);
    } else {
      forall j: int | j > i - 1 ensures Coefficient(rest, j) == 0 {
        assert Coefficient(p, j + 1) == 0;
      }
      ProductReaches(rest, g, i - 1);
    }
  }

  lemma {:induction false} TopCoefficient(p: poly) returns (i: nat)
    requires !Zero(p)
    ensures Coefficient(p, i) == 1 && forall j: int :: j > i ==> Coefficient(p, j) == 0
    decreases |p|
  {
    if p[|p| - 1] == 1 {
      i := |p| - 1;
    } else {
      var init := p[..|p| - 1];
      assert forall j: int :: Coefficient(init, j) == Coefficient(p, j);
      i := TopCoefficient(init);
    }
  }

  lemma {:induction false} ProductOfSum(p: poly, q: poly, g: poly, i: int)
    ensures ProductAt(Sum(p, q), g, i)
         == Plus(ProductAt(p, g, i), ProductAt(q, g, i))
    decreases |p| + |q|
  {
    var s := Sum(p, q);
    if p == [] {
      assert s == q;
    } else if q == [] {
      assert s == p;
    } else {
      ProductOfSum(p[1..], q[1..], g, i - 1);
      assert s[1..] == Sum(p[1..], q[1..]);
    }
  }

  lemma QuotientsCancel(p: poly, g: poly, q: poly, q': poly, r: poly, r': poly, i: int)
    requires Divided(p, g, q, r) && Divided(p, g, q', r')
    ensures ProductAt(Sum(q, q'), g, i) == Plus(Coefficient(r, i), Coefficient(r', i))
  {
    ProductOfSum(q, q', g, i);
    assert Coefficient(p, i) == Plus(ProductAt(q, g, i), Coefficient(r, i));
    assert Coefficient(p, i) == Plus(ProductAt(q', g, i), Coefficient(r', i));
  }

  lemma RemaindersAgree(p: poly, g: poly, q: poly, q': poly, r: poly, r': poly)
    requires Divided(p, g, q, r) && Divided(p, g, q', r')
    requires g != [] && g[|g| - 1] == 1 && |r| == |r'| == |g| - 1
    ensures r == r'
  {
    var d := Sum(q, q');
    if !Zero(d) {
      var i := TopCoefficient(d);
      ProductReaches(d, g, i);
      QuotientsCancel(p, g, q, q', r, r', |g| - 1 + i);
    } else {
      forall i | 0 <= i < |r| ensures r[i] == r'[i] {
        QuotientsCancel(p, g, q, q', r, r', i);
        ProductOfZero(d, g, i);
      }
    }
  }

  lemma RemainderUnique(p: poly, r: word, r': word)
    requires Remainder(p, r) && Remainder(p, r')
    ensures r == r'
  {
    var g := Generator();
    var q :| Divided(p, g, q, r);
    var q' :| Divided(p, g, q', r');
    assert Coefficient(g, 32) == 1;
    RemaindersAgree(p, g, q, q', r, r');
  }

  // ---- The register is a remainder ----------------------------------------------------------------

  lemma OneBitMore(v: nat, x: bit, n: nat)
    ensures NatBits(2 * v + x, n + 1) == NatBits(v, n) + [x]
  {
    assert (2 * v + x) / 2 == v && (2 * v + x) % 2 == x;
  }

  lemma NibbleBits(v: nat, n: nat, a: bit, b: bit, c: bit, d: bit)
    ensures NatBits(16 * v + 8 * a + 4 * b + 2 * c + d, n + 4) == NatBits(v, n) + [a, b, c, d]
  {
    OneBitMore(v, a, n);
    OneBitMore(2 * v + a, b, n + 1);
    OneBitMore(4 * v + 2 * a + b, c, n + 2);
    OneBitMore(8 * v + 4 * a + 2 * b + c, d, n + 3);
  }

  lemma FourBytes(a: byte, b: byte, c: byte, d: byte)
    ensures Bits([a, b, c, d]) == ByteBits(a) + ByteBits(b) + ByteBits(c) + ByteBits(d)
  {
  }

  lemma ByteFrom(v: byte, h: nat, a: bit, b: bit, c: bit, d: bit, e: bit, f: bit, g: bit, l: bit)
    requires h == 8 * a + 4 * b + 2 * c + d && v == 16 * h + 8 * e + 4 * f + 2 * g + l
    ensures ByteBits(v) == [a, b, c, d, e, f, g, l]
  {
    NibbleBits(0, 0, a, b, c, d);
    NibbleBits(h, 4, e, f, g, l);
  }

  lemma FourFrom(a: byte, b: byte, c: byte, d: byte)
    requires a == 0xED && b == 0xB8 && c == 0x83 && d == 0x20
    ensures Bits([a, b, c, d]) == [1, 1, 1, 0, 1, 1, 0, 1] + [1, 0, 1, 1, 1, 0, 0, 0]
                                + [1, 0, 0, 0, 0, 0, 1, 1] + [0, 0, 1, 0, 0, 0, 0, 0]
  {
    FourBytes(a, b, c, d);
    ByteFrom(a, 14, 1, 1, 1, 0, 1, 1, 0, 1);
    ByteFrom(b, 11, 1, 0, 1, 1, 1, 0, 0, 0);
    ByteFrom(c, 8, 1, 0, 0, 0, 0, 0, 1, 1);
    ByteFrom(d, 2, 0, 0, 1, 0, 0, 0, 0, 0);
  }

  lemma PolynomialBytes()
    ensures POLYNOMIAL == [1, 1, 1, 0, 1, 1, 0, 1] + [1, 0, 1, 1, 1, 0, 0, 0]
                        + [1, 0, 0, 0, 0, 0, 1, 1] + [0, 0, 1, 0, 0, 0, 0, 0]
  {
    FourFrom(0xED, 0xB8, 0x83, 0x20);
  }

  lemma GeneratorBits()
    ensures Generator()[..32] == [1, 1, 1, 0, 1, 1, 0, 1] + [1, 0, 1, 1, 1, 0, 0, 0]
                               + [1, 0, 0, 0, 0, 0, 1, 1] + [0, 0, 1, 0, 0, 0, 0, 0]
  {
    var g := Generator();
    assert g[..8] == [1, 1, 1, 0, 1, 1, 0, 1];
    assert g[8..16] == [1, 0, 1, 1, 1, 0, 0, 0];
    assert g[16..24] == [1, 0, 0, 0, 0, 0, 1, 1];
    assert g[24..32] == [0, 0, 1, 0, 0, 0, 0, 0];
    assert g[..32] == g[..8] + g[8..16] + g[16..24] + g[24..32];
  }

  /** The polynomial constant holds the generator without its leading term. */
  lemma PolynomialIsGenerator()
    ensures POLYNOMIAL == Generator()[..32]
  {
    PolynomialBytes();
    GeneratorBits();
  }

  lemma SameRemainder(p: poly, p': poly, r: word)
    requires Remainder(p, r) && Same(p', p)
    ensures Remainder(p', r)
  {
    var g := Generator();
    var q :| Divided(p, g, q, r);
    SameDivided(p, p', g, q, r);
  }

  lemma SameDivided(p: poly, p': poly, g: poly, q: poly, r: poly)
    requires Divided(p, g, q, r) && Same(p', p)
    ensures Divided(p', g, q, r)
  {
  }

  /** Multiplying by x: the coefficient carried out over the remainder's end takes the divisor
      off once more. */
  lemma TimesX(p: poly, g: poly, q: poly, r: poly, s: poly)
    requires Divided(p, g, q, r) && |r| == |s| == |g| - 1 && r != [] && g[|g| - 1] == 1
    requires forall i :: 0 <= i < |s| ==>
      s[i] == Plus(Coefficient(r, i - 1), if r[|r| - 1] == 1 then g[i] else 0)
    ensures Divided(Raised(p, 1), g, [r[|r| - 1]] + q, s)
  {
    var q' := [r[|r| - 1]] + q;
    assert q'[1..] == q;
    forall i: int
      ensures Coefficient(Raised(p, 1), i) == Plus(ProductAt(q', g, i), Coefficient(s, i))
    {
      assert Coefficient(p, i - 1) == Plus(ProductAt(q, g, i - 1), Coefficient(r, i - 1));
    }
  }

  /** One round of the register multiplies by x. */
  lemma ShiftTimesX(p: poly, r: word)
    requires Remainder(p, r)
    ensures Remainder(Raised(p, 1), Shift(r))
  {
    var g := Generator();
    var q :| Divided(p, g, q, r);
    PolynomialIsGenerator();
    forall i | 0 <= i < 32
      ensures Shift(r)[i] == Plus(Coefficient(r, i - 1), if r[31] == 1 then g[i] else 0)
    {
      assert g[..32][i] == g[i];
      assert ShiftRight(r)[i] == Coefficient(r, i - 1);
    }
    assert Coefficient(g, 32) == g[32];
    TimesX(p, g, q, r, Shift(r));
  }

  lemma {:induction false} ShiftsTimesX(p: poly, r: word, n: nat)
    requires Remainder(p, r)
    ensures Remainder(Raised(p, n), Shifts(r, n))
  {
    if n == 0 {
      SameRemainder(p, Raised(p, 0), r);
    } else {
      ShiftsTimesX(p, r, n - 1);
      ShiftTimesX(Raised(p, n - 1), Shifts(r, n - 1));
      SameRemainder(Raised(Raised(p, n - 1), 1), Raised(p, n), Shifts(r, n));
    }
  }

  lemma XorAdds(p: poly, r: word, w: word)
    requires Remainder(p, r)
    ensures Remainder(Sum(p, w), Xor(r, w))
  {
    var g := Generator();
    var q :| Divided(p, g, q, r);
    var x := Xor(r, w);
    forall i: int ensures Coefficient(x, i) == Plus(Coefficient(r, i), Coefficient(w, i)) {
    }
    SumDivided(p, g, q, r, w, x);
  }

  lemma SumDivided(p: poly, g: poly, q: poly, r: poly, w: poly, x: poly)
    requires Divided(p, g, q, r)
    requires forall i: int {:trigger Coefficient(x, i)} :: Coefficient(x, i) == Plus(Coefficient(r, i), Coefficient(w, i))
    ensures Divided(Sum(p, w), g, q, x)
  {
  }

  /** A byte string as the polynomial the reflected algorithm reads: each byte least significant
      bit first, the first bit at the highest exponent. */
  function Poly(msg: seq<byte>): (p: poly)
    ensures |p| == 8 * |msg|
  {
    if msg == [] then [] else Poly(msg[1..]) + Bits([msg[0]])
  }

  /** `p` carried over a byte string: p * x^(8n) + message * x^32. */
  function Extended(p: poly, msg: seq<byte>): poly {
    Sum(Raised(p, 8 * |msg|), Raised(Poly(msg), 32))
  }

  lemma WordAt(b: byte, j: int)
    ensures Coefficient(Word(b), j) == Coefficient(Bits([b]), j - 24)
  {
  }

  lemma LeadingByte(p: poly, b: poly, i: int)
    requires |b| == 8
    ensures Coefficient(Raised(p + b, 32), i) == Plus(Coefficient(b, i - |p| - 32), Coefficient(Raised(p, 32), i))
  {
    assert Coefficient(p + b, i - 32) == if i - 32 < |p| then Coefficient(p, i - 32) else Coefficient(b, i - 32 - |p|);
  }

  lemma Carried(p: poly, w: poly, b: poly, m: poly, n: nat, i: int)
    requires |b| == 8 && n == |m| + 8
    requires Coefficient(w, i - n) == Coefficient(b, i - n - 24)
    ensures Coefficient(Sum(Raised(Raised(Sum(p, w), 8), n - 8), Raised(m, 32)), i)
         == Coefficient(Sum(Raised(p, n), Raised(m + b, 32)), i)
  {
    var p' := Raised(Sum(p, w), 8);
    assert Coefficient(Raised(p', n - 8), i) == Coefficient(p', i - (n - 8));
    assert Coefficient(p', i - (n - 8)) == Coefficient(Sum(p, w), i - n);
    LeadingByte(m, b, i);
  }

  lemma ExtendedTwice(p: poly, msg: seq<byte>)
    requires msg != []
    ensures Same(Extended(p, msg), Extended(Raised(Sum(p, Word(msg[0])), 8), msg[1..]))
  {
    var w, b, m, n := Word(msg[0]), Bits([msg[0]]), Poly(msg[1..]), 8 * |msg|;
    assert 8 * |msg[1..]| == n - 8 && Poly(msg) == m + b;
    forall i: int
      ensures Coefficient(Extended(p, msg), i) == Coefficient(Extended(Raised(Sum(p, w), 8), msg[1..]), i)
    {
      WordAt(msg[0], i - n);
      Carried(p, w, b, m, n, i);
    }
  }

  lemma {:induction false} FeedDivides(p: poly, c: word, msg: seq<byte>)
    requires Remainder(p, c)
    ensures Remainder(Extended(p, msg), Feed(c, msg))
    decreases |msg|
  {
    if msg == [] {
      SameRemainder(p, Extended(p, msg), c);
    } else {
      var w := Word(msg[0]);
      XorAdds(p, c, w);
      ShiftsTimesX(Sum(p, w), Xor(c, w), 8);
      FeedDivides(Raised(Sum(p, w), 8), Shifts(Xor(c, w), 8), msg[1..]);
      ExtendedTwice(p, msg);
      SameRemainder(Extended(Raised(Sum(p, w), 8), msg[1..]), Extended(p, msg), Feed(c, msg));
    }
  }

  /** The message times x^32 with its first thirty-two coefficients complemented. */
  function Dividend(msg: seq<byte>): poly {
    Sum(Raised(Poly(msg), 32), Raised(ONES, 8 * |msg|))
  }

  /** The RCS is the complement of the one remainder of that division. */
  lemma CrcIsRemainder(msg: seq<byte>, r: word)
    ensures Remainder(Dividend(msg), r) <==> Crc32(msg) == Xor(r, ONES)
  {
    assert Divided(ONES, Generator(), [], ONES);
    FeedDivides(ONES, ONES, msg);
    SameRemainder(Extended(ONES, msg), Dividend(msg), Feed(ONES, msg));
    if Remainder(Dividend(msg), r) {
      RemainderUnique(Dividend(msg), r, Feed(ONES, msg));
    }
    XorCancels(Feed(ONES, msg), ONES);
    XorCancels(r, ONES);
  }
}
