/** The published check value of CRC-32, computed on registers of hexadecimal digits. */
module RcsCheckValue {
  import opened Bytes
  import opened Rcs
  import RcsDivision

  datatype Hex = Hex(a: bool, b: bool, c: bool, d: bool)

  datatype Reg = Reg(h7: Hex, h6: Hex, h5: Hex, h4: Hex, h3: Hex, h2: Hex, h1: Hex, h0: Hex)

  const X0 := Hex(false, false, false, false)
  const X1 := Hex(false, false, false, true)
  const X2 := Hex(false, false, true, false)
  const X3 := Hex(false, false, true, true)
  const X4 := Hex(false, true, false, false)
  const X5 := Hex(false, true, false, true)
  const X6 := Hex(false, true, true, false)
  const X7 := Hex(false, true, true, true)
  const X8 := Hex(true, false, false, false)
  const X9 := Hex(true, false, false, true)
  const XA := Hex(true, false, true, false)
  const XB := Hex(true, false, true, true)
  const XC := Hex(true, true, false, false)
  const XD := Hex(true, true, false, true)
  const XE := Hex(true, true, true, false)
  const XF := Hex(true, true, true, true)

  function HexBit(h: Hex, j: nat): bit {
    if (if j == 0 then h.a else if j == 1 then h.b else if j == 2 then h.c else h.d) then 1 else 0
  }

  function Digit(x: Reg, k: nat): Hex {
    if k == 0 then x.h7 else if k == 1 then x.h6 else if k == 2 then x.h5 else if k == 3 then x.h4
    else if k == 4 then x.h3 else if k == 5 then x.h2 else if k == 6 then x.h1 else x.h0
  }

  /** The register of the source: 32 bits, most significant first. */
  function Flat(x: Reg): word {
    seq(32, i requires 0 <= i < 32 => HexBit(Digit(x, i / 4), i % 4))
  }

  function XorHex(x: Hex, y: Hex): Hex {
    Hex(x.a != y.a, x.b != y.b, x.c != y.c, x.d != y.d)
  }

  function XorReg(x: Reg, y: Reg): Reg {
    Reg(XorHex(x.h7, y.h7), XorHex(x.h6, y.h6), XorHex(x.h5, y.h5), XorHex(x.h4, y.h4),
        XorHex(x.h3, y.h3), XorHex(x.h2, y.h2), XorHex(x.h1, y.h1), XorHex(x.h0, y.h0))
  }

  /** A digit shifted right, with the bit that comes in from the left. */
  function In(b: bool, h: Hex): Hex {
    Hex(b, h.a, h.b, h.c)
  }

  function HalfReg(x: Reg): Reg {
    Reg(In(false, x.h7), In(x.h7.d, x.h6), In(x.h6.d, x.h5), In(x.h5.d, x.h4),
        In(x.h4.d, x.h3), In(x.h3.d, x.h2), In(x.h2.d, x.h1), In(x.h1.d, x.h0))
  }

  function Round(x: Reg): Reg {
    if x.h0.d then XorReg(HalfReg(x), Reg(XE, XD, XB, X8, X8, X3, X2, X0)) else HalfReg(x)
  }

  /** A register after the byte of two digits. */
  function Step(x: Reg, h: Hex, l: Hex): Reg {
    var y := XorReg(x, Reg(X0, X0, X0, X0, X0, X0, h, l));
    Round(Round(Round(Round(Round(Round(Round(Round(y))))))))
  }

  lemma XorAt(x: Reg, y: Reg, k: nat, j: nat)
    ensures HexBit(Digit(XorReg(x, y), k), j) == if HexBit(Digit(x, k), j) == HexBit(Digit(y, k), j) then 0 else 1
  {
    assert Digit(XorReg(x, y), k) == XorHex(Digit(x, k), Digit(y, k));
  }

  lemma XorIsXor(x: Reg, y: Reg)
    ensures Flat(XorReg(x, y)) == Xor(Flat(x), Flat(y))
  {
    forall i | 0 <= i < 32 ensures Flat(XorReg(x, y))[i] == Xor(Flat(x), Flat(y))[i] {
      XorAt(x, y, i / 4, i % 4);
    }
  }

  lemma HalfIsShiftRight(x: Reg)
    ensures Flat(HalfReg(x)) == ShiftRight(Flat(x))
  {
    forall i | 1 <= i < 32 ensures Flat(HalfReg(x))[i] == Flat(x)[i - 1] {
      var k, j := i / 4, i % 4;
      if j > 0 {
        assert (i - 1) / 4 == k && (i - 1) % 4 == j - 1;
      } else {
        assert (i - 1) / 4 == k - 1 && (i - 1) % 4 == 3;
      }
    }
  }

  /** Eight digits are four bytes. */
  lemma FlatIsBytes(x: Reg, p: byte, q: byte, r: byte, s: byte)
    requires IsByte(x.h7, x.h6, p) && IsByte(x.h5, x.h4, q) && IsByte(x.h3, x.h2, r) && IsByte(x.h1, x.h0, s)
    ensures Flat(x) == Bits([p, q, r, s])
  {
    OctetIsByte(x.h7, x.h6, p);
    OctetIsByte(x.h5, x.h4, q);
    OctetIsByte(x.h3, x.h2, r);
    OctetIsByte(x.h1, x.h0, s);
    RcsDivision.FourBytes(p, q, r, s);
    OctetAt(x, 0);
    OctetAt(x, 1);
    OctetAt(x, 2);
    OctetAt(x, 3);
    FourOctets(Flat(x));
  }

  lemma FourOctets(s: seq<bit>)
    requires |s| == 32
    ensures s == s[..8] + s[8..16] + s[16..24] + s[24..]
  {
  }

  lemma OctetAt(x: Reg, m: nat)
    requires m < 4
    ensures Flat(x)[8 * m..8 * m + 8] == Octet(Digit(x, 2 * m), Digit(x, 2 * m + 1))
  {
    var s, o := Flat(x)[8 * m..8 * m + 8], Octet(Digit(x, 2 * m), Digit(x, 2 * m + 1));
    forall i | 0 <= i < 8 ensures s[i] == o[i] {
      assert (8 * m + i) % 4 == i % 4 && (8 * m + i) / 4 == 2 * m + i / 4;
    }
  }

  function Octet(h: Hex, l: Hex): (s: seq<bit>)
    ensures |s| == 8
  {
    seq(8, i requires 0 <= i < 8 => HexBit(if i < 4 then h else l, i % 4))
  }

  function Number(h: Hex): nat {
    8 * HexBit(h, 0) + 4 * HexBit(h, 1) + 2 * HexBit(h, 2) + HexBit(h, 3)
  }

  predicate IsByte(h: Hex, l: Hex, b: byte) {
    b == 16 * Number(h) + Number(l)
  }

  lemma OctetBits(h: Hex, l: Hex)
    ensures Octet(h, l) == [HexBit(h, 0), HexBit(h, 1), HexBit(h, 2), HexBit(h, 3),
                            HexBit(l, 0), HexBit(l, 1), HexBit(l, 2), HexBit(l, 3)]
  {
  }

  lemma OctetIsByte(h: Hex, l: Hex, b: byte)
    requires IsByte(h, l, b)
    ensures Octet(h, l) == ByteBits(b)
  {
    RcsDivision.ByteFrom(b, Number(h), HexBit(h, 0), HexBit(h, 1), HexBit(h, 2), HexBit(h, 3),
                         HexBit(l, 0), HexBit(l, 1), HexBit(l, 2), HexBit(l, 3));
    OctetBits(h, l);
  }

  lemma PolynomialDigits()
    ensures Flat(Reg(XE, XD, XB, X8, X8, X3, X2, X0)) == POLYNOMIAL
  {
    FlatIsBytes(Reg(XE, XD, XB, X8, X8, X3, X2, X0), 0xED, 0xB8, 0x83, 0x20);
  }

  lemma LowBit(x: Reg)
    ensures Flat(x)[31] == if x.h0.d then 1 else 0
  {
  }

  lemma RoundIsShift(x: Reg)
    ensures Flat(Round(x)) == Shift(Flat(x))
  {
    var g := Reg(XE, XD, XB, X8, X8, X3, X2, X0);
    HalfIsShiftRight(x);
    LowBit(x);
    if x.h0.d {
      PolynomialDigits();
      XorIsXor(HalfReg(x), g);
    }
  }

  lemma StepIsFeed(x: Reg, y: Reg, h: Hex, l: Hex, b: byte, msg: seq<byte>)
    requires IsByte(h, l, b) && Step(x, h, l) == y
    ensures Feed(Flat(x), [b] + msg) == Feed(Flat(y), msg)
  {
    var z := Reg(X0, X0, X0, X0, X0, X0, h, l);
    ByteIsWord(h, l, b);
    XorIsXor(x, z);
    EightRounds(XorReg(x, z));
    assert ([b] + msg)[1..] == msg;
  }

  lemma ByteIsWord(h: Hex, l: Hex, b: byte)
    requires IsByte(h, l, b)
    ensures Flat(Reg(X0, X0, X0, X0, X0, X0, h, l)) == Word(b)
  {
    OctetIsByte(h, l, b);
    var x := Flat(Reg(X0, X0, X0, X0, X0, X0, h, l));
    assert x[24..] == Octet(h, l);
    assert x[..24] == Repeat(0, 24);
    OneByte(b);
  }

  lemma OneByte(b: byte)
    ensures Bits([b]) == ByteBits(b)
  {
  }

  lemma EightRounds(x: Reg)
    ensures Flat(Round(Round(Round(Round(Round(Round(Round(Round(x)))))))))
         == Shifts(Flat(x), 8)
  {
    var x1 := Round(x);
    var x2 := Round(x1);
    var x3 := Round(x2);
    var x4 := Round(x3);
    var x5 := Round(x4);
    var x6 := Round(x5);
    var x7 := Round(x6);
    OneRound(x, x, 0);
    OneRound(x, x1, 1);
    OneRound(x, x2, 2);
    OneRound(x, x3, 3);
    OneRound(x, x4, 4);
    OneRound(x, x5, 5);
    OneRound(x, x6, 6);
    OneRound(x, x7, 7);
  }

  lemma OneRound(x: Reg, y: Reg, n: nat)
    requires Flat(y) == Shifts(Flat(x), n)
    ensures Flat(Round(y)) == Shifts(Flat(x), n + 1)
  {
    RoundIsShift(y);
  }

  lemma Check1()
    ensures Step(Reg(XF, XF, XF, XF, XF, XF, XF, XF), X3, X1)
         == Reg(X7, XC, X2, X3, X1, X0, X4, X8)
  {
  }

  lemma Check2()
    ensures Step(Reg(X7, XC, X2, X3, X1, X0, X4, X8), X3, X2)
         == Reg(XB, X0, XA, XC, XB, XB, X3, X2)
  {
  }

  lemma Check3()
    ensures Step(Reg(XB, X0, XA, XC, XB, XB, X3, X2), X3, X3)
         == Reg(X7, X7, XB, X7, X9, XC, X2, XD)
  {
  }

  lemma Check4()
    ensures Step(Reg(X7, X7, XB, X7, X9, XC, X2, XD), X3, X4)
         == Reg(X6, X4, X1, XC, X1, XF, X5, XC)
  {
  }

  lemma Check5()
    ensures Step(Reg(X6, X4, X1, XC, X1, XF, X5, XC), X3, X5)
         == Reg(X3, X4, X0, XA, XC, X5, XE, X3)
  {
  }

  lemma Check6()
    ensures Step(Reg(X3, X4, X0, XA, XC, X5, XE, X3), X3, X6)
         == Reg(XF, X6, X8, XD, X2, XC, X9, XE)
  {
  }

  lemma Check7()
    ensures Step(Reg(XF, X6, X8, XD, X2, XC, X9, XE), X3, X7)
         == Reg(XA, XF, XF, XC, X9, X6, X6, X0)
  {
  }

  lemma Check8()
    ensures Step(Reg(XA, XF, XF, XC, X9, X6, X6, X0), X3, X8)
         == Reg(X6, X5, X1, XF, X2, X5, X5, X0)
  {
  }

  lemma Check9()
    ensures Step(Reg(X6, X5, X1, XF, X2, X5, X5, X0), X3, X9)
         == Reg(X3, X4, X0, XB, XC, X6, XD, X9)
  {
  }

  lemma Complemented()
    ensures Xor(Flat(Reg(X3, X4, X0, XB, XC, X6, XD, X9)), Flat(Reg(XF, XF, XF, XF, XF, XF, XF, XF))) == Bits([0xCB, 0xF4, 0x39, 0x26])
  {
    XorIsXor(Reg(X3, X4, X0, XB, XC, X6, XD, X9), Reg(XF, XF, XF, XF, XF, XF, XF, XF));
    FlatIsBytes(Reg(XC, XB, XF, X4, X3, X9, X2, X6), 0xCB, 0xF4, 0x39, 0x26);
  }

  lemma Digits1To3(msg: seq<byte>)
    ensures Feed(Flat(Reg(XF, XF, XF, XF, XF, XF, XF, XF)), [0x31, 0x32, 0x33] + msg)
         == Feed(Flat(Reg(X7, X7, XB, X7, X9, XC, X2, XD)), msg)
  {
    var m3 := [0x33] + msg;
    var m2 := [0x32] + m3;
    assert [0x31, 0x32, 0x33] + msg == [0x31] + m2;
    Check1();
    StepIsFeed(Reg(XF, XF, XF, XF, XF, XF, XF, XF), Reg(X7, XC, X2, X3, X1, X0, X4, X8), X3, X1, 0x31, m2);
    Check2();
    StepIsFeed(Reg(X7, XC, X2, X3, X1, X0, X4, X8), Reg(XB, X0, XA, XC, XB, XB, X3, X2), X3, X2, 0x32, m3);
    Check3();
    StepIsFeed(Reg(XB, X0, XA, XC, XB, XB, X3, X2), Reg(X7, X7, XB, X7, X9, XC, X2, XD), X3, X3, 0x33, msg);
  }

  lemma Digits4To6(msg: seq<byte>)
    ensures Feed(Flat(Reg(X7, X7, XB, X7, X9, XC, X2, XD)), [0x34, 0x35, 0x36] + msg)
         == Feed(Flat(Reg(XF, X6, X8, XD, X2, XC, X9, XE)), msg)
  {
    var m3 := [0x36] + msg;
    var m2 := [0x35] + m3;
    assert [0x34, 0x35, 0x36] + msg == [0x34] + m2;
    Check4();
    StepIsFeed(Reg(X7, X7, XB, X7, X9, XC, X2, XD), Reg(X6, X4, X1, XC, X1, XF, X5, XC), X3, X4, 0x34, m2);
    Check5();
    StepIsFeed(Reg(X6, X4, X1, XC, X1, XF, X5, XC), Reg(X3, X4, X0, XA, XC, X5, XE, X3), X3, X5, 0x35, m3);
    Check6();
    StepIsFeed(Reg(X3, X4, X0, XA, XC, X5, XE, X3), Reg(XF, X6, X8, XD, X2, XC, X9, XE), X3, X6, 0x36, msg);
  }

  lemma Digits7To9(msg: seq<byte>)
    ensures Feed(Flat(Reg(XF, X6, X8, XD, X2, XC, X9, XE)), [0x37, 0x38, 0x39] + msg)
         == Feed(Flat(Reg(X3, X4, X0, XB, XC, X6, XD, X9)), msg)
  {
    var m3 := [0x39] + msg;
    var m2 := [0x38] + m3;
    assert [0x37, 0x38, 0x39] + msg == [0x37] + m2;
    Check7();
    StepIsFeed(Reg(XF, X6, X8, XD, X2, XC, X9, XE), Reg(XA, XF, XF, XC, X9, X6, X6, X0), X3, X7, 0x37, m2);
    Check8();
    StepIsFeed(Reg(XA, XF, XF, XC, X9, X6, X6, X0), Reg(X6, X5, X1, XF, X2, X5, X5, X0), X3, X8, 0x38, m3);
    Check9();
    StepIsFeed(Reg(X6, X5, X1, XF, X2, X5, X5, X0), Reg(X3, X4, X0, XB, XC, X6, XD, X9), X3, X9, 0x39, msg);
  }

  /** The check value of CRC-32: the characters `123456789` give 0xCBF43926. */
  lemma CheckValue()
    ensures Crc32([0x31, 0x32, 0x33, 0x34, 0x35, 0x36, 0x37, 0x38, 0x39]) == Bits([0xCB, 0xF4, 0x39, 0x26])
  {
    var last: seq<byte> := [0x37, 0x38, 0x39];
    var rest := [0x34, 0x35, 0x36] + last;
    assert [0x31, 0x32, 0x33] + rest == [0x31, 0x32, 0x33, 0x34, 0x35, 0x36, 0x37, 0x38, 0x39];
    assert last + [] == last;
    Digits1To3(rest);
    Digits4To6(last);
    Digits7To9([]);
    AllOnes();
    Complemented();
  }

  lemma AllOnes()
    ensures Flat(Reg(XF, XF, XF, XF, XF, XF, XF, XF)) == ONES
  {
  }
}
