/** Base64, as the rules file stores target values. Text is a sequence of character codes; the loops
    keep their accumulator in 32 bits, of which only the low ones matter. */
module Base64 {
  import opened Bytes
  import BitFields

  const PAD: byte := 61 // '='
  const WRAP: nat := 0x1_0000_0000

  /** The alphabet: A-Z, a-z, 0-9, + and /. */
  function Symbol(d: nat): byte
    requires d < 64
  {
    if d < 26 then 65 + d else if d < 52 then 71 + d else if d < 62 then d - 4 else if d == 62 then 43 else 47
  }

  function Digit(c: byte): (d: int)
    ensures -1 <= d < 64
  {
    if 65 <= c <= 90 then c - 65 else if 97 <= c <= 122 then c - 71 else if 48 <= c <= 57 then c + 4
    else if c == 43 then 62 else if c == 47 then 63 else -1
  }

  /** `isspace` */
  predicate Space(c: byte) { c == 32 || 9 <= c <= 13 }

  lemma DigitOfSymbol(d: nat)
    requires d < 64
    ensures Digit(Symbol(d)) == d && Symbol(d) != PAD && !Space(Symbol(d))
  {
  }

  // ---- Bits and digits --------------------------------------------------------------------------

  type digit = d: nat | d < 64

  function DigitOf(bits: seq<bit>): digit
    requires |bits| == 6
  {
    NatBitsOfValue(bits);
    assert Pow2(6) == 64;
    Value(bits)
  }

  /** The first `n` digits of a bit string. */
  function Digits(bits: seq<bit>, n: nat): (ds: seq<digit>)
    requires 6 * n <= |bits|
    ensures |ds| == n
  {
    seq(n, i requires 0 <= i < n => DigitOf(bits[6 * i..6 * i + 6]))
  }

  lemma DigitsGrow(bits: seq<bit>, n: nat)
    requires 6 * n + 6 <= |bits|
    ensures Digits(bits, n + 1) == Digits(bits, n) + [DigitOf(bits[6 * n..6 * n + 6])]
  {
  }

  lemma DigitsOfPrefix(bits: seq<bit>, longer: seq<bit>, n: nat)
    requires 6 * n <= |bits| <= |longer| && longer[..|bits|] == bits
    ensures Digits(bits, n) == Digits(longer, n)
  {
    forall i | 0 <= i < n ensures Digits(bits, n)[i] == Digits(longer, n)[i] {
      assert longer[..|bits|][6 * i..6 * i + 6] == longer[6 * i..6 * i + 6];
    }
  }

  function BitsOf(ds: seq<digit>): (bits: seq<bit>)
    ensures |bits| == 6 * |ds|
  {
    if ds == [] then [] else BitsOf(ds[..|ds| - 1]) + NatBits(ds[|ds| - 1], 6)
  }

  lemma {:induction false} BitsOfDigits(bits: seq<bit>, n: nat)
    requires 6 * n <= |bits|
    ensures BitsOf(Digits(bits, n)) == bits[..6 * n]
    decreases n
  {
    if n == 0 {
    } else {
      BitsOfDigits(bits, n - 1);
      DigitsGrow(bits, n - 1);
      assert Digits(bits, n)[..n - 1] == Digits(bits, n - 1);
      NatBitsOfValue(bits[6 * (n - 1)..6 * n]);
      assert bits[..6 * n] == bits[..6 * (n - 1)] + bits[6 * (n - 1)..6 * n];
    }
  }

  function Symbols(ds: seq<digit>): (text: seq<byte>)
    ensures |text| == |ds|
  {
    seq(|ds|, i requires 0 <= i < |ds| => Symbol(ds[i]))
  }

  /** Digits that hold `n` bits. */
  function DigitsFor(n: nat): (k: nat)
    ensures 6 * k - 6 < n <= 6 * k
  {
    (n + 5) / 6
  }

  /** A bit string filled up with zeros to whole digits. */
  function Filled(bits: seq<bit>): (filled: seq<bit>)
    ensures |filled| == 6 * DigitsFor(|bits|) && filled[..|bits|] == bits
  {
    bits + Repeat(0, 6 * DigitsFor(|bits|) - |bits|)
  }

  function Padded(text: seq<byte>): seq<byte> {
    text + Repeat(PAD, (4 - |text| % 4) % 4)
  }

  function Encoded(data: seq<byte>): seq<byte> {
    Padded(Symbols(Digits(Filled(Bits(data)), DigitsFor(8 * |data|))))
  }

  /** The digits of a text: padding and white space skipped, everything from the first foreign
      character on ignored. */
  function Read(text: seq<byte>): seq<digit> {
    if text == [] then []
    else if text[0] == PAD || Space(text[0]) then Read(text[1..])
    else if Digit(text[0]) == -1 then []
    else [Digit(text[0])] + Read(text[1..])
  }

  function WholeBytes(bits: seq<bit>): seq<byte> {
    Pack(bits[..8 * (|bits| / 8)])
  }

  function Decoded(text: seq<byte>): seq<byte> {
    WholeBytes(BitsOf(Read(text)))
  }

  lemma {:induction false} ReadPadding(n: nat)
    ensures Read(Repeat(PAD, n)) == []
  {
    if n == 0 {
    } else {
      assert Repeat(PAD, n)[1..] == Repeat(PAD, n - 1);
      ReadPadding(n - 1);
    }
  }

  lemma {:induction false} ReadSymbols(ds: seq<digit>, rest: seq<byte>)
    ensures Read(Symbols(ds) + rest) == ds + Read(rest)
  {
    if ds == [] {
      assert Symbols(ds) + rest == rest;
    } else {
      DigitOfSymbol(ds[0]);
      assert (Symbols(ds) + rest)[1..] == Symbols(ds[1..]) + rest;
      ReadSymbols(ds[1..], rest);
      assert ds == [ds[0]] + ds[1..];
    }
  }

  lemma ReadEncoded(data: seq<byte>)
    ensures Read(Encoded(data)) == Digits(Filled(Bits(data)), DigitsFor(8 * |data|))
  {
    var ds := Digits(Filled(Bits(data)), DigitsFor(8 * |data|));
    var pads := (4 - |Symbols(ds)| % 4) % 4;
    ReadSymbols(ds, Repeat(PAD, pads));
    ReadPadding(pads);
    assert ds + [] == ds;
  }

  lemma WholeBytesOfFilled(data: seq<byte>)
    ensures WholeBytes(Filled(Bits(data))) == data
  {
    assert |Filled(Bits(data))| / 8 == |data|;
    PackOfBits(data);
  }

  /** Decoding undoes encoding, for byte strings of any length. */
  lemma DecodeUndoesEncode(data: seq<byte>)
    ensures Decoded(Encoded(data)) == data
  {
    var filled := Filled(Bits(data));
    ReadEncoded(data);
    BitsOfDigits(filled, DigitsFor(8 * |data|));
    assert filled[..6 * DigitsFor(8 * |data|)] == filled;
    WholeBytesOfFilled(data);
  }

  // ---- Accumulators -----------------------------------------------------------------------------

  /** Only the low bits of a wrapped accumulator matter. */
  lemma {:induction false} WrapKeepsLowBits(v: nat, n: nat, m: nat)
    requires n <= m
    ensures NatBits(v % Pow2(m), n) == NatBits(v, n)
  {
    if n == 0 {
    } else {
      var w := v % Pow2(m);
      HalveWrapped(v, m);
      WrapKeepsLowBits(v / 2, n - 1, m - 1);
    }
  }

  lemma HalveWrapped(v: nat, m: nat)
    requires m > 0
    ensures v % Pow2(m) / 2 == v / 2 % Pow2(m - 1) && v % Pow2(m) % 2 == v % 2
  {
    var p := Pow2(m - 1);
    var q, r := v / 2 / p, v / 2 % p;
    BitFields.Divided(v / 2, p);
    assert v == 2 * (q * p + r) + v % 2;
    assert v == q * (2 * p) + (2 * r + v % 2) && 0 <= 2 * r + v % 2 < 2 * p;
    DivUnique(v, 2 * p, q, 2 * r + v % 2);
  }

  /** `v >> k` */
  function ShiftDown(v: nat, k: nat): nat {
    BitFields.Divided(v, Pow2(k));
    v / Pow2(k)
  }

  lemma ShiftDownHalf(v: nat, k: nat)
    requires k > 0
    ensures ShiftDown(v, k) == ShiftDown(v / 2, k - 1)
  {
    HalvePow(v, k - 1);
  }

  /** The top bits of `n + k` bits are what a shift right by `k` leaves. */
  lemma {:induction false} ShiftKeepsTopBits(v: nat, n: nat, k: nat)
    ensures NatBits(ShiftDown(v, k), n) == NatBits(v, n + k)[..n]
  {
    if k > 0 {
      ShiftKeepsTopBits(v / 2, n, k - 1);
      ShiftDownHalf(v, k);
      assert NatBits(v, n + k) == NatBits(v / 2, n + k - 1) + [v % 2];
    } else {
      assert NatBits(v, n)[..n] == NatBits(v, n);
    }
  }

  lemma {:induction false} LowBitsValue(v: nat, n: nat)
    ensures Value(NatBits(v, n)) == v % Pow2(n)
  {
    if n == 0 {
    } else {
      LowBitsValue(v / 2, n - 1);
      HalveWrapped(v, n);
      assert NatBits(v, n)[..n - 1] == NatBits(v / 2, n - 1);
    }
  }

  /** `(val << k) + low`, in 32 bits: the pending bits followed by the new ones. */
  function Pushed(val: nat, k: nat, low: nat): nat
    requires k == 6 || k == 8
  {
    (val * Pow2(k) + low) % WRAP
  }

  lemma PushedBits(val: nat, pending: nat, k: nat, low: nat)
    requires (k == 6 || k == 8) && low < Pow2(k) && pending + k <= 32
    ensures NatBits(Pushed(val, k, low), pending + k) == NatBits(val, pending) + NatBits(low, k)
  {
    WrapIsPower();
    WrapKeepsLowBits(val * Pow2(k) + low, pending + k, 32);
    BitFields.SplitBits(val, low, pending, k);
  }

  lemma WrapIsPower()
    ensures Pow2(32) == WRAP
  {
    assert Pow2(8) == 256 && Pow2(16) == 256 * Pow2(8) && Pow2(24) == 256 * Pow2(16) && Pow2(32) == 256 * Pow2(24);
  }

  /** `v & (2^k - 1)` */
  function Masked(v: nat, k: nat): (m: nat)
    ensures m < Pow2(k)
  {
    BitFields.Divided(v, Pow2(k));
    v % Pow2(k)
  }

  lemma Masks(v: nat)
    ensures Masked(v, 6) == v % 64 && Masked(v, 8) == v % 256 && Pow2(6) == 64 && Pow2(8) == 256
  {
  }

  /** `(val >> (pending - k)) & mask`: the first `k` of the pending bits. */
  lemma TopOfPending(val: nat, pending: nat, k: nat)
    requires k <= pending
    ensures Masked(ShiftDown(val, pending - k), k) == Value(NatBits(val, pending)[..k])
  {
    ShiftKeepsTopBits(val, k, pending - k);
    LowBitsValue(ShiftDown(val, pending - k), k);
  }

  /** What stays pending once the first `k` bits are out. */
  lemma {:induction false} RestOfPending(val: nat, pending: nat, k: nat)
    requires k <= pending
    ensures NatBits(val, pending)[k..] == NatBits(val, pending - k)
  {
    if pending > k {
      RestOfPending(val / 2, pending - 1, k);
    }
  }

  // ---- The loops --------------------------------------------------------------------------------

  lemma PackGrows(bits: seq<bit>, n: nat)
    requires 8 * n + 8 <= |bits|
    ensures Pack(bits[..8 * (n + 1)]) == Pack(bits[..8 * n]) + [ByteOf(bits[8 * n..8 * n + 8])]
  {
    var longer, grown := Pack(bits[..8 * (n + 1)]), Pack(bits[..8 * n]) + [ByteOf(bits[8 * n..8 * n + 8])];
    forall i | 0 <= i < |longer| ensures longer[i] == grown[i] {
      PackAt(bits[..8 * (n + 1)], i);
      assert bits[..8 * (n + 1)][8 * i..8 * i + 8] == bits[8 * i..8 * i + 8];
      if i < n {
        PackAt(bits[..8 * n], i);
        assert bits[..8 * n][8 * i..8 * i + 8] == bits[8 * i..8 * i + 8];
      }
    }
  }

  /** `base64_to_hex` */
  /** The characters from `i` on, one character at a time. */
  lemma ReadStep(text: seq<byte>, i: nat, got: seq<digit>)
    requires i < |text|
    ensures var c := text[i];
            got + Read(text[i..]) ==
              if c == PAD || Space(c) then got + Read(text[i + 1..])
              else if Digit(c) == -1 then got
              else got + [Digit(c)] + Read(text[i + 1..])
  {
    assert text[i..][0] == text[i] && text[i..][1..] == text[i + 1..];
    var d := Digit(text[i]);
    if d != -1 {
      assert got + ([d] + Read(text[i + 1..])) == got + [d] + Read(text[i + 1..]);
    }
    assert got + [] == got;
  }

  method Base64ToHex(text: seq<byte>) returns (out: seq<byte>)
    ensures out == Decoded(text)
  {
    out := [];
    var val, pending := 0, 0; // `pending` is the source's `valb + 8`
    ghost var got: seq<digit> := [];
    var i := 0;
    while i < |text|
      invariant 0 <= i <= |text| && Read(text) == got + Read(text[i..])
      invariant Taken(out, val, pending, got)
    {
      var c := text[i];
      ReadStep(text, i, got);
      i := i + 1;
      if c == PAD || Space(c) {
        continue;
      }
      if Digit(c) == -1 {
        TakenIsWhole(out, val, pending, got);
        return;
      }
      val, pending, out, got := TakeDigit(val, pending, out, got, Digit(c));
    }
    assert text[|text|..] == [] && got + [] == got;
    TakenIsWhole(out, val, pending, got);
  }

  /** The digits taken so far are the bytes written out and fewer than eight pending bits. */
  ghost predicate Taken(out: seq<byte>, val: nat, pending: nat, got: seq<digit>) {
    var bits := BitsOf(got);
    && pending < 8 && 8 * |out| + pending == |bits|
    && out == Pack(bits[..8 * |out|]) && NatBits(val, pending) == bits[8 * |out|..]
  }

  lemma TakenIsWhole(out: seq<byte>, val: nat, pending: nat, got: seq<digit>)
    requires Taken(out, val, pending, got)
    ensures out == WholeBytes(BitsOf(got))
  {
    assert |BitsOf(got)| / 8 == |out|;
  }

  /** A digit pushed behind the pending bits. */
  lemma PushedDigit(val: nat, pending: nat, bits: seq<bit>, n: nat, d: digit)
    requires pending <= 8 && 8 * n + pending == |bits| && NatBits(val, pending) == bits[8 * n..]
    ensures var longer := bits + NatBits(d, 6);
            NatBits(Pushed(val, 6, d), pending + 6) == longer[8 * n..] && longer[..8 * n] == bits[..8 * n]
  {
    Masks(0);
    PushedBits(val, pending, 6, d);
  }

  lemma OneMoreDigit(got: seq<digit>, d: digit)
    ensures BitsOf(got + [d]) == BitsOf(got) + NatBits(d, 6)
  {
    assert (got + [d])[..|got|] == got;
  }

  /** What is held between the digit and the byte it may complete. */
  ghost predicate Held(out: seq<byte>, val: nat, pending: nat, bits: seq<bit>) {
    8 * |out| + pending == |bits| && out == Pack(bits[..8 * |out|]) && NatBits(val, pending) == bits[8 * |out|..]
  }

  lemma PushedHeld(out: seq<byte>, val: nat, pending: nat, got: seq<digit>, d: digit)
    requires Taken(out, val, pending, got)
    ensures Held(out, Pushed(val, 6, d), pending + 6, BitsOf(got + [d]))
  {
    OneMoreDigit(got, d);
    PushedDigit(val, pending, BitsOf(got), |out|, d);
  }

  /** A byte taken from the top of the pending bits. */
  lemma TakenOut(out: seq<byte>, val: nat, pending: nat, bits: seq<bit>)
    requires 8 <= pending && Held(out, val, pending, bits)
    ensures Held(out + [ShiftDown(val, pending - 8) % 256], val, pending - 8, bits)
  {
    var n := |out|;
    Masks(ShiftDown(val, pending - 8));
    TopOfPending(val, pending, 8);
    RestOfPending(val, pending, 8);
    assert bits[8 * n..][..8] == bits[8 * n..8 * n + 8] && bits[8 * n..][8..] == bits[8 * (n + 1)..];
    PackGrows(bits, n);
  }

  method TakeDigit(val: nat, pending: nat, out: seq<byte>, ghost got: seq<digit>, d: digit)
      returns (val': nat, pending': nat, out': seq<byte>, ghost got': seq<digit>)
    requires Taken(out, val, pending, got)
    ensures got' == got + [d] && Taken(out', val', pending', got')
  {
    got' := got + [d];
    PushedHeld(out, val, pending, got, d);
    val', pending', out' := Pushed(val, 6, d), pending + 6, out;
    if pending' >= 8 {
      TakenOut(out', val', pending', BitsOf(got'));
      out' := out + [ShiftDown(val', pending' - 8) % 256];
      pending' := pending' - 8;
    }
  }

  /** `bytes_to_base64` */
  method BytesToBase64(data: seq<byte>) returns (text: seq<byte>)
    ensures text == Encoded(data)
  {
    text := [];
    var val, pending := 0, 0; // `pending` is the source's `valb + 6`
    ghost var bits := Bits(data);
    for i := 0 to |data|
      invariant pending < 6 && 6 * |text| + pending == 8 * i
      invariant text == Symbols(Digits(bits, |text|))
      invariant NatBits(val, pending) == bits[8 * i - pending..8 * i]
    {
      text, val, pending := TakeByte(text, val, pending, data, i);
    }
    if pending > 0 {
      text := LastDigit(text, val, pending, bits);
    } else {
      assert Filled(bits) == bits;
    }
    text := AddPadding(text);
  }

  method AddPadding(text: seq<byte>) returns (padded: seq<byte>)
    ensures padded == Padded(text)
  {
    padded := text;
    ghost var n := (4 - |text| % 4) % 4;
    while |padded| % 4 != 0
      invariant |text| <= |padded| <= |text| + n && padded == text + Repeat(PAD, |padded| - |text|)
      decreases |text| + n - |padded|
    {
      padded := padded + [PAD];
    }
  }

  /** A byte pushed behind the pending bits. */
  lemma PushedByte(val: nat, pending: nat, data: seq<byte>, i: nat)
    requires i < |data| && pending < 6 && pending <= 8 * i && NatBits(val, pending) == Bits(data)[8 * i - pending..8 * i]
    ensures NatBits(Pushed(val, 8, data[i]), pending + 8) == Bits(data)[8 * i - pending..8 * (i + 1)]
  {
    var bits, end := Bits(data), 8 * (i + 1);
    Masks(0);
    PushedBits(val, pending, 8, data[i]);
    BitsOfOne(data, i);
    assert bits[8 * i - pending..8 * i] + bits[8 * i..end] == bits[8 * i - pending..end];
  }

  method TakeByte(text: seq<byte>, val: nat, pending: nat, data: seq<byte>, i: nat)
      returns (text': seq<byte>, val': nat, pending': nat)
    requires i < |data| && pending < 6 && 6 * |text| + pending == 8 * i
    requires text == Symbols(Digits(Bits(data), |text|)) && NatBits(val, pending) == Bits(data)[8 * i - pending..8 * i]
    ensures pending' < 6 && 6 * |text'| + pending' == 8 * (i + 1)
    ensures text' == Symbols(Digits(Bits(data), |text'|))
    ensures NatBits(val', pending') == Bits(data)[8 * (i + 1) - pending'..8 * (i + 1)]
  {
    ghost var bits, end := Bits(data), 8 * (i + 1);
    PushedByte(val, pending, data, i);
    text', val', pending' := text, Pushed(val, 8, data[i]), pending + 8;
    while pending' >= 6
      invariant 6 * |text'| + pending' == end
      invariant text' == Symbols(Digits(bits, |text'|))
      invariant NatBits(val', pending') == bits[end - pending'..end]
    {
      text' := EmitDigit(text', val', pending', bits, end);
      pending' := pending' - 6;
    }
  }

  /** Writes out the first six pending bits. */
  method EmitDigit(text: seq<byte>, val: nat, pending: nat, ghost bits: seq<bit>, ghost end: nat) returns (text': seq<byte>)
    requires 6 <= pending <= end <= |bits| && 6 * |text| + pending == end
    requires text == Symbols(Digits(bits, |text|)) && NatBits(val, pending) == bits[end - pending..end]
    ensures |text'| == |text| + 1 && text' == Symbols(Digits(bits, |text'|))
    ensures NatBits(val, pending - 6) == bits[end - pending + 6..end]
  {
    ghost var from := end - pending;
    TopOfPending(val, pending, 6);
    RestOfPending(val, pending, 6);
    Masks(ShiftDown(val, pending - 6));
    DigitsGrow(bits, |text|);
    assert bits[from..end][..6] == bits[from..from + 6];
    text' := text + [Symbol(ShiftDown(val, pending - 6) % 64)];
  }

  lemma BitsOfOne(data: seq<byte>, i: nat)
    requires i < |data|
    ensures Bits(data)[8 * i..8 * (i + 1)] == NatBits(data[i], 8)
  {
    var slice := Bits(data)[8 * i..8 * (i + 1)];
    assert |slice| == 8;
    forall j | 0 <= j < 8 ensures slice[j] == ByteBits(data[i])[j] {
      BitFields.BitOfByte(data, i, j);
    }
  }

  /** The bits left over, filled up with zeros. */
  /** The pending bits, shifted up by a byte and filled with zeros, end in the last digit. */
  lemma LastSextet(val: nat, pending: nat, bits: seq<bit>)
    requires 0 < pending < 6 && pending <= |bits| && (|bits| - pending) % 6 == 0 && NatBits(val, pending) == bits[|bits| - pending..]
    ensures var n, filled := |bits| - pending, Filled(bits);
            && |filled| == n + 6 && filled[..|bits|] == bits
            && ShiftDown(Pushed(val, 8, 0), pending + 2) % 64 == DigitOf(filled[n..n + 6])
  {
    var n, filled := |bits| - pending, Filled(bits);
    assert filled == bits + Repeat(0, 6 - pending);
    assert filled[n..n + 6] == NatBits(val, pending) + Repeat(0, 6 - pending);
    Masks(ShiftDown(Pushed(val, 8, 0), pending + 2));
    PushedBits(val, pending, 8, 0);
    BitFields.ZeroBits(8);
    TopOfPending(Pushed(val, 8, 0), pending + 8, 6);
    assert NatBits(Pushed(val, 8, 0), pending + 8)[..6] == filled[n..n + 6] by {
      TakeOfPending(NatBits(val, pending), NatBits(0, 8));
    }
  }

  /** The first six of pending bits followed by zeros. */
  lemma TakeOfPending(pending: seq<bit>, zeros: seq<bit>)
    requires |pending| < 6 && zeros == Repeat(0, 8)
    ensures (pending + zeros)[..6] == pending + Repeat(0, 6 - |pending|)
  {
  }

  method LastDigit(text: seq<byte>, val: nat, pending: nat, ghost bits: seq<bit>) returns (text': seq<byte>)
    requires 0 < pending < 6 && 6 * |text| + pending == |bits|
    requires text == Symbols(Digits(bits, |text|)) && NatBits(val, pending) == bits[|bits| - pending..]
    ensures text' == Symbols(Digits(Filled(bits), DigitsFor(|bits|)))
  {
    ghost var filled := Filled(bits);
    assert DigitsFor(|bits|) == |text| + 1;
    LastSextet(val, pending, bits);
    DigitsOfPrefix(bits, filled, |text|);
    DigitsGrow(filled, |text|);
    text' := text + [Symbol(ShiftDown(Pushed(val, 8, 0), pending + 2) % 64)];
  }
}
