/** The SCHC fragmentation messages on the wire: builders, classification and decoding. */
module Message {
  import opened Bytes
  import Rcs

  const WINDOW_SIZE := 63
  const TILE_SIZE := 10
  const MAX_WINDOWS := 4

  datatype MsgType =
    | RegularFragment | AllOneFragment | Ack | AckRequest | SenderAbort | ReceiverAbort | CompoundAck
    | Unclassified // no branch of the classification applies

  datatype ProtocolType = Lorawan | Myriota | LorawanNs | MyriotaNs | NbIot | Sigfox

  datatype AckMechanism = EndOfWindow | EndOfSession | Compound | ArqFec

  // ---- Builders ------------------------------------------------------------------------------

  /** `((w << 6) & 0xC0) | low`, for a `low` of six bits. */
  function Header(w: nat, low: nat): byte
    requires low < 64
  {
    w % 4 * 64 + low
  }

  function RegularFragmentMsg(w: nat, fcn: nat, payload: seq<byte>): seq<byte> {
    [Header(w, fcn % 64)] + payload
  }

  function AckRequestMsg(w: nat): seq<byte> {
    [Header(w, 0)]
  }

  function AllOneMsg(w: nat, rcs: Rcs.word, payload: seq<byte>): seq<byte> {
    [Header(w, 63)] + Pack(rcs) + payload
  }

  /** A SCHC ACK without errors: C is set and five bits of padding follow. */
  function PositiveAckMsg(w: nat): seq<byte> {
    [Header(w, 32)]
  }

  /** Position of the last 0 of a bitmap, and 0 when there is none. */
  function LastZero(bitmap: seq<bit>): nat {
    if bitmap == [] then 0
    else if bitmap[|bitmap| - 1] == 0 then |bitmap| - 1
    else LastZero(bitmap[..|bitmap| - 1])
  }

  lemma {:induction false} LastZeroMeaning(bitmap: seq<bit>)
    requires bitmap != []
    ensures LastZero(bitmap) < |bitmap|
    ensures forall i :: LastZero(bitmap) < i < |bitmap| ==> bitmap[i] == 1
    ensures (exists i :: 0 <= i < |bitmap| && bitmap[i] == 0) ==> bitmap[LastZero(bitmap)] == 0
  {
    var n := |bitmap| - 1;
    if bitmap[n] != 0 && n > 0 {
      LastZeroMeaning(bitmap[..n]);
      assert forall i :: 0 <= i < n ==> bitmap[..n][i] == bitmap[i];
    }
  }

  /** The bitmap as sent: trailing ones dropped, then ones up to a whole number of octets. */
  function CompressedBitmap(bitmap: seq<bit>): seq<bit>
    requires bitmap != []
  {
    LastZeroMeaning(bitmap);
    var kept := bitmap[..LastZero(bitmap) + 1];
    kept + Repeat(1, 8 - (|kept| + 3) % 8)
  }

  function UncompressedBitmap(bitmap: seq<bit>): seq<bit> {
    bitmap + Repeat(0, 8 - (|bitmap| + 3) % 8)
  }

  function WindowNumberBits(w: nat): seq<bit> {
    [w / 2 % 2, w % 2]
  }

  function NegativeAckMsg(w: nat, bitmap: seq<bit>, compress: bool): seq<byte>
    requires bitmap != []
  {
    Pack(WindowNumberBits(w) + [0] + if compress then CompressedBitmap(bitmap) else UncompressedBitmap(bitmap))
  }

  /** Windows and rows that can be reported: every listed row exists and is a full window. */
  predicate Reportable(windows: seq<nat>, rows: seq<seq<bit>>) {
    forall i :: 0 <= i < |windows| ==>
      windows[i] < MAX_WINDOWS && windows[i] < |rows| && |rows[windows[i]]| >= WINDOW_SIZE
  }

  /** Window number and bitmap of each listed window, one after the other. */
  function Sections(windows: seq<nat>, rows: seq<seq<bit>>): (bits: seq<bit>)
    requires Reportable(windows, rows)
    ensures |bits| == 65 * |windows|
  {
    if windows == [] then []
    else WindowNumberBits(windows[0]) + rows[windows[0]][..WINDOW_SIZE] + Sections(windows[1..], rows)
  }

  /** Everything a compound ACK carries before its padding. */
  function CompoundBody(windows: seq<nat>, rows: seq<seq<bit>>): (bits: seq<bit>)
    requires windows != [] && Reportable(windows, rows)
    ensures |bits| == 65 * |windows| + 1
  {
    WindowNumberBits(windows[0]) + [0] + rows[windows[0]][..WINDOW_SIZE] + Sections(windows[1..], rows)
  }

  function CompoundBits(windows: seq<nat>, rows: seq<seq<bit>>): (bits: seq<bit>)
    requires windows != [] && Reportable(windows, rows)
    ensures |bits| % 8 == 0 && 65 * |windows| + 2 <= |bits| <= 65 * |windows| + 9
  {
    var s := CompoundBody(windows, rows);
    s + Repeat(0, 8 - |s| % 8)
  }

  /** `create_schc_ack_compound` */
  function CompoundAckMsg(lastWindow: nat, windows: seq<nat>, rows: seq<seq<bit>>): seq<byte>
    requires Reportable(windows, rows)
  {
    if windows == [] then PositiveAckMsg(lastWindow) else Pack(CompoundBits(windows, rows))
  }

  // ---- Classification ------------------------------------------------------------------------

  function FcnOf(msg: seq<byte>): nat
    requires msg != []
  {
    msg[0] % 64
  }

  function COf(msg: seq<byte>): bit
    requires msg != []
  {
    msg[0] / 32 % 2
  }

  function WOf(msg: seq<byte>): (w: nat)
    requires msg != []
    ensures w < MAX_WINDOWS
  {
    msg[0] / 64
  }

  /** The type of a message seen by the side that reassembles. */
  function FragmentType(msg: seq<byte>): MsgType
    requires msg != []
  {
    if |msg| == 1 && FcnOf(msg) == 0 then AckRequest
    else if |msg| == 1 && FcnOf(msg) == 63 then SenderAbort
    else if |msg| > 1 && FcnOf(msg) == 63 then AllOneFragment
    else if |msg| > 1 then RegularFragment
    else Unclassified
  }

  /** The type of a message seen by the side that fragments. */
  function AckType(msg: seq<byte>): MsgType
    requires msg != []
  {
    if COf(msg) == 1 && |msg| == 2 then ReceiverAbort
    else if COf(msg) == 1 then Ack
    else if |msg| > 9 then CompoundAck
    else Ack
  }

  predicate DeviceStack(p: ProtocolType) { p == Lorawan || p == Myriota }
  predicate GatewayStack(p: ProtocolType) { p == LorawanNs || p == MyriotaNs }

  /** `get_msg_type`: rule 20 carries uplink packets, rule 21 downlink packets. */
  function GetMsgType(p: ProtocolType, ruleId: nat, msg: seq<byte>): MsgType
    requires msg != []
  {
    if DeviceStack(p) then
      if ruleId == 20 then AckType(msg) else if ruleId == 21 then FragmentType(msg) else Unclassified
    else if GatewayStack(p) then
      if ruleId == 20 then FragmentType(msg) else if ruleId == 21 then AckType(msg) else Unclassified
    else Unclassified
  }

  // ---- Decoding ------------------------------------------------------------------------------

  /** What decoding an ACK leaves: the windows reported and the caller's bitmaps, or an access
      outside those bitmaps. */
  datatype AckContents = AckContents(windows: seq<nat>, rows: seq<seq<bit>>) | OutOfBounds

  predicate HasRow(rows: seq<seq<bit>>, w: nat) {
    w < |rows| && |rows[w]| >= WINDOW_SIZE
  }

  function OverwriteRow(rows: seq<seq<bit>>, w: nat, bitmap: seq<bit>): seq<seq<bit>>
    requires HasRow(rows, w) && |bitmap| == WINDOW_SIZE
  {
    rows[w := bitmap + rows[w][WINDOW_SIZE..]]
  }

  function WindowNumber(high: int, low: int): (w: nat)
    requires 0 <= high <= 1 && 0 <= low <= 1
    ensures WindowNumberBits(w) == [high, low]
  {
    2 * high + low
  }

  /** Reads `n` sections, copying each bitmap over the first 63 bits of its row. */
  function ReadSections(bits: seq<bit>, n: nat, rows: seq<seq<bit>>): AckContents
    requires |bits| >= 65 * n
    decreases n
  {
    if n == 0 then AckContents([], rows)
    else
      var w := WindowNumber(bits[0], bits[1]);
      if !HasRow(rows, w) then OutOfBounds
      else
        match ReadSections(bits[65..], n - 1, OverwriteRow(rows, w, bits[2..65]))
        case OutOfBounds => OutOfBounds
        case AckContents(ws, rs) => AckContents([w] + ws, rs)
  }

  function ReadCompound(msg: seq<byte>, rows: seq<seq<bit>>): AckContents
    requires msg != []
  {
    var b := Bits(msg);
    ReadSections(b[..2] + b[3..], (|b| - 1) / 65, rows)
  }

  /** `decodeMsg` on an acknowledgement. */
  function ReadAck(msg: seq<byte>, mechanism: AckMechanism, rows: seq<seq<bit>>): AckContents
    requires msg != []
  {
    var w := WOf(msg);
    if COf(msg) == 1 && |msg| == 2 && msg[1] == 0xFF then AckContents([], rows)
    else if COf(msg) == 1 then
      if mechanism == ArqFec then AckContents([], rows)
      else if HasRow(rows, w) then AckContents([], OverwriteRow(rows, w, Repeat(1, WINDOW_SIZE)))
      else OutOfBounds
    else if mechanism == Compound then ReadCompound(msg, rows)
    else if mechanism == ArqFec then AckContents([], rows)
    else if w < |rows| then AckContents([], rows[w := rows[w] + Bits(msg)[3..]])
    else OutOfBounds
  }

  /** Payload of a regular fragment. */
  function PayloadOf(msg: seq<byte>): seq<byte>
    requires |msg| > 1
  {
    msg[1..]
  }

  function RcsOf(msg: seq<byte>): Rcs.word
    requires |msg| >= 5
  {
    Bits(msg[1..5])
  }

  function LastTileOf(msg: seq<byte>): seq<byte>
    requires |msg| >= 5
  {
    msg[5..]
  }

  // ---- Any acknowledgement --------------------------------------------------------------------

  /** Section `i` names a window whose row the decoder does not have. */
  predicate Misses(bits: seq<bit>, rows: seq<seq<bit>>, i: nat)
    requires 65 * i + 2 <= |bits|
  {
    !HasRow(rows, WindowNumber(bits[65 * i], bits[65 * i + 1]))
  }

  lemma SameRowsThere(rows: seq<seq<bit>>, w: nat, bitmap: seq<bit>, a: nat)
    requires HasRow(rows, w) && |bitmap| == WINDOW_SIZE
    ensures HasRow(OverwriteRow(rows, w, bitmap), a) <==> HasRow(rows, a)
  {
  }

  lemma LaterSection(bits: seq<bit>, rows: seq<seq<bit>>, w: nat, bitmap: seq<bit>, i: nat)
    requires HasRow(rows, w) && |bitmap| == WINDOW_SIZE && 65 * (i + 1) + 2 <= |bits|
    ensures Misses(bits[65..], OverwriteRow(rows, w, bitmap), i) <==> Misses(bits, rows, i + 1)
  {
    assert bits[65..][65 * i] == bits[65 * (i + 1)] && bits[65..][65 * i + 1] == bits[65 * (i + 1) + 1];
    SameRowsThere(rows, w, bitmap, WindowNumber(bits[65 * (i + 1)], bits[65 * (i + 1) + 1]));
  }

  /** Whatever the bits, decoding sections leaves the caller's bitmaps exactly when one of them names a
      window that has no row there. */
  lemma {:induction false} OutOfBoundsExactly(bits: seq<bit>, n: nat, rows: seq<seq<bit>>)
    requires |bits| >= 65 * n
    ensures ReadSections(bits, n, rows).OutOfBounds? <==> exists i: nat :: i < n && Misses(bits, rows, i)
    decreases n
  {
    if n == 0 {
    } else if Misses(bits, rows, 0) {
    } else {
      var w, bitmap := WindowNumber(bits[0], bits[1]), bits[2..65];
      var next := OverwriteRow(rows, w, bitmap);
      OutOfBoundsExactly(bits[65..], n - 1, next);
      forall i: nat | i < n - 1 ensures Misses(bits[65..], next, i) <==> Misses(bits, rows, i + 1) {
        LaterSection(bits, rows, w, bitmap, i);
      }
      if i: nat :| i < n && Misses(bits, rows, i) {
        assert Misses(bits[65..], next, i - 1);
      }
    }
  }

  // ---- Decoding undoes building --------------------------------------------------------------

  lemma ReadFragments(w: nat, fcn: nat, payload: seq<byte>)
    requires w < MAX_WINDOWS && fcn < 63 && payload != []
    ensures var m := RegularFragmentMsg(w, fcn, payload);
            && m[0] == 64 * w + fcn && m[1..] == payload
            && FragmentType(m) == RegularFragment && WOf(m) == w && FcnOf(m) == fcn && PayloadOf(m) == payload
    ensures var m := AckRequestMsg(w); m == [64 * w] && FragmentType(m) == AckRequest && WOf(m) == w
  {
  }

  lemma ReadAllOne(w: nat, rcs: Rcs.word, payload: seq<byte>)
    requires w < MAX_WINDOWS
    ensures var m := AllOneMsg(w, rcs, payload);
            && |m| >= 5 && m[0] == 64 * w + 63 && m[1..5] == Pack(rcs) && m[5..] == payload
            && FragmentType(m) == AllOneFragment && WOf(m) == w && RcsOf(m) == rcs && LastTileOf(m) == payload
  {
    var m := AllOneMsg(w, rcs, payload);
    assert m[1..5] == Pack(rcs);
    BitsOfPack(rcs);
  }

  lemma ReadPositiveAck(w: nat, mechanism: AckMechanism, rows: seq<seq<bit>>)
    requires w < MAX_WINDOWS
    ensures var m := PositiveAckMsg(w);
            && m == [64 * w + 32] && AckType(m) == Ack && COf(m) == 1 && WOf(m) == w
            && ReadAck(m, mechanism, rows)
               == if mechanism == ArqFec then AckContents([], rows)
                  else if HasRow(rows, w) then AckContents([], OverwriteRow(rows, w, Repeat(1, WINDOW_SIZE)))
                  else OutOfBounds
  {
  }

  /** Aborts: W and all ones from the sender, C = 1 and a byte of ones from the receiver. */
  lemma ReadAborts(w: nat, b: byte, mechanism: AckMechanism, rows: seq<seq<bit>>)
    requires w < MAX_WINDOWS && COf([b]) == 1
    ensures FragmentType([64 * w + 63]) == SenderAbort
    ensures AckType([b, 0xFF]) == ReceiverAbort && ReadAck([b, 0xFF], mechanism, rows) == AckContents([], rows)
  {
    assert COf([b, 0xFF]) == COf([b]);
  }

  /** Each stack takes the messages of its peer for what they are: fragments and ACK requests at the
      side that reassembles, acknowledgements at the side that fragments. Rule 20 carries uplink
      packets, whose fragments the gateway reassembles, rule 21 downlink packets. */
  lemma PeersAgree(device: ProtocolType, gateway: ProtocolType, w: nat, fcn: nat, payload: seq<byte>, rcs: Rcs.word)
    requires DeviceStack(device) && GatewayStack(gateway) && w < MAX_WINDOWS && fcn < 63 && payload != []
    ensures var m := RegularFragmentMsg(w, fcn, payload);
            GetMsgType(gateway, 20, m) == RegularFragment && GetMsgType(device, 21, m) == RegularFragment
    ensures var m := AllOneMsg(w, rcs, payload);
            GetMsgType(gateway, 20, m) == AllOneFragment && GetMsgType(device, 21, m) == AllOneFragment
    ensures var m := AckRequestMsg(w);
            GetMsgType(gateway, 20, m) == AckRequest && GetMsgType(device, 21, m) == AckRequest
    ensures var m := PositiveAckMsg(w);
            GetMsgType(device, 20, m) == Ack && GetMsgType(gateway, 21, m) == Ack
  {
    ReadFragments(w, fcn, payload);
    ReadAllOne(w, rcs, payload);
    ReadPositiveAck(w, ArqFec, []);
  }

  /** W and C are the top three bits of the first byte. */
  lemma HeaderBits(b: byte, w: nat)
    requires w < MAX_WINDOWS && ByteBits(b)[0] == w / 2 % 2 && ByteBits(b)[1] == w % 2 && ByteBits(b)[2] == 0
    ensures b / 64 == w && b / 32 % 2 == 0
  {
    assert Pow2(7) == 128 && Pow2(6) == 64 && Pow2(5) == 32;
    NatBitAt(b, 8, 0);
    NatBitAt(b, 8, 1);
    NatBitAt(b, 8, 2);
    TopBits(b);
  }

  /** The first header byte of a packed message, read back from its bits. */
  lemma PackedHeader(w: nat, rest: seq<bit>)
    requires w < MAX_WINDOWS && (|rest| + 3) % 8 == 0 && |rest| >= 5
    ensures var m := Pack(WindowNumberBits(w) + [0] + rest);
            m != [] && WOf(m) == w && COf(m) == 0 && Bits(m) == WindowNumberBits(w) + [0] + rest
  {
    var bits := WindowNumberBits(w) + [0] + rest;
    var m := Pack(bits);
    BitsOfPack(bits);
    assert ByteBits(m[0])[0] == Bits(m)[0] && ByteBits(m[0])[1] == Bits(m)[1] && ByteBits(m[0])[2] == Bits(m)[2];
    HeaderBits(m[0], w);
  }

  lemma TopBits(b: byte)
    ensures b / 64 == 2 * (b / 128 % 2) + b / 64 % 2
  {
  }

  /** SCHC ACK bitmap compression (section 8.3.2.1 of RFC 8724) loses nothing: the bits after the
      header, extended with ones and cut to the window, are the bitmap again. The message is always
      a whole number of octets, so the branch that reports otherwise is dead. */
  lemma BitmapCompressionLossless(w: nat, bitmap: seq<bit>)
    requires w < MAX_WINDOWS && bitmap != []
    ensures var m := NegativeAckMsg(w, bitmap, true);
            && m != [] && WOf(m) == w && COf(m) == 0
            && (Bits(m)[3..] + Repeat(1, |bitmap|))[..|bitmap|] == bitmap
    ensures |WindowNumberBits(w) + [0] + CompressedBitmap(bitmap)| % 8 == 0
  {
    LastZeroMeaning(bitmap);
    PackedHeader(w, CompressedBitmap(bitmap));
    var m := NegativeAckMsg(w, bitmap, true);
    assert Bits(m)[3..] == CompressedBitmap(bitmap);
    var r := (Bits(m)[3..] + Repeat(1, |bitmap|))[..|bitmap|];
    forall i | 0 <= i < |bitmap| ensures r[i] == bitmap[i] {
    }
  }

  /** The message is as short as compression by dropping trailing ones can make it, or one octet longer:
      its length follows from the last 0, which any body that decodes to the bitmap must reach. */
  lemma CompressionShortens(w: nat, bitmap: seq<bit>, body: seq<bit>)
    requires w < MAX_WINDOWS && bitmap != [] && (body + Repeat(1, |bitmap|))[..|bitmap|] == bitmap
    ensures |NegativeAckMsg(w, bitmap, true)| == (LastZero(bitmap) + 4) / 8 + 1
    ensures (exists i :: 0 <= i < |bitmap| && bitmap[i] == 0) ==>
              |body| > LastZero(bitmap) && 8 * |NegativeAckMsg(w, bitmap, true)| <= 3 + |body| + 8
    ensures (forall i :: 0 <= i < |bitmap| ==> bitmap[i] == 1) ==> |NegativeAckMsg(w, bitmap, true)| == 1
  {
    CompressedLength(w, bitmap);
    BodyReaches(bitmap, body);
    if forall i :: 0 <= i < |bitmap| ==> bitmap[i] == 1 {
      NoZero(bitmap);
    }
  }

  lemma CompressedLength(w: nat, bitmap: seq<bit>)
    requires w < MAX_WINDOWS && bitmap != []
    ensures |NegativeAckMsg(w, bitmap, true)| == (LastZero(bitmap) + 4) / 8 + 1
  {
    LastZeroMeaning(bitmap);
    PackedHeader(w, CompressedBitmap(bitmap));
    assert |CompressedBitmap(bitmap)| == LastZero(bitmap) + 1 + 8 - (LastZero(bitmap) + 4) % 8;
  }

  lemma BodyReaches(bitmap: seq<bit>, body: seq<bit>)
    requires (body + Repeat(1, |bitmap|))[..|bitmap|] == bitmap
    ensures (exists i :: 0 <= i < |bitmap| && bitmap[i] == 0) ==> |body| > LastZero(bitmap)
  {
    if exists i :: 0 <= i < |bitmap| && bitmap[i] == 0 {
      LastZeroMeaning(bitmap);
      var z := LastZero(bitmap);
      var all := body + Repeat(1, |bitmap|);
      assert all[z] == all[..|bitmap|][z] == 0;
    }
  }

  lemma {:induction false} NoZero(bitmap: seq<bit>)
    requires forall i :: 0 <= i < |bitmap| ==> bitmap[i] == 1
    ensures LastZero(bitmap) == 0
  {
    if bitmap == [] {
    } else {
      NoZero(bitmap[..|bitmap| - 1]);
    }
  }

  /** Without compression the bitmap is sent as it is and filled up with zeros. */
  lemma UncompressedReadBack(w: nat, bitmap: seq<bit>)
    requires w < MAX_WINDOWS && bitmap != []
    ensures var m := NegativeAckMsg(w, bitmap, false);
            && m != [] && WOf(m) == w && COf(m) == 0
            && |Bits(m)| >= 3 + |bitmap| && Bits(m)[3..3 + |bitmap|] == bitmap
            && |Bits(m)| <= 3 + |bitmap| + 8 && forall i :: 3 + |bitmap| <= i < |Bits(m)| ==> Bits(m)[i] == 0
  {
    PackedHeader(w, UncompressedBitmap(bitmap));
    var m := NegativeAckMsg(w, bitmap, false);
    assert Bits(m)[3..] == UncompressedBitmap(bitmap);
    assert Bits(m)[3..3 + |bitmap|] == Bits(m)[3..][..|bitmap|];
  }

  /** What `decodeMsg` does with such a message: it appends the received bits to the row. */
  lemma NegativeAckAppends(w: nat, bitmap: seq<bit>, mechanism: AckMechanism, rows: seq<seq<bit>>)
    requires w < MAX_WINDOWS && w < |rows| && bitmap != []
    requires mechanism == EndOfWindow || mechanism == EndOfSession
    ensures var m := NegativeAckMsg(w, bitmap, true);
            m != [] && ReadAck(m, mechanism, rows) == AckContents([], rows[w := rows[w] + CompressedBitmap(bitmap)])
  {
    LastZeroMeaning(bitmap);
    PackedHeader(w, CompressedBitmap(bitmap));
    var m := NegativeAckMsg(w, bitmap, true);
    assert Bits(m)[3..] == CompressedBitmap(bitmap);
  }

  // ---- Compound ACK round trip ---------------------------------------------------------------

  /** `target` with the listed windows' bitmaps copied over, every other row untouched. */
  function Copied(windows: seq<nat>, rows: seq<seq<bit>>, target: seq<seq<bit>>): seq<seq<bit>>
    requires Reportable(windows, rows) && Reportable(windows, target)
  {
    seq(|target|, a requires 0 <= a < |target| =>
      if a in windows then rows[a][..WINDOW_SIZE] + target[a][WINDOW_SIZE..] else target[a])
  }

  lemma CopiedStep(windows: seq<nat>, rows: seq<seq<bit>>, target: seq<seq<bit>>)
    requires windows != [] && Reportable(windows, rows) && Reportable(windows, target)
    ensures var next := OverwriteRow(target, windows[0], rows[windows[0]][..WINDOW_SIZE]);
            && Reportable(windows[1..], next)
            && Copied(windows[1..], rows, next) == Copied(windows, rows, target)
  {
    var w, rest := windows[0], windows[1..];
    var next := OverwriteRow(target, w, rows[w][..WINDOW_SIZE]);
    assert forall a :: a in windows <==> a == w || a in rest;
    forall a | 0 <= a < |target|
      ensures Copied(windows, rows, target)[a] == Copied(rest, rows, next)[a]
    {
      if a == w {
        assert next[a][WINDOW_SIZE..] == target[a][WINDOW_SIZE..];
      }
    }
  }

  lemma ReadOneSection(a: seq<bit>, b: seq<bit>, rest: seq<bit>, w: nat, n: nat, target: seq<seq<bit>>)
    requires a == WindowNumberBits(w) && w < MAX_WINDOWS && |b| == WINDOW_SIZE && HasRow(target, w)
    requires n > 0 && |rest| >= 65 * (n - 1)
    ensures var r := ReadSections(rest, n - 1, OverwriteRow(target, w, b));
            r.AckContents? ==> ReadSections(a + b + rest, n, target) == AckContents([w] + r.windows, r.rows)
  {
    SplitSection(a, b, rest, w);
  }

  lemma SplitSection(a: seq<bit>, b: seq<bit>, rest: seq<bit>, w: nat)
    requires a == WindowNumberBits(w) && w < MAX_WINDOWS && |b| == WINDOW_SIZE
    ensures var bits := a + b + rest;
            WindowNumber(bits[0], bits[1]) == w && bits[2..65] == b && bits[65..] == rest
  {
    ThreeParts(a, b, rest);
    var bits := a + b + rest;
    assert bits[0] == a[0] && bits[1] == a[1];
  }

  lemma {:induction false} ReadWrittenSections(windows: seq<nat>, rows: seq<seq<bit>>, tail: seq<bit>, target: seq<seq<bit>>)
    requires Reportable(windows, rows) && Reportable(windows, target)
    ensures ReadSections(Sections(windows, rows) + tail, |windows|, target) == AckContents(windows, Copied(windows, rows, target))
    decreases |windows|
  {
    if windows == [] {
      assert Copied(windows, rows, target) == target;
    } else {
      var w, rest := windows[0], windows[1..];
      var row := rows[w][..WINDOW_SIZE];
      CopiedStep(windows, rows, target);
      ReadWrittenSections(rest, rows, tail, OverwriteRow(target, w, row));
      ReadOneSection(WindowNumberBits(w), row, Sections(rest, rows) + tail, w, |windows|, target);
      FirstSection(windows, rows, tail);
      assert [w] + rest == windows;
    }
  }

  lemma FirstSection(windows: seq<nat>, rows: seq<seq<bit>>, tail: seq<bit>)
    requires windows != [] && Reportable(windows, rows)
    ensures Sections(windows, rows) + tail
         == WindowNumberBits(windows[0]) + rows[windows[0]][..WINDOW_SIZE] + (Sections(windows[1..], rows) + tail)
  {
    Regrouped(WindowNumberBits(windows[0]), rows[windows[0]][..WINDOW_SIZE], Sections(windows[1..], rows), tail);
  }

  lemma CompoundBitsSections(windows: seq<nat>, rows: seq<seq<bit>>)
    requires windows != [] && Reportable(windows, rows)
    ensures var bits := CompoundBits(windows, rows);
            && bits == WindowNumberBits(windows[0]) + [0] + bits[3..]
            && bits[..2] + bits[3..] == Sections(windows, rows) + bits[65 * |windows| + 1..]
            && (|bits| - 1) / 65 == |windows|
  {
    var bits := CompoundBits(windows, rows);
    assert (|bits| - 1) / 65 == |windows| by {
      assert 65 * |windows| + 1 <= |bits| - 1 < 65 * (|windows| + 1);
    }
    var s := CompoundBody(windows, rows);
    var pad := Repeat(0, 8 - |s| % 8);
    assert bits[65 * |windows| + 1..] == pad;
    WithoutFlag(WindowNumberBits(windows[0]), rows[windows[0]][..WINDOW_SIZE], Sections(windows[1..], rows), pad, bits);
  }

  lemma WithoutFlag(w: seq<bit>, row: seq<bit>, rest: seq<bit>, pad: seq<bit>, bits: seq<bit>)
    requires |w| == 2 && bits == w + [0] + row + rest + pad
    ensures bits == w + [0] + bits[3..] && bits[..2] + bits[3..] == w + row + rest + pad
  {
    Regrouped(w + [0], row, rest, pad);
    assert bits == w + [0] + (row + rest + pad);
    ThreeParts(w, [0], row + rest + pad);
    assert w + (row + rest + pad) == w + row + rest + pad;
  }

  lemma ReadPacked(m: seq<byte>, windows: seq<nat>, rows: seq<seq<bit>>, pad: seq<bit>, target: seq<seq<bit>>)
    requires Reportable(windows, rows) && Reportable(windows, target)
    requires m != [] && COf(m) == 0 && |m| > 2 && (|Bits(m)| - 1) / 65 == |windows|
    requires Bits(m)[..2] + Bits(m)[3..] == Sections(windows, rows) + pad
    ensures ReadAck(m, Compound, target) == AckContents(windows, Copied(windows, rows, target))
  {
    ReadWrittenSections(windows, rows, pad, target);
  }

  /** Decoding an encoded list of windows gives back the list, in order, and copies exactly those
      rows. One window makes a 9-byte message, which is typed as a plain ACK with C = 0. */
  lemma CompoundRoundTrip(lastWindow: nat, windows: seq<nat>, rows: seq<seq<bit>>, target: seq<seq<bit>>)
    requires windows != [] && Reportable(windows, rows) && Reportable(windows, target)
    ensures var m := CompoundAckMsg(lastWindow, windows, rows);
            && m != [] && COf(m) == 0 && WOf(m) == windows[0]
            && ReadAck(m, Compound, target) == AckContents(windows, Copied(windows, rows, target))
            && AckType(m) == (if |windows| == 1 then Ack else CompoundAck)
  {
    var bits := CompoundBits(windows, rows);
    CompoundBitsSections(windows, rows);
    PackedHeader(windows[0], bits[3..]);
    var m := Pack(bits);
    assert Bits(m) == bits;
    ReadPacked(m, windows, rows, bits[65 * |windows| + 1..], target);
  }
}
