/** The ARQ-FEC sender: INIT, SEND, WAIT_X_SESSION_ACK, RESEND_MISSING_FRAGS and END, first as a
    function from one context to the next, then as the object that updates its fields in loops. */
module ArqFecSender {
  import opened Bytes
  import opened Message
  import opened Tiling
  import opened Numbering
  import opened FecMatrix
  import opened Retransmission
  import opened WindowBitmaps
  import ArqFecReceiver
  import MessageCodec
  import Rcs

  type fraction = ArqFecReceiver.fraction

  datatype State =
    | Init | Send | WaitAck | Resending | End
    | Fault // an access outside a buffer

  datatype Ctx = Ctx(state: State, cursor: Cursor, rows: seq<seq<bit>>, windows: seq<nat>, lastConfirmed: nat,
                     k: nat, tiles: seq<tile>, lastTile: seq<byte>, rcs: Rcs.word, nWindows: nat)

  /** A step's outcome: the new context and the frames sent. */
  datatype Reaction = Reaction(ctx: Ctx, frames: seq<seq<byte>>)

  // ---- Frames ---------------------------------------------------------------------------------

  /** A regular fragment: `k` in one byte, then tiles. */
  function Fragment(k: byte, tiles: seq<tile>, p: Piece): seq<byte>
    requires p.at.ptr + p.count <= |tiles|
  {
    RegularFragmentMsg(p.at.w, p.at.fcn, [k] + Concat(tiles[p.at.ptr..p.at.ptr + p.count]))
  }

  function Fragments(k: byte, tiles: seq<tile>, pieces: seq<Piece>): (frames: seq<seq<byte>>)
    requires Within(pieces, |tiles|)
    ensures |frames| == |pieces|
  {
    seq(|pieces|, i requires 0 <= i < |pieces| => Fragment(k, tiles, pieces[i]))
  }

  function AllOne(x: Ctx): seq<byte> {
    AllOneMsg(x.cursor.w, x.rcs, x.lastTile)
  }

  // ---- INIT -----------------------------------------------------------------------------------

  function ParityOf(packet: seq<byte>, overhead: fraction): nat {
    ArqFecReceiver.Parity(Symbols(packet), overhead)
  }

  function EncodedPacket(packet: seq<byte>, code: Code, overhead: fraction): matrix {
    Encoded(code, DataMatrix(packet), ParityOf(packet, overhead))
  }

  /** The packet fits: `k` and every symbol position live in one byte, the windows hold all tiles,
      and the code's codewords have `k` data and `r` parity symbols. */
  predicate Encodable(packet: seq<byte>, code: Code, overhead: fraction) {
    && 1 <= Symbols(packet) && Symbols(packet) + ParityOf(packet, overhead) <= MAX_WINDOWS * WINDOW_SIZE
    && Shaped(EncodedPacket(packet, code, overhead), Symbols(packet) + ParityOf(packet, overhead))
  }

  /** The context once the packet is encoded and tiled. */
  function Prepared(packet: seq<byte>, code: Code, overhead: fraction): (x: Ctx)
    requires Encodable(packet, code, overhead)
    ensures Valid(x)
  {
    var n := Symbols(packet) + ParityOf(packet, overhead);
    var nWindows := WindowsFor(TILE_SIZE * n);
    Ctx(Init, START, NoTiles(nWindows), [], 255, Symbols(packet),
        Columns(EncodedPacket(packet, code, overhead), n), Residue(packet), Rcs.Crc32(packet), nWindows)
  }

  predicate Valid(x: Ctx) {
    && 1 <= |x.tiles| <= MAX_WINDOWS * WINDOW_SIZE && x.k < 256
    && x.nWindows == WindowsFor(TILE_SIZE * |x.tiles|)
  }

  /** First fragment: within one window the whole session counts, otherwise only the window. */
  function First(x: Ctx, available: nat): (o: Reaction)
    requires Valid(x) && x.state == Init && x.cursor == START && available > 0
    ensures Valid(o.ctx)
  {
    var remaining := if x.nWindows == 1 then |x.tiles| else WINDOW_SIZE;
    if remaining > available then
      Reaction(x.(state := Send, cursor := Cursor(0, WINDOW_SIZE - 1 - available, available)),
               [Fragment(x.k, x.tiles, Piece(START, available))])
    else
      Reaction(x.(state := WaitAck, cursor := Cursor(0, (WINDOW_SIZE - 1 - remaining) % 256, remaining)),
               [Fragment(x.k, x.tiles, Piece(START, remaining))] + if x.nWindows == 1 then [AllOne(x)] else [])
  }

  function Start(packet: seq<byte>, code: Code, overhead: fraction, available: nat): (o: Reaction)
    requires Encodable(packet, code, overhead) && available > 0
    ensures Valid(o.ctx)
  {
    First(Prepared(packet, code, overhead), available)
  }

  // ---- SEND and RESEND without a message --------------------------------------------------------

  function SendNext(x: Ctx, available: nat): (o: Reaction)
    requires Valid(x) && x.state == Send && available > 0
    ensures Valid(o.ctx)
  {
    if x.cursor.ptr > |x.tiles| then Reaction(x.(state := Fault), [])
    else
      var remaining := |x.tiles| - x.cursor.ptr;
      if remaining > available then
        Reaction(x.(cursor := Advance(x.cursor, available)), [Fragment(x.k, x.tiles, Piece(x.cursor, available))])
      else
        Reaction(x.(state := WaitAck, cursor := x.cursor.(ptr := |x.tiles|)),
                 [Fragment(x.k, x.tiles, Piece(x.cursor, remaining))]
                 + if x.cursor.w == x.nWindows - 1 then [AllOne(x)] else [])
  }

  function RepairOf(x: Ctx, available: nat): Repair {
    Repair(x.rows, x.windows, x.lastConfirmed, x.nWindows, |x.tiles|, available)
  }

  function ResendNext(x: Ctx, available: nat): (o: Reaction)
    requires Valid(x) && x.state == Resending && available > 0
    ensures Valid(o.ctx)
  {
    var r := RepairOf(x, available);
    if !Sound(r) || Target(r) >= r.nWindows then Reaction(x.(state := Fault), [])
    else
      InRange(r);
      var o := Resend(r);
      var frames := Fragments(x.k, x.tiles, Emitted(r));
      var next := x.(rows := o.repair.rows, windows := o.repair.windows, lastConfirmed := o.repair.current);
      if o.Finished? then Reaction(next.(state := WaitAck), frames + [AckRequestMsg(x.cursor.w)])
      else Reaction(next, frames)
  }

  lemma InRange(r: Repair)
    requires Sound(r) && Target(r) < r.nWindows
    ensures Within(Emitted(r), r.nFullTiles)
  {
  }

  /** The frame for `n` missing tiles of window `w` from position `from` on, if there are any. */
  function RunFrames(k: byte, tiles: seq<tile>, w: nat, from: nat, n: nat): seq<seq<byte>>
    requires from < WINDOW_SIZE || n == 0
    requires w * WINDOW_SIZE + from + n <= |tiles|
  {
    if n == 0 then []
    else [Fragment(k, tiles, Piece(Cursor(w, WINDOW_SIZE - 1 - from, w * WINDOW_SIZE + from), n))]
  }

  lemma FramesOfGap(r: Repair, k: byte, tiles: seq<tile>, from: nat, n: nat)
    requires Sound(r) && Target(r) < r.nWindows && r.nFullTiles == |tiles| && Gap(r) == (from, from + n)
    ensures from < WINDOW_SIZE || n == 0
    ensures Target(r) * WINDOW_SIZE + from + n <= |tiles|
    ensures Within(Emitted(r), |tiles|)
    ensures Fragments(k, tiles, Emitted(r)) == RunFrames(k, tiles, Target(r), from, n)
  {
  }

  /** One execution without a message. */
  function Execute(x: Ctx, available: nat): (o: Reaction)
    requires Valid(x) && available > 0
    ensures Valid(o.ctx)
  {
    match x.state
    case Send => SendNext(x, available)
    case Resending => ResendNext(x, available)
    case _ => Reaction(x, [])
  }

  // ---- A whole transmission ---------------------------------------------------------------------

  /** Executions of SEND until the sender waits. */
  function SendAll(x: Ctx, available: nat): (o: Reaction)
    requires Valid(x) && x.state == Send && available > 0 && x.cursor.ptr <= |x.tiles|
    decreases |x.tiles| - x.cursor.ptr
  {
    var o := SendNext(x, available);
    if o.ctx.state != Send then o
    else
      var rest := SendAll(o.ctx, available);
      Reaction(rest.ctx, o.frames + rest.frames)
  }

  /** The All-1 goes out with the last fragment exactly when that one starts in the last window. */
  function Closing(x: Ctx, last: Piece): seq<seq<byte>> {
    if last.at.w == x.nWindows - 1 then [AllOneMsg(last.at.w, x.rcs, x.lastTile)] else []
  }

  /** One execution of SEND cuts the first planned piece; the last one also closes. */
  lemma SendNextIsPlanned(x: Ctx, available: nat)
    requires Valid(x) && x.state == Send && available > 0 && x.cursor.ptr <= |x.tiles|
    ensures var o, plan := SendNext(x, available), SendPlan(x.cursor, |x.tiles|, available);
            && plan != [] && Within(plan, |x.tiles|)
            && (o.ctx.state == Send ==>
                  && o.ctx == x.(cursor := Advance(x.cursor, available)) && x.cursor.ptr < o.ctx.cursor.ptr <= |x.tiles|
                  && plan[1..] == SendPlan(o.ctx.cursor, |x.tiles|, available) && plan[1..] != []
                  && o.frames == [Fragment(x.k, x.tiles, plan[0])])
            && (o.ctx.state != Send ==>
                  && o.ctx == x.(state := WaitAck, cursor := x.cursor.(ptr := |x.tiles|)) && plan[1..] == []
                  && o.frames == [Fragment(x.k, x.tiles, plan[0])] + Closing(x, plan[0]))
  {
    SendPlanWithin(x.cursor, |x.tiles|, available);
    if |x.tiles| - x.cursor.ptr > available {
      SendPlanWithin(Advance(x.cursor, available), |x.tiles|, available);
    }
  }

  lemma {:induction false} SendAllIsPlan(x: Ctx, available: nat)
    requires Valid(x) && x.state == Send && available > 0 && x.cursor.ptr <= |x.tiles|
    ensures var plan := SendPlan(x.cursor, |x.tiles|, available);
            && Within(plan, |x.tiles|) && plan != []
            && SendAll(x, available).frames == Fragments(x.k, x.tiles, plan) + Closing(x, plan[|plan| - 1])
            && SendAll(x, available).ctx.state == WaitAck
    decreases |x.tiles| - x.cursor.ptr
  {
    var plan := SendPlan(x.cursor, |x.tiles|, available);
    var o := SendNext(x, available);
    SendNextIsPlanned(x, available);
    FirstFragment(x.k, x.tiles, plan);
    if o.ctx.state != Send {
      assert Fragments(x.k, x.tiles, []) == [];
    } else {
      SendAllIsPlan(o.ctx, available);
      var rest := plan[1..];
      assert plan[|plan| - 1] == rest[|rest| - 1];
      Regrouped([], o.frames, Fragments(x.k, x.tiles, rest), Closing(x, rest[|rest| - 1]));
      assert [] + o.frames == o.frames;
    }
  }

  lemma FirstFragment(k: byte, tiles: seq<tile>, plan: seq<Piece>)
    requires plan != [] && Within(plan, |tiles|)
    ensures Within(plan[1..], |tiles|)
    ensures Fragments(k, tiles, plan) == [Fragment(k, tiles, plan[0])] + Fragments(k, tiles, plan[1..])
  {
  }

  /** The pieces that INIT and SEND cut, without any message in between. */
  function Plan(x: Ctx, available: nat): seq<Piece>
    requires Valid(x) && available > 0
  {
    var remaining := if x.nWindows == 1 then |x.tiles| else WINDOW_SIZE;
    if remaining <= available then [Piece(START, remaining)]
    else [Piece(START, available)] + SendPlan(Cursor(0, WINDOW_SIZE - 1 - available, available), |x.tiles|, available)
  }

  /** The piece that ends the plan. */
  function PlanEnd(x: Ctx, available: nat): Piece
    requires Valid(x) && available > 0
  {
    var remaining := if x.nWindows == 1 then |x.tiles| else WINDOW_SIZE;
    if remaining <= available then Piece(START, remaining)
    else LastPiece(Cursor(0, WINDOW_SIZE - 1 - available, available), |x.tiles|, available)
  }

  lemma PlanEndsThere(x: Ctx, available: nat)
    requires Valid(x) && available > 0
    ensures var plan := Plan(x, available); plan != [] && plan[|plan| - 1] == PlanEnd(x, available)
  {
    if (if x.nWindows == 1 then |x.tiles| else WINDOW_SIZE) > available {
      SendPlanWithin(Cursor(0, WINDOW_SIZE - 1 - available, available), |x.tiles|, available);
    }
  }

  /** Without a stop after the first window, INIT and SEND follow one plan. */
  lemma PlanIsSendPlan(x: Ctx, available: nat)
    requires Valid(x) && available > 0 && (if x.nWindows == 1 then |x.tiles| else WINDOW_SIZE) > available
    ensures Plan(x, available) == SendPlan(START, |x.tiles|, available)
    ensures PlanEnd(x, available) == LastPiece(START, |x.tiles|, available)
  {
    assert Advance(START, available) == Cursor(0, WINDOW_SIZE - 1 - available, available);
    LastPieceAhead(START, |x.tiles|, available);
  }

  function Transmission(x: Ctx, available: nat): Reaction
    requires Valid(x) && x.state == Init && x.cursor == START && available > 0
  {
    var o := First(x, available);
    if o.ctx.state != Send then o
    else
      var rest := SendAll(o.ctx, available);
      Reaction(rest.ctx, o.frames + rest.frames)
  }

  lemma TransmissionIsPlan(x: Ctx, available: nat)
    requires Valid(x) && x.state == Init && x.cursor == START && available > 0
    ensures var plan := Plan(x, available);
            && Within(plan, |x.tiles|) && plan != []
            && Transmission(x, available).frames == Fragments(x.k, x.tiles, plan) + Closing(x, plan[|plan| - 1])
  {
    var plan := Plan(x, available);
    var o := First(x, available);
    if o.ctx.state == Send {
      SendAllIsPlan(o.ctx, available);
      var rest := SendPlan(o.ctx.cursor, |x.tiles|, available);
      assert plan[1..] == rest;
    } else {
      assert plan[1..] == [];
    }
    FirstFragment(x.k, x.tiles, plan);
  }

  lemma TransmissionWaits(x: Ctx, available: nat)
    requires Valid(x) && x.state == Init && x.cursor == START && available > 0
    ensures Transmission(x, available).ctx.state == WaitAck
  {
    var o := First(x, available);
    if o.ctx.state == Send {
      SendAllIsPlan(o.ctx, available);
    }
  }

  /** A plan that ends in the last window closes with the All-1. */
  lemma TransmissionCloses(x: Ctx, available: nat)
    requires Valid(x) && x.state == Init && x.cursor == START && available > 0
    requires PlanEnd(x, available).at.w == x.nWindows - 1
    ensures AllOneMsg(x.nWindows - 1, x.rcs, x.lastTile) in multiset(Transmission(x, available).frames)
    ensures Transmission(x, available).ctx.state == WaitAck
  {
    TransmissionIsPlan(x, available);
    TransmissionWaits(x, available);
    PlanEndsThere(x, available);
    LastFrame(Transmission(x, available).frames, Fragments(x.k, x.tiles, Plan(x, available)),
              AllOneMsg(x.nWindows - 1, x.rcs, x.lastTile));
  }

  lemma LastFrame(frames: seq<seq<byte>>, init: seq<seq<byte>>, m: seq<byte>)
    requires frames == init + [m]
    ensures m in multiset(frames)
  {
    assert frames[|init|] == m;
  }

  /** The fragments partition the tiles in order, rightly numbered, unless the packet takes several
      windows and a frame holds a whole window: INIT then stops after the first window for good. */
  lemma TransmissionExactly(x: Ctx, available: nat)
    requires Valid(x) && available > 0
    ensures Partitions(Plan(x, available), 0, |x.tiles|) <==> x.nWindows == 1 || available < WINDOW_SIZE
    ensures x.nWindows == 1 || available < WINDOW_SIZE ==>
              forall p :: p in Plan(x, available) ==>
                Numbered(p.at) && p.at.w < MAX_WINDOWS && 0 < p.count <= available && TilePtr(p.at.w, p.at.fcn) == p.at.ptr
  {
    var remaining := if x.nWindows == 1 then |x.tiles| else WINDOW_SIZE;
    var plan := Plan(x, available);
    if remaining <= available {
      assert plan[1..] == [];
    } else {
      var next := Cursor(0, WINDOW_SIZE - 1 - available, available);
      SendPlanExact(next, |x.tiles|, available);
      assert plan[1..] == SendPlan(next, |x.tiles|, available);
    }
  }

  // ---- A whole repair -------------------------------------------------------------------------

  /** Executions from the arrival of a report until the sender waits again. */
  function ResendAll(x: Ctx, available: nat): (o: Reaction)
    requires Valid(x) && x.state == Resending && available > 0
    requires Sound(RepairOf(x, available)) && x.windows != []
    ensures Valid(o.ctx)
    decreases |x.windows|, ZerosLeft(RepairOf(x, available))
  {
    ResendDecreases(RepairOf(x, available));
    var o := ResendNext(x, available);
    if o.ctx.state != Resending then o
    else
      var rest := ResendAll(o.ctx, available);
      Reaction(rest.ctx, o.frames + rest.frames)
  }

  /** RESEND emits the fragments of one repair and then asks for an acknowledgement. */
  lemma {:induction false} ResendAllIsRun(x: Ctx, available: nat)
    requires Valid(x) && x.state == Resending && available > 0
    requires Sound(RepairOf(x, available)) && x.windows != []
    ensures var (pieces, last) := Run(RepairOf(x, available));
            && Within(pieces, |x.tiles|)
            && ResendAll(x, available).frames == Fragments(x.k, x.tiles, pieces) + [AckRequestMsg(x.cursor.w)]
            && ResendAll(x, available).ctx
               == x.(state := WaitAck, rows := last.rows, windows := [], lastConfirmed := last.current)
    decreases |x.windows|, ZerosLeft(RepairOf(x, available))
  {
    var r := RepairOf(x, available);
    RunExact(r);
    ResendDecreases(r);
    InRange(r);
    var o := ResendNext(x, available);
    if o.ctx.state == Resending {
      assert RepairOf(o.ctx, available) == Resend(r).repair;
      ResendAllIsRun(o.ctx, available);
      var rest := Run(Resend(r).repair).0;
      FragmentsAppend(x.k, x.tiles, Emitted(r), rest);
      Regrouped([], o.frames, Fragments(x.k, x.tiles, rest), [AckRequestMsg(x.cursor.w)]);
      assert [] + o.frames == o.frames;
    }
  }

  lemma FragmentsAppend(k: byte, tiles: seq<tile>, a: seq<Piece>, b: seq<Piece>)
    requires Within(a, |tiles|) && Within(b, |tiles|)
    ensures Within(a + b, |tiles|) && Fragments(k, tiles, a + b) == Fragments(k, tiles, a) + Fragments(k, tiles, b)
  {
  }

  // ---- Messages -------------------------------------------------------------------------------

  predicate Acknowledges(msg: seq<byte>, w: nat) {
    msg != [] && AckType(msg) == Ack && COf(msg) == 1 && WOf(msg) == w
  }

  /** One message, dispatched on the state. */
  function Receive(x: Ctx, msg: seq<byte>): (o: Reaction)
    requires Valid(x) && msg != []
    ensures Valid(o.ctx)
  {
    match x.state
    case Send =>
      if Acknowledges(msg, 1) then Reaction(x.(state := WaitAck), [AllOne(x)]) else Reaction(x, [])
    case WaitAck =>
      if Acknowledges(msg, 3) then Reaction(x.(state := End), [])
      else if AckType(msg) == CompoundAck then Reaction(Reported(x, msg), [])
      else Reaction(x, [])
    case Resending => if Acknowledges(msg, 3) then Reaction(x.(state := End), []) else Reaction(x, [])
    case _ => Reaction(x, [])
  }

  function Reported(x: Ctx, msg: seq<byte>): (y: Ctx)
    requires Valid(x) && msg != []
    ensures Valid(y)
  {
    match ReadAck(msg, Compound, x.rows)
    case OutOfBounds => x.(state := Fault)
    case AckContents(windows, rows) => x.(state := Resending, rows := rows, windows := windows)
  }

  // ---- The object -----------------------------------------------------------------------------

  class Sender {
    const code: Code
    const overhead: fraction
    const mtu: nat
    var state: State
    var currentWindow: nat
    var currentFcn: nat
    var currentTilePtr: nat
    var bitmapArray: seq<seq<bit>>
    var winWithErrors: seq<nat>
    var lastConfirmedWindow: nat
    var kSymbols: nat
    var rSymbols: nat
    var nSymbols: nat
    var dataMatrix: matrix
    var encodedMatrix: matrix
    var residualBits: seq<bit>
    var tilesArray: seq<tile>
    var lastTile: seq<byte>
    var rcs: Rcs.word
    var nWindows: nat

    function Context(): Ctx
      reads this
    {
      Ctx(state, Cursor(currentWindow, currentFcn, currentTilePtr), bitmapArray, winWithErrors, lastConfirmedWindow,
          kSymbols, tilesArray, lastTile, rcs, nWindows)
    }

    /** MTU less the SCHC header and the byte that carries `k`, in tiles. */
    function Available(): nat {
      if mtu < 2 then 0 else (mtu - 2) / TILE_SIZE
    }

    constructor (code: Code, overhead: fraction, mtu: nat)
      ensures state == Init && this.code == code && this.overhead == overhead && this.mtu == mtu
      ensures lastTile == [] && residualBits == [] && winWithErrors == [] && lastConfirmedWindow == 255
    {
      this.code, this.overhead, this.mtu := code, overhead, mtu;
      state, currentWindow, currentFcn, currentTilePtr := Init, 0, 0, 0;
      bitmapArray, winWithErrors, lastConfirmedWindow := [], [], 255;
      kSymbols, rSymbols, nSymbols := 0, 0, 0;
      dataMatrix, encodedMatrix, residualBits := [], [], [];
      tilesArray, lastTile, rcs, nWindows := [], [], Rcs.ZERO, 0;
    }

    /** `generateDataMatrix` */
    method GenerateDataMatrix(packet: seq<byte>)
      requires residualBits == []
      modifies this`kSymbols, this`rSymbols, this`nSymbols, this`dataMatrix, this`residualBits
      ensures kSymbols == Symbols(packet) && rSymbols == ParityOf(packet, overhead) && nSymbols == kSymbols + rSymbols
      ensures dataMatrix == DataMatrix(packet) && residualBits == Bits(Residue(packet))
    {
      kSymbols := 8 * |packet| / (TILE_SIZE * 8);
      assert kSymbols == Symbols(packet);
      rSymbols := ArqFecReceiver.Parity(kSymbols, overhead);
      nSymbols := kSymbols + rSymbols;
      dataMatrix := [];
      for i := 0 to TILE_SIZE
        invariant dataMatrix == DataMatrix(packet)[..i] && residualBits == []
        invariant kSymbols == Symbols(packet) && rSymbols == ParityOf(packet, overhead) && nSymbols == kSymbols + rSymbols
      {
        var row := FillRow(packet, kSymbols, i);
        dataMatrix := dataMatrix + [row];
      }
      var d := TILE_SIZE * kSymbols;
      for i := d to |packet|
        invariant residualBits == Bits(packet[d..i]) && dataMatrix == DataMatrix(packet)
        invariant kSymbols == Symbols(packet) && rSymbols == ParityOf(packet, overhead) && nSymbols == kSymbols + rSymbols
      {
        var bits := MessageCodec.UnpackBits([packet[i]]);
        BitsAppend(packet[d..i], [packet[i]]);
        assert packet[d..i] + [packet[i]] == packet[d..i + 1];
        residualBits := residualBits + bits;
      }
      assert packet[d..|packet|] == Residue(packet);
    }

    static method FillRow(packet: seq<byte>, k: nat, i: nat) returns (row: seq<byte>)
      requires k == Symbols(packet) && i < TILE_SIZE
      ensures row == RowOf(packet, k, i)
    {
      row := [];
      var expected := RowOf(packet, k, i);
      for j := 0 to k
        invariant row == expected[..j]
      {
        assert expected[j] == packet[i * k + j];
        row := row + [packet[i * k + j]];
      }
    }

    /** `generateEncodedMatrix` */
    method GenerateEncodedMatrix()
      requires |dataMatrix| == TILE_SIZE
      modifies this`encodedMatrix
      ensures encodedMatrix == Encoded(code, dataMatrix, rSymbols)
    {
      encodedMatrix := [];
      for i := 0 to TILE_SIZE
        invariant encodedMatrix == Encoded(code, dataMatrix, rSymbols)[..i]
      {
        encodedMatrix := encodedMatrix + [code.encode(dataMatrix[i], rSymbols)];
      }
    }

    /** `generateencodedSCHCpacket` */
    method Serialise() returns (serial: seq<byte>)
      requires Shaped(encodedMatrix, nSymbols)
      ensures serial == Serialised(encodedMatrix, nSymbols)
    {
      serial := [];
      for j := 0 to nSymbols
        invariant serial == Serialised(encodedMatrix, nSymbols)[..TILE_SIZE * j]
      {
        for i := 0 to TILE_SIZE
          invariant serial == Serialised(encodedMatrix, nSymbols)[..TILE_SIZE * j + i]
        {
          assert (TILE_SIZE * j + i) / TILE_SIZE == j && (TILE_SIZE * j + i) % TILE_SIZE == i;
          serial := serial + [encodedMatrix[i][j]];
        }
      }
    }

    /** `divideInTiles` */
    method DivideInTiles(serial: seq<byte>)
      requires |residualBits| % 8 == 0 && lastTile == []
      modifies this`tilesArray, this`lastTile, this`nWindows
      ensures tilesArray == Cut(serial, |serial| / TILE_SIZE)
      ensures lastTile == Pack(residualBits) && nWindows == WindowsFor(|serial|)
    {
      var residualBytes := MessageCodec.PackBits(residualBits);
      tilesArray := [];
      var k := 0;
      for i := 0 to |serial| / TILE_SIZE
        invariant k == TILE_SIZE * i && tilesArray == Cut(serial, |serial| / TILE_SIZE)[..i] && lastTile == []
      {
        var row: seq<byte> := [];
        for j := 0 to TILE_SIZE
          invariant k == TILE_SIZE * i + j && row == serial[TILE_SIZE * i..k]
        {
          row := row + [serial[k]];
          k := k + 1;
        }
        tilesArray := tilesArray + [row];
      }
      lastTile := residualBytes + lastTile;
      if |serial| > TILE_SIZE * WINDOW_SIZE * 3 {
        nWindows := 4;
      } else if |serial| > TILE_SIZE * WINDOW_SIZE * 2 {
        nWindows := 3;
      } else if |serial| > TILE_SIZE * WINDOW_SIZE {
        nWindows := 2;
      } else {
        nWindows := 1;
      }
    }

    /** The preparing half of INIT. */
    method Prepare(packet: seq<byte>)
      requires state == Init && lastTile == [] && residualBits == [] && winWithErrors == [] && lastConfirmedWindow == 255
      requires Encodable(packet, code, overhead)
      modifies this
      ensures Context() == Prepared(packet, code, overhead)
    {
      currentWindow, currentFcn, currentTilePtr := 0, WINDOW_SIZE - 1, 0;
      rcs := Rcs.CalculateCrc32(packet);
      GenerateDataMatrix(packet);
      GenerateEncodedMatrix();
      var serial := Serialise();
      PackOfBits(Residue(packet));
      DivideInTiles(serial);
      assert |serial| / TILE_SIZE == nSymbols;
      bitmapArray := NoTiles(nWindows);
    }

    method SendFragment(w: nat, fcn: nat, ptr: nat, count: nat) returns (frame: seq<byte>)
      requires kSymbols < 256 && ptr + count <= |tilesArray|
      ensures frame == Fragment(kSymbols, tilesArray, Piece(Cursor(w, fcn, ptr), count))
    {
      var payload := ExtractTiles(tilesArray, ptr, count);
      frame := RegularFragmentMsg(w, fcn, [kSymbols] + payload);
    }

    /** INIT */
    method Begin(packet: seq<byte>) returns (frames: seq<seq<byte>>)
      requires state == Init && lastTile == [] && residualBits == [] && winWithErrors == [] && lastConfirmedWindow == 255
      requires Encodable(packet, code, overhead) && Available() > 0
      modifies this
      ensures Reaction(Context(), frames) == Start(packet, code, overhead, Available())
    {
      Prepare(packet);
      frames := SendFirst();
    }

    method SendFirst() returns (frames: seq<seq<byte>>)
      requires Valid(Context()) && state == Init && Context().cursor == START && Available() > 0
      modifies this`currentTilePtr, this`currentFcn, this`state
      ensures Reaction(Context(), frames) == First(old(Context()), Available())
    {
      var remaining: int;
      if currentWindow == nWindows - 1 {
        remaining := |tilesArray| - currentTilePtr;
      } else {
        remaining := currentFcn + 1;
      }
      if remaining > Available() {
        var frame := SendFragment(currentWindow, currentFcn, currentTilePtr, Available());
        frames := [frame];
        currentTilePtr, currentFcn := currentTilePtr + Available(), currentFcn - Available();
        state := Send;
      } else {
        var frame := SendFragment(currentWindow, currentFcn, currentTilePtr, remaining);
        frames := [frame];
        if currentWindow == nWindows - 1 {
          frames := frames + [AllOneMsg(currentWindow, rcs, lastTile)];
        }
        currentTilePtr, currentFcn := currentTilePtr + remaining, (currentFcn - remaining) % 256;
        state := WaitAck;
      }
    }

    /** SEND and RESEND_MISSING_FRAGS without a message. */
    method ExecuteAgain() returns (frames: seq<seq<byte>>)
      requires Valid(Context()) && Available() > 0
      modifies this
      ensures Reaction(Context(), frames) == Execute(old(Context()), Available())
    {
      frames := [];
      if state == Send {
        frames := SendTiles();
      } else if state == Resending {
        frames := ResendTiles();
      }
    }

    method SendTiles() returns (frames: seq<seq<byte>>)
      requires Valid(Context()) && Available() > 0 && state == Send
      modifies this
      ensures Reaction(Context(), frames) == SendNext(old(Context()), Available())
    {
      if currentTilePtr > |tilesArray| {
        state := Fault;
        return [];
      }
      var remaining := |tilesArray| - currentTilePtr;
      if remaining > Available() {
        var n: int := Available();
        var frame := SendFragment(currentWindow, currentFcn, currentTilePtr, n);
        frames := [frame];
        currentTilePtr := currentTilePtr + n;
        if currentFcn - n <= -1 {
          currentFcn := (currentFcn - n + WINDOW_SIZE) % 256;
          currentWindow := (currentWindow + 1) % 256;
        } else {
          currentFcn := currentFcn - n;
        }
      } else {
        var frame := SendFragment(currentWindow, currentFcn, currentTilePtr, remaining);
        frames := [frame];
        currentTilePtr := currentTilePtr + remaining;
        if currentWindow == nWindows - 1 {
          frames := frames + [AllOneMsg(currentWindow, rcs, lastTile)];
        }
        state := WaitAck;
      }
    }

    method ResendTiles() returns (frames: seq<seq<byte>>)
      requires Valid(Context()) && Available() > 0 && state == Resending
      modifies this
      ensures Reaction(Context(), frames) == ResendNext(old(Context()), Available())
    {
      ghost var r := RepairOf(Context(), Available());
      if !Sound(RepairOf(Context(), Available())) || Target(RepairOf(Context(), Available())) >= nWindows {
        state := Fault;
        return [];
      }
      ghost var from, n;
      frames, from, n := ResendRun(r);
      FramesOfGap(r, kSymbols, tilesArray, from, n);
      var request := FinishWindow(Marked(r));
      frames := frames + request;
    }

    method ResendRun(ghost r: Repair) returns (frames: seq<seq<byte>>, ghost from: nat, ghost n: nat)
      requires Valid(Context()) && r == RepairOf(Context(), Available()) && Sound(r) && Target(r) < r.nWindows
      modifies this`lastConfirmedWindow, this`bitmapArray
      ensures RepairOf(Context(), Available()) == Marked(r)
      ensures Gap(r) == (from, from + n) && (from < WINDOW_SIZE || n == 0) && Target(r) * WINDOW_SIZE + from + n <= |tilesArray|
      ensures frames == RunFrames(kSymbols, tilesArray, Target(r), from, n)
    {
      if winWithErrors != [] {
        lastConfirmedWindow := winWithErrors[0];
      }
      var first, count := FirstRun(r, bitmapArray[lastConfirmedWindow],
                                   LastPtr(lastConfirmedWindow, nWindows, |tilesArray|), Available());
      from, n := first, count;
      assert (from < WINDOW_SIZE || n == 0) && Target(r) * WINDOW_SIZE + from + n <= |tilesArray|;
      frames := SendRun(first, count);
    }

    /** Looks for tiles still missing and, without any, strikes the window off the list; after the last
        window, asks for an acknowledgement. */
    method FinishWindow(ghost r: Repair) returns (request: seq<seq<byte>>)
      requires Valid(Context()) && r == RepairOf(Context(), Available()) && Sound(r) && r.current < r.nWindows
      modifies this`winWithErrors, this`state
      ensures RepairOf(Context(), Available()) == Settled(r).repair
      ensures request == if Settled(r).Finished? then [AckRequestMsg(currentWindow)] else []
      ensures state == if Settled(r).Finished? then WaitAck else old(state)
    {
      request := [];
      var missing := AnyMissing(bitmapArray[lastConfirmedWindow], LastPtr(lastConfirmedWindow, nWindows, |tilesArray|));
      if !missing && winWithErrors != [] {
        winWithErrors := winWithErrors[1..];
        if winWithErrors == [] {
          request := [AckRequestMsg(currentWindow)];
          state := WaitAck;
        }
      }
    }

    /** Sends a run of missing tiles of the window being repaired and marks it sent. */
    method SendRun(from: nat, n: nat) returns (frames: seq<seq<byte>>)
      requires kSymbols < 256 && lastConfirmedWindow < |bitmapArray| && from + n <= |bitmapArray[lastConfirmedWindow]|
      requires from < WINDOW_SIZE || n == 0
      requires lastConfirmedWindow * WINDOW_SIZE + from + n <= |tilesArray|
      modifies this`bitmapArray
      ensures frames == RunFrames(kSymbols, tilesArray, lastConfirmedWindow, from, n)
      ensures bitmapArray == old(bitmapArray)[lastConfirmedWindow := Mark(old(bitmapArray)[lastConfirmedWindow], from, from + n)]
    {
      var w := lastConfirmedWindow;
      if n == 0 {
        assert Mark(bitmapArray[w], from, from) == bitmapArray[w];
        return [];
      }
      var frame := SendFragment(w, WINDOW_SIZE - 1 - from, w * WINDOW_SIZE + from, n);
      frames := [frame];
      var row := MarkSent(bitmapArray[w], from, n);
      bitmapArray := bitmapArray[w := row];
    }

    method OnMessage(msg: seq<byte>) returns (frames: seq<seq<byte>>)
      requires Valid(Context()) && msg != []
      modifies this
      ensures Reaction(Context(), frames) == Receive(old(Context()), msg)
    {
      frames := [];
      var kind := AckType(msg);
      if state == Send && kind == Ack && COf(msg) == 1 && WOf(msg) == 1 {
        frames := [AllOneMsg(currentWindow, rcs, lastTile)];
        state := WaitAck;
      } else if (state == WaitAck || state == Resending) && kind == Ack && COf(msg) == 1 && WOf(msg) == 3 {
        state := End;
      } else if state == WaitAck && kind == CompoundAck {
        if ReadAck(msg, Compound, bitmapArray).OutOfBounds? {
          state := Fault;
        } else {
          var decoder := new MessageCodec.SchcMessage();
          bitmapArray := decoder.DecodeAck(msg, Compound, bitmapArray);
          winWithErrors := decoder.windowsWithError;
          state := Resending;
        }
      }
    }
  }
}
