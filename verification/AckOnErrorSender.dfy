/** The ACK-on-Error sender in its session and compound modes: INIT, SEND, WAIT_X_ACK,
    RESEND_MISSING_FRAG, END and ERROR, first as a function from one context to the next, then as
    the object that updates its fields. */
module AckOnErrorSender {
  import opened Bytes
  import opened Message
  import opened Tiling
  import opened Numbering
  import opened Retransmission
  import opened WindowBitmaps
  import AckOnErrorReceiver
  import MessageCodec
  import Rcs

  const MAX_ACK_REQUESTS := 8

  type Mode = AckOnErrorReceiver.Mode

  datatype State =
    | Init | Send | WaitAck | Resending | End | Error
    | Fault // an access outside a buffer

  datatype Ctx = Ctx(state: State, mode: Mode, cursor: Cursor, rows: seq<seq<bit>>, windows: seq<nat>, lastConfirmed: nat,
                     attempts: nat, tiles: seq<tile>, lastTile: seq<byte>, rcs: Rcs.word, nWindows: nat)

  datatype Reaction = Reaction(ctx: Ctx, frames: seq<seq<byte>>)

  predicate Valid(x: Ctx) {
    x.state == Init || (x.nWindows >= 1 && |x.tiles| <= x.nWindows * WINDOW_SIZE)
  }

  function Fresh(mode: Mode): (x: Ctx)
    ensures Valid(x)
  {
    Ctx(Init, mode, Cursor(0, 0, 0), [], [], 255, 0, [], [], Rcs.ZERO, 0)
  }

  // ---- Frames ---------------------------------------------------------------------------------

  function Fragment(tiles: seq<tile>, p: Piece): seq<byte>
    requires p.at.ptr + p.count <= |tiles|
  {
    RegularFragmentMsg(p.at.w, p.at.fcn, Concat(tiles[p.at.ptr..p.at.ptr + p.count]))
  }

  function Fragments(tiles: seq<tile>, pieces: seq<Piece>): (frames: seq<seq<byte>>)
    requires Within(pieces, |tiles|)
    ensures |frames| == |pieces|
  {
    seq(|pieces|, i requires 0 <= i < |pieces| => Fragment(tiles, pieces[i]))
  }

  function AllOne(x: Ctx): seq<byte> {
    AllOneMsg(x.cursor.w, x.rcs, x.lastTile)
  }

  // ---- The states without a message -------------------------------------------------------------

  /** INIT: a packet that needs more than four windows is refused and leaves the state as it is. */
  function Start(x: Ctx, packet: seq<byte>): (y: Ctx)
    requires packet != [] && x.state == Init
    ensures Valid(y)
  {
    if |packet| > MAX_PACKET then x
    else
      TilingExact(packet);
      var nWindows := WindowsFor(|packet|);
      x.(state := Send, cursor := START, rows := NoTiles(nWindows), tiles := PacketTiles(packet),
         lastTile := LastTile(packet), rcs := Rcs.Crc32(packet), nWindows := nWindows)
  }

  function SendNext(x: Ctx, available: nat): (o: Reaction)
    requires Valid(x) && x.state == Send && available > 0
    ensures Valid(o.ctx)
  {
    if x.cursor.ptr > |x.tiles| then Reaction(x.(state := Fault), [])
    else
      var remaining := |x.tiles| - x.cursor.ptr;
      if remaining > available then
        Reaction(x.(cursor := Advance(x.cursor, available)), [Fragment(x.tiles, Piece(x.cursor, available))])
      else
        Reaction(x.(state := WaitAck, cursor := x.cursor.(ptr := |x.tiles|)),
                 [Fragment(x.tiles, Piece(x.cursor, remaining))]
                 + if x.cursor.w == x.nWindows - 1 then [AllOne(x)] else [])
  }

  function RepairOf(x: Ctx, available: nat): Repair {
    Repair(x.rows, if x.mode == Compound then x.windows else [], x.lastConfirmed, x.nWindows, |x.tiles|, available)
  }

  /** Compound mode walks the reported windows; session mode repairs the last confirmed window only. */
  function ResendNext(x: Ctx, available: nat): (o: Reaction)
    requires Valid(x) && x.state == Resending && available > 0
    ensures Valid(o.ctx)
  {
    var r := RepairOf(x, available);
    if !Sound(r) || Target(r) >= r.nWindows then Reaction(x.(state := Fault), [])
    else
      InRange(r);
      var o := Resend(r);
      var next := x.(rows := o.repair.rows, windows := if x.mode == Compound then o.repair.windows else x.windows,
                     lastConfirmed := o.repair.current);
      Reaction(if o.Finished? || (o.Stuck? && x.mode == EndOfSession) then next.(state := WaitAck) else next,
               Fragments(x.tiles, Emitted(r)))
  }

  lemma InRange(r: Repair)
    requires Sound(r) && Target(r) < r.nWindows
    ensures Within(Emitted(r), r.nFullTiles)
  {
  }

  function Execute(x: Ctx, available: nat): (o: Reaction)
    requires Valid(x) && available > 0
    ensures Valid(o.ctx)
  {
    match x.state
    case Send => SendNext(x, available)
    case Resending => ResendNext(x, available)
    case _ => Reaction(x, [])
  }

  /** The retransmission timer: ask again, a bounded number of times. */
  function Timeout(x: Ctx): (o: Reaction)
    requires Valid(x)
    ensures Valid(o.ctx)
  {
    if x.state != WaitAck then Reaction(x, [])
    else if x.attempts <= MAX_ACK_REQUESTS then Reaction(x.(attempts := x.attempts + 1), [AckRequestMsg(x.cursor.w)])
    else Reaction(x.(state := Error), [])
  }

  // ---- Messages -------------------------------------------------------------------------------

  /** `WAIT_X_ACK` on an ACK or a compound ACK. */
  function Acknowledged(x: Ctx, msg: seq<byte>): (y: Ctx)
    requires Valid(x) && x.state == WaitAck && msg != [] && (AckType(msg) == Ack || AckType(msg) == CompoundAck)
    ensures Valid(y)
  {
    var mechanism := if AckType(msg) == CompoundAck then Compound else x.mode;
    match ReadAck(msg, mechanism, x.rows)
    case OutOfBounds => x.(state := Fault)
    case AckContents(windows, rows) =>
      var read := x.(rows := rows, attempts := 0, state := if COf(msg) == 1 then End else Resending);
      if AckType(msg) == CompoundAck then read.(windows := windows)
      else if x.mode == Compound then read.(windows := x.windows + [WOf(msg)])
      else read.(lastConfirmed := WOf(msg))
  }

  /** The same in terms of what the acknowledgement says. */
  lemma AcknowledgedIs(x: Ctx, msg: seq<byte>, mechanism: AckMechanism)
    requires Valid(x) && x.state == WaitAck && msg != [] && (AckType(msg) == Ack || AckType(msg) == CompoundAck)
    requires mechanism == if AckType(msg) == CompoundAck then Compound else x.mode
    requires ReadAck(msg, mechanism, x.rows).AckContents?
    ensures var a, compound := ReadAck(msg, mechanism, x.rows), AckType(msg) == CompoundAck;
            Acknowledged(x, msg)
            == x.(rows := a.rows, attempts := 0, state := if COf(msg) == 1 then End else Resending,
                  windows := if compound then a.windows else if x.mode == Compound then x.windows + [WOf(msg)] else x.windows,
                  lastConfirmed := if !compound && x.mode == EndOfSession then WOf(msg) else x.lastConfirmed)
  {
  }

  /** In session mode the bits of a NACK go behind the 63 flags of their row, which are all that the
      retransmission looks at: what is resent does not depend on the bitmap received. */
  lemma SessionNackIgnored(x: Ctx, w: nat, bitmap: seq<bit>, available: nat)
    requires Valid(x) && x.state == WaitAck && x.mode == EndOfSession && available > 0
    requires w < MAX_WINDOWS && w < |x.rows| && |x.rows[w]| >= WINDOW_SIZE && |bitmap| == WINDOW_SIZE
    ensures var m := NegativeAckMsg(w, bitmap, true);
            && m != [] && AckType(m) == Ack
            && var y := Acknowledged(x, m);
               && y.state == Resending && y.lastConfirmed == w
               && y.rows[w][..WINDOW_SIZE] == x.rows[w][..WINDOW_SIZE]
               && forall a :: 0 <= a < |x.rows| && a != w ==> y.rows[a] == x.rows[a]
  {
    var m := NegativeAckMsg(w, bitmap, true);
    LastZeroMeaning(bitmap);
    NegativeAckAppends(w, bitmap, EndOfSession, x.rows);
    PackedHeader(w, CompressedBitmap(bitmap));
    assert |m| <= 9;
    assert (x.rows[w] + CompressedBitmap(bitmap))[..WINDOW_SIZE] == x.rows[w][..WINDOW_SIZE];
  }

  /** One message. SEND takes any message as a call to go on; RESEND ignores messages. */
  function Receive(x: Ctx, msg: seq<byte>, available: nat): (o: Reaction)
    requires Valid(x) && msg != [] && available > 0
    ensures Valid(o.ctx)
  {
    match x.state
    case Send => SendNext(x, available)
    case WaitAck =>
      Reaction(if AckType(msg) == Ack || AckType(msg) == CompoundAck then Acknowledged(x, msg) else x, [])
    case _ => Reaction(x, [])
  }

  // ---- A whole transmission -----------------------------------------------------------------------

  /** Executions of SEND until the sender waits. */
  function SendAll(x: Ctx, available: nat): (o: Reaction)
    requires Valid(x) && x.state == Send && available > 0 && x.cursor.ptr <= |x.tiles|
    decreases |x.tiles| - x.cursor.ptr
  {
    var o := SendNext(x, available);
    if o.ctx.state != Send then o
    else
      var rest := SendAll(o.ctx, available);
      Reaction(rest.ctx, o.frames + rest.frames)
  }

  /** The All-1 goes out with the last fragment exactly when that one starts in the last window. */
  function Closing(x: Ctx, last: Piece): seq<seq<byte>> {
    if last.at.w == x.nWindows - 1 then [AllOneMsg(last.at.w, x.rcs, x.lastTile)] else []
  }

  /** One execution of SEND cuts the first planned piece; the last one also closes. */
  lemma SendNextIsPlanned(x: Ctx, available: nat)
    requires Valid(x) && x.state == Send && available > 0 && x.cursor.ptr <= |x.tiles|
    ensures var o, plan := SendNext(x, available), SendPlan(x.cursor, |x.tiles|, available);
            && plan != [] && Within(plan, |x.tiles|)
            && (o.ctx.state == Send ==>
                  && o.ctx == x.(cursor := Advance(x.cursor, available)) && x.cursor.ptr < o.ctx.cursor.ptr <= |x.tiles|
                  && plan[1..] == SendPlan(o.ctx.cursor, |x.tiles|, available) && plan[1..] != []
                  && o.frames == [Fragment(x.tiles, plan[0])])
            && (o.ctx.state != Send ==>
                  && o.ctx == x.(state := WaitAck, cursor := x.cursor.(ptr := |x.tiles|)) && plan[1..] == []
                  && o.frames == [Fragment(x.tiles, plan[0])] + Closing(x, plan[0]))
  {
    SendPlanWithin(x.cursor, |x.tiles|, available);
    if |x.tiles| - x.cursor.ptr > available {
      SendPlanWithin(Advance(x.cursor, available), |x.tiles|, available);
    }
  }

  lemma {:induction false} SendAllIsPlan(x: Ctx, available: nat)
    requires Valid(x) && x.state == Send && available > 0 && x.cursor.ptr <= |x.tiles|
    ensures var plan := SendPlan(x.cursor, |x.tiles|, available);
            && Within(plan, |x.tiles|) && plan != []
            && SendAll(x, available).frames == Fragments(x.tiles, plan) + Closing(x, plan[|plan| - 1])
            && SendAll(x, available).ctx.state == WaitAck
    decreases |x.tiles| - x.cursor.ptr
  {
    var plan := SendPlan(x.cursor, |x.tiles|, available);
    var o := SendNext(x, available);
    SendNextIsPlanned(x, available);
    FirstFragment(x.tiles, plan);
    if o.ctx.state != Send {
      assert Fragments(x.tiles, []) == [];
    } else {
      SendAllIsPlan(o.ctx, available);
      var rest := plan[1..];
      assert plan[|plan| - 1] == rest[|rest| - 1];
      Regrouped([], o.frames, Fragments(x.tiles, rest), Closing(x, rest[|rest| - 1]));
      assert [] + o.frames == o.frames;
    }
  }

  lemma FirstFragment(tiles: seq<tile>, plan: seq<Piece>)
    requires plan != [] && Within(plan, |tiles|)
    ensures Within(plan[1..], |tiles|) && Fragments(tiles, plan) == [Fragment(tiles, plan[0])] + Fragments(tiles, plan[1..])
  {
  }

  /** From the packet to WAIT_X_ACK: the fragments partition the full tiles in order, each under the
      number the receiver maps back to its first tile; no 8-bit counter wraps. */
  lemma TransmissionExact(x: Ctx, packet: seq<byte>, available: nat)
    requires x == Fresh(x.mode) && 1 <= |packet| <= MAX_PACKET && 1 <= available <= WINDOW_SIZE
    ensures var y := Start(x, packet);
            && y.state == Send && y.cursor == START
            && var plan := SendPlan(START, FullTiles(|packet|), available);
               && Within(plan, |y.tiles|) && plan != []
               && SendAll(y, available).frames == Fragments(PacketTiles(packet), plan) + Closing(y, plan[|plan| - 1])
               && Partitions(plan, 0, FullTiles(|packet|))
               && forall p :: p in plan ==>
                    Numbered(p.at) && p.at.w < MAX_WINDOWS && p.count <= available && TilePtr(p.at.w, p.at.fcn) == p.at.ptr
  {
    TilingExact(packet);
    SendAllIsPlan(Start(x, packet), available);
    SendPlanExact(START, FullTiles(|packet|), available);
  }

  // ---- A whole repair -------------------------------------------------------------------------

  /** Executions from the arrival of a report until the sender waits again. */
  function ResendAll(x: Ctx, available: nat): (o: Reaction)
    requires Valid(x) && x.state == Resending && x.mode == Compound && available > 0
    requires Sound(RepairOf(x, available)) && x.windows != []
    ensures Valid(o.ctx)
    decreases |x.windows|, ZerosLeft(RepairOf(x, available))
  {
    ResendDecreases(RepairOf(x, available));
    var o := ResendNext(x, available);
    if o.ctx.state != Resending then o
    else
      var rest := ResendAll(o.ctx, available);
      Reaction(rest.ctx, o.frames + rest.frames)
  }

  lemma {:induction false} ResendAllIsRun(x: Ctx, available: nat)
    requires Valid(x) && x.state == Resending && x.mode == Compound && available > 0
    requires Sound(RepairOf(x, available)) && x.windows != []
    ensures var (pieces, last) := Run(RepairOf(x, available));
            && Within(pieces, |x.tiles|)
            && ResendAll(x, available).frames == Fragments(x.tiles, pieces)
            && ResendAll(x, available).ctx.state == WaitAck && ResendAll(x, available).ctx.windows == []
    decreases |x.windows|, ZerosLeft(RepairOf(x, available))
  {
    var r := RepairOf(x, available);
    ResendDecreases(r);
    InRange(r);
    var o := ResendNext(x, available);
    if o.ctx.state == Resending {
      assert RepairOf(o.ctx, available) == Resend(r).repair;
      ResendAllIsRun(o.ctx, available);
      FragmentsAppend(x.tiles, Emitted(r), Run(Resend(r).repair).0);
    }
  }

  lemma FragmentsAppend(tiles: seq<tile>, a: seq<Piece>, b: seq<Piece>)
    requires Within(a, |tiles|) && Within(b, |tiles|)
    ensures Within(a + b, |tiles|) && Fragments(tiles, a + b) == Fragments(tiles, a) + Fragments(tiles, b)
  {
  }

  /** Session mode: executions from the arrival of a NACK until the sender waits again. */
  function ResendAlone(x: Ctx, available: nat): (o: Reaction)
    requires Valid(x) && x.state == Resending && x.mode == EndOfSession && available > 0
    requires Alone(RepairOf(x, available))
    ensures Valid(o.ctx)
    decreases ZerosLeft(RepairOf(x, available))
  {
    AloneDecreases(RepairOf(x, available));
    var o := ResendNext(x, available);
    if o.ctx.state != Resending then o
    else
      var rest := ResendAlone(o.ctx, available);
      Reaction(rest.ctx, o.frames + rest.frames)
  }

  lemma {:induction false} ResendAloneIsRun(x: Ctx, available: nat)
    requires Valid(x) && x.state == Resending && x.mode == EndOfSession && available > 0
    requires Alone(RepairOf(x, available))
    ensures var (pieces, last) := RunAlone(RepairOf(x, available));
            && Within(pieces, |x.tiles|)
            && ResendAlone(x, available).frames == Fragments(x.tiles, pieces)
            && ResendAlone(x, available).ctx == x.(state := WaitAck, rows := last.rows)
    decreases ZerosLeft(RepairOf(x, available))
  {
    var r := RepairOf(x, available);
    AloneDecreases(r);
    InRange(r);
    var o := ResendNext(x, available);
    if o.ctx.state == Resending {
      assert RepairOf(o.ctx, available) == Resend(r).repair;
      ResendAloneIsRun(o.ctx, available);
      FragmentsAppend(x.tiles, Emitted(r), RunAlone(Resend(r).repair).0);
    }
  }

  /** An unanswered sender asks nine times, then gives up. */
  function Timeouts(x: Ctx, n: nat): (o: Reaction)
    requires Valid(x)
    ensures Valid(o.ctx)
  {
    if n == 0 then Reaction(x, [])
    else
      var before := Timeouts(x, n - 1);
      var last := Timeout(before.ctx);
      Reaction(last.ctx, before.frames + last.frames)
  }

  lemma {:induction false} BoundedAttempts(x: Ctx, n: nat)
    requires Valid(x) && x.state == WaitAck && x.attempts <= MAX_ACK_REQUESTS + 1
    ensures var o, left := Timeouts(x, n), MAX_ACK_REQUESTS + 1 - x.attempts;
            && (o.ctx.state == Error <==> n > left)
            && o.frames == Repeat(AckRequestMsg(x.cursor.w), if n <= left then n else left)
            && o.ctx == x.(attempts := x.attempts + |o.frames|, state := if n > left then Error else WaitAck)
  {
    if n == 0 {
    } else {
      BoundedAttempts(x, n - 1);
    }
  }

  /** A sender that has just begun to wait, and is never answered, asks nine times and then gives up. */
  lemma NineRequests(x: Ctx)
    requires Valid(x) && x.state == WaitAck && x.attempts == 0
    ensures var r := AckRequestMsg(x.cursor.w);
            Timeouts(x, 10).frames == [r, r, r, r, r, r, r, r, r] && Timeouts(x, 10).ctx.state == Error && Timeouts(x, 9).ctx.state == WaitAck
  {
    BoundedAttempts(x, 9);
    BoundedAttempts(x, 10);
  }

  /** INIT takes packets of up to four windows of 63 ten-byte tiles: 2520 bytes. */
  lemma TakesPackets(x: Ctx, packet: seq<byte>)
    requires x == Fresh(x.mode) && packet != []
    ensures Start(x, packet).state == Send <==> |packet| <= 2520
    ensures |packet| > 2520 ==> Start(x, packet) == x
  {
  }

  // ---- The object -----------------------------------------------------------------------------

  class Sender {
    const mode: Mode
    const mtu: nat
    var state: State
    var currentWindow: nat
    var currentFcn: nat
    var currentTilePtr: nat
    var bitmapArray: seq<seq<bit>>
    var winWithErrors: seq<nat>
    var lastConfirmedWindow: nat
    var rtxAttemptsCounter: nat
    var tilesArray: seq<tile>
    var lastTile: seq<byte>
    var rcs: Rcs.word
    var nWindows: nat

    function Context(): Ctx
      reads this
    {
      Ctx(state, mode, Cursor(currentWindow, currentFcn, currentTilePtr), bitmapArray, winWithErrors, lastConfirmedWindow,
          rtxAttemptsCounter, tilesArray, lastTile, rcs, nWindows)
    }

    /** MTU less the SCHC header, in tiles. */
    function Available(): nat {
      if mtu < 1 then 0 else (mtu - 1) / TILE_SIZE
    }

    constructor (mode: Mode, mtu: nat)
      ensures Context() == Fresh(mode) && this.mtu == mtu
    {
      this.mode, this.mtu := mode, mtu;
      state, currentWindow, currentFcn, currentTilePtr := Init, 0, 0, 0;
      bitmapArray, winWithErrors, lastConfirmedWindow, rtxAttemptsCounter := [], [], 255, 0;
      tilesArray, lastTile, rcs, nWindows := [], [], Rcs.ZERO, 0;
    }

    /** INIT */
    method Begin(packet: seq<byte>)
      requires packet != [] && state == Init
      modifies this
      ensures Context() == Start(old(Context()), packet)
    {
      if |packet| > MAX_WINDOWS * WINDOW_SIZE * TILE_SIZE {
        return;
      }
      currentWindow, currentFcn, currentTilePtr := 0, WINDOW_SIZE - 1, 0;
      var nFullTiles;
      nFullTiles, tilesArray, lastTile, nWindows := DivideInTiles(packet);
      rcs := Rcs.CalculateCrc32(packet);
      bitmapArray := NoTiles(nWindows);
      state := Send;
    }

    method SendFragment(w: nat, fcn: nat, ptr: nat, count: nat) returns (frame: seq<byte>)
      requires ptr + count <= |tilesArray|
      ensures frame == Fragment(tilesArray, Piece(Cursor(w, fcn, ptr), count))
    {
      var payload := ExtractTiles(tilesArray, ptr, count);
      frame := RegularFragmentMsg(w, fcn, payload);
    }

    /** SEND, with or without a message. */
    method SendTiles() returns (frames: seq<seq<byte>>)
      requires Valid(Context()) && Available() > 0 && state == Send
      modifies this
      ensures Reaction(Context(), frames) == SendNext(old(Context()), Available())
    {
      if currentTilePtr > |tilesArray| {
        state := Fault;
        return [];
      }
      var remaining := |tilesArray| - currentTilePtr;
      if remaining > Available() {
        var n: int := Available();
        var frame := SendFragment(currentWindow, currentFcn, currentTilePtr, n);
        frames := [frame];
        currentTilePtr := currentTilePtr + n;
        if currentFcn - n <= -1 {
          currentFcn := (currentFcn - n + WINDOW_SIZE) % 256;
          currentWindow := (currentWindow + 1) % 256;
        } else {
          currentFcn := currentFcn - n;
        }
      } else {
        var frame := SendFragment(currentWindow, currentFcn, currentTilePtr, remaining);
        frames := [frame];
        currentTilePtr := currentTilePtr + remaining;
        if currentWindow == nWindows - 1 {
          frames := frames + [AllOneMsg(currentWindow, rcs, lastTile)];
        }
        state := WaitAck;
      }
    }

    /** One execution of RESEND_MISSING_FRAG. */
    method ResendTiles() returns (frames: seq<seq<byte>>)
      requires Valid(Context()) && Available() > 0 && state == Resending
      modifies this
      ensures Reaction(Context(), frames) == ResendNext(old(Context()), Available())
    {
      ghost var r := RepairOf(Context(), Available());
      if !Sound(RepairOf(Context(), Available())) || Target(RepairOf(Context(), Available())) >= nWindows {
        state := Fault;
        return [];
      }
      ghost var from, n;
      frames, from, n := ResendRun(r);
      FramesOfGap(r, tilesArray, from, n);
      FinishWindow(Marked(r));
    }

    /** Finds the first run of missing tiles, sends as much of it as fits and marks that as sent. */
    method ResendRun(ghost r: Repair) returns (frames: seq<seq<byte>>, ghost from: nat, ghost n: nat)
      requires r == RepairOf(Context(), Available()) && Sound(r) && Target(r) < r.nWindows
      modifies this`lastConfirmedWindow, this`bitmapArray
      ensures RepairOf(Context(), Available()) == Marked(r)
      ensures Gap(r) == (from, from + n) && (from < WINDOW_SIZE || n == 0) && Target(r) * WINDOW_SIZE + from + n <= |tilesArray|
      ensures frames == RunFrames(tilesArray, Target(r), from, n)
    {
      if mode == Compound && winWithErrors != [] {
        lastConfirmedWindow := winWithErrors[0];
      }
      var first, count := FirstRun(r, bitmapArray[lastConfirmedWindow],
                                   LastPtr(lastConfirmedWindow, nWindows, |tilesArray|), Available());
      from, n := first, count;
      assert (from < WINDOW_SIZE || n == 0) && Target(r) * WINDOW_SIZE + from + n <= |tilesArray|;
      frames := SendRun(first, count);
    }

    method SendRun(from: nat, n: nat) returns (frames: seq<seq<byte>>)
      requires lastConfirmedWindow < |bitmapArray| && from + n <= |bitmapArray[lastConfirmedWindow]|
      requires from < WINDOW_SIZE || n == 0
      requires lastConfirmedWindow * WINDOW_SIZE + from + n <= |tilesArray|
      modifies this`bitmapArray
      ensures frames == RunFrames(tilesArray, lastConfirmedWindow, from, n)
      ensures bitmapArray == old(bitmapArray)[lastConfirmedWindow := Mark(old(bitmapArray)[lastConfirmedWindow], from, from + n)]
    {
      var w := lastConfirmedWindow;
      if n == 0 {
        assert Mark(bitmapArray[w], from, from) == bitmapArray[w];
        return [];
      }
      var frame := SendFragment(w, WINDOW_SIZE - 1 - from, w * WINDOW_SIZE + from, n);
      frames := [frame];
      var row := MarkSent(bitmapArray[w], from, n);
      bitmapArray := bitmapArray[w := row];
    }

    /** Looks for tiles still missing; without any, strikes the window off the list and, after the
        last one, waits for the next ACK. */
    method FinishWindow(ghost r: Repair)
      requires r == RepairOf(Context(), Available()) && Sound(r) && r.current < r.nWindows && state == Resending
      modifies this`winWithErrors, this`state
      ensures RepairOf(Context(), Available()) == Settled(r).repair
      ensures mode == EndOfSession ==> winWithErrors == old(winWithErrors)
      ensures state == if Settled(r).Finished? || (Settled(r).Stuck? && mode == EndOfSession) then WaitAck else Resending
    {
      var missing := AnyMissing(bitmapArray[lastConfirmedWindow], LastPtr(lastConfirmedWindow, nWindows, |tilesArray|));
      if !missing && mode == EndOfSession {
        state := WaitAck;
      } else if !missing && winWithErrors != [] {
        winWithErrors := winWithErrors[1..];
        if winWithErrors == [] {
          state := WaitAck;
        }
      }
    }

    /** WAIT_X_ACK on a message. */
    method AcceptAck(msg: seq<byte>)
      requires Valid(Context()) && state == WaitAck && msg != []
      modifies this
      ensures Reaction(Context(), []) == Receive(old(Context()), msg, 1)
    {
      var kind := AckType(msg);
      if kind != Ack && kind != CompoundAck {
        return;
      }
      var mechanism := if kind == CompoundAck then Compound else mode;
      if ReadAck(msg, mechanism, bitmapArray).OutOfBounds? {
        state := Fault;
        return;
      }
      AcknowledgedIs(Context(), msg, mechanism);
      TakeAck(msg, kind, mechanism);
    }

    method TakeAck(msg: seq<byte>, kind: MsgType, mechanism: AckMechanism)
      requires msg != [] && ReadAck(msg, mechanism, bitmapArray).AckContents?
      modifies this
      ensures Context().(state := old(state), rows := old(bitmapArray), attempts := old(rtxAttemptsCounter),
                         windows := old(winWithErrors), lastConfirmed := old(lastConfirmedWindow)) == old(Context())
      ensures state == (if COf(msg) == 1 then End else Resending) && rtxAttemptsCounter == 0
      ensures var a := ReadAck(msg, mechanism, old(bitmapArray));
              && bitmapArray == a.rows
              && winWithErrors == (if kind == CompoundAck then a.windows
                                   else if mode == Compound then old(winWithErrors) + [WOf(msg)] else old(winWithErrors))
      ensures lastConfirmedWindow == if kind != CompoundAck && mode == EndOfSession then WOf(msg) else old(lastConfirmedWindow)
    {
      rtxAttemptsCounter := 0;
      var decoder := new MessageCodec.SchcMessage();
      bitmapArray := decoder.DecodeAck(msg, mechanism, bitmapArray);
      NoteWindows(kind, decoder.windowsWithError, decoder.w);
      state := if decoder.c == 1 then End else Resending;
    }

    /** What is to be repaired: the listed windows, one more window, or the window alone. */
    method NoteWindows(kind: MsgType, windows: seq<nat>, w: nat)
      modifies this`winWithErrors, this`lastConfirmedWindow
      ensures winWithErrors == if kind == CompoundAck then windows else if mode == Compound then old(winWithErrors) + [w] else old(winWithErrors)
      ensures lastConfirmedWindow == if kind != CompoundAck && mode == EndOfSession then w else old(lastConfirmedWindow)
    {
      if kind == CompoundAck {
        winWithErrors := windows;
      } else if mode == Compound {
        winWithErrors := winWithErrors + [w];
      } else {
        lastConfirmedWindow := w;
      }
    }

    method TimerExpired() returns (frames: seq<seq<byte>>)
      requires Valid(Context())
      modifies this`state, this`rtxAttemptsCounter
      ensures Reaction(Context(), frames) == Timeout(old(Context()))
    {
      frames := [];
      if state == WaitAck {
        if rtxAttemptsCounter <= MAX_ACK_REQUESTS {
          frames := [AckRequestMsg(currentWindow)];
          rtxAttemptsCounter := rtxAttemptsCounter + 1;
        } else {
          state := Error;
        }
      }
    }
  }

  /** The frame for `n` missing tiles of window `w` from position `from` on, if there are any. */
  function RunFrames(tiles: seq<tile>, w: nat, from: nat, n: nat): seq<seq<byte>>
    requires from < WINDOW_SIZE || n == 0
    requires w * WINDOW_SIZE + from + n <= |tiles|
  {
    if n == 0 then []
    else [Fragment(tiles, Piece(Cursor(w, WINDOW_SIZE - 1 - from, w * WINDOW_SIZE + from), n))]
  }

  lemma FramesOfGap(r: Repair, tiles: seq<tile>, from: nat, n: nat)
    requires Sound(r) && Target(r) < r.nWindows && r.nFullTiles == |tiles| && Gap(r) == (from, from + n)
    ensures from < WINDOW_SIZE || n == 0
    ensures Target(r) * WINDOW_SIZE + from + n <= |tiles|
    ensures Within(Emitted(r), |tiles|)
    ensures Fragments(tiles, Emitted(r)) == RunFrames(tiles, Target(r), from, n)
  {
  }
}
