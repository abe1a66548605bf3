/** The ACK-on-Error receiver in its session and compound modes: RCV_WINDOW, WAIT_X_MISSING_FRAG and
    END, first as a function from one context to the next, then as the object that updates its
    fields in loops. */
module AckOnErrorReceiver {
  import opened Bytes
  import opened Message
  import opened Tiling
  import opened Numbering
  import opened WindowBitmaps
  import MessageCodec
  import Rcs

  datatype State =
    | RcvWindow | WaitMissing | End
    | Fault // an access outside a buffer

  /** The two modes that acknowledge a whole session. */
  type Mode = m: AckMechanism | m == EndOfSession || m == Compound witness Compound

  /** `lastTileSize` lives in 8 bits, and the two states fill it in different units. */
  datatype Ctx = Ctx(state: State, mode: Mode, enabled: bool, tiles: seq<tile>, tilePtr: nat, bitmap: seq<seq<bit>>,
                     lastWindow: nat, lastConfirmed: nat, lastTile: seq<byte>, lastTileSize: nat, rcs: Rcs.word)

  datatype Reaction = Reaction(ctx: Ctx, replies: seq<seq<byte>>)

  predicate Valid(x: Ctx) {
    Bitmaps(x.bitmap, MAX_WINDOWS) && |x.tiles| == TOTAL_TILES && x.tilePtr <= TOTAL_TILES && x.lastWindow < MAX_WINDOWS
  }

  predicate Receiving(s: State) { s == RcvWindow || s == WaitMissing }

  /** The RCS register holds whatever it held before the All-1 sets it. */
  function Fresh(mode: Mode, rcs: Rcs.word): (x: Ctx)
    ensures Valid(x)
  {
    Ctx(RcvWindow, mode, false, seq(TOTAL_TILES, _ => Repeat(0, TILE_SIZE)), 0, NoTiles(MAX_WINDOWS), 0, 0,
        Repeat(0, TILE_SIZE), 0, rcs)
  }

  // ---- Regular fragments ----------------------------------------------------------------------

  function StoredTiles(tiles: seq<tile>, first: nat, count: nat, payload: seq<byte>): (stored: seq<tile>)
    requires |payload| >= TILE_SIZE * count
    ensures |stored| == |tiles|
  {
    seq(|tiles|, t requires 0 <= t < |tiles| => TileAfter(tiles, first, count, payload, t))
  }

  function TileAfter(tiles: seq<tile>, first: nat, count: nat, payload: seq<byte>, t: nat): tile
    requires |payload| >= TILE_SIZE * count && t < |tiles|
  {
    if first <= t < first + count then TileAt(payload, t - first) else tiles[t]
  }

  function TileAt(payload: seq<byte>, i: nat): tile
    requires TILE_SIZE * (i + 1) <= |payload|
  {
    payload[TILE_SIZE * i..TILE_SIZE * i + TILE_SIZE]
  }

  /** Every access of the storing loop falls inside the tile array and the bitmap rows. The repair
      phase has no branch for tiles of the next window. */
  predicate Storable(state: State, w: nat, fcn: nat, count: nat) {
    count == 0 ||
    (&& fcn < WINDOW_SIZE && w < MAX_WINDOWS && TilePtr(w, fcn) + count <= TOTAL_TILES
     && WINDOW_SIZE - 1 - fcn + count <= if state == WaitMissing then WINDOW_SIZE else 2 * WINDOW_SIZE)
  }

  function Stored(x: Ctx, msg: seq<byte>): (y: Ctx)
    requires Valid(x) && msg != [] && FragmentType(msg) == RegularFragment
    ensures Valid(y)
  {
    var payload, w, fcn := PayloadOf(msg), WOf(msg), FcnOf(msg);
    var count := |payload| / TILE_SIZE;
    var noted := x.(lastWindow := Max(x.lastWindow, w));
    if !Storable(x.state, w, fcn, count) then noted.(state := Fault)
    else if count == 0 then noted.(tilePtr := Max(x.tilePtr, TilePtr(w, fcn)))
    else
      noted.(tiles := StoredTiles(x.tiles, TilePtr(w, fcn), count, payload),
             bitmap := MarkedTiles(x.bitmap, TilePtr(w, fcn), count),
             tilePtr := Max(x.tilePtr, TilePtr(w, fcn) + count))
  }

  // ---- The integrity check --------------------------------------------------------------------

  /** What `check_rcs` puts together. */
  function Buffer(x: Ctx): seq<byte>
    requires Valid(x)
  {
    Concat(x.tiles[..x.tilePtr]) + if x.lastTileSize > 0 then x.lastTile else []
  }

  predicate CheckRcs(x: Ctx)
    requires Valid(x)
  {
    Rcs.Crc32(Buffer(x)) == x.rcs
  }

  // ---- Answers --------------------------------------------------------------------------------

  function Acknowledgement(w: nat, ok: bool, bitmap: seq<bit>): seq<byte>
    requires bitmap != []
  {
    if ok then PositiveAckMsg(w) else NegativeAckMsg(w, bitmap, true)
  }

  function WindowNack(x: Ctx, w: nat): seq<byte>
    requires Valid(x) && w < MAX_WINDOWS
  {
    NegativeAckMsg(w, x.bitmap[w], true)
  }

  function Report(x: Ctx): seq<byte>
    requires Valid(x)
  {
    CompoundAckMsg(x.lastWindow, ErrorWindows(x.bitmap, x.lastWindow), x.bitmap)
  }

  // ---- RCV_WINDOW -----------------------------------------------------------------------------

  /** All-1: last tile, last window and RCS. `unit` is 1 in RCV_WINDOW and 8 in the repair phase. */
  function Closing(x: Ctx, msg: seq<byte>, unit: nat): (y: Ctx)
    requires Valid(x) && |msg| >= 5
    ensures Valid(y)
  {
    x.(lastTile := LastTileOf(msg), lastTileSize := unit * |LastTileOf(msg)| % 256, lastWindow := WOf(msg), rcs := RcsOf(msg))
  }

  /** The All-1's own flag: the last of its window. */
  function Flagged(x: Ctx): (y: Ctx)
    requires Valid(x)
    ensures Valid(y)
  {
    x.(bitmap := x.bitmap[x.lastWindow := x.bitmap[x.lastWindow][WINDOW_SIZE - 1 := 1]])
  }

  /** Session mode: a NACK for the first window with missing tiles, which becomes the confirmed one. */
  function NackFrom(x: Ctx): (o: Reaction)
    requires Valid(x)
    ensures Valid(o.ctx)
  {
    var w := FirstIncomplete(x.bitmap, x.lastConfirmed, x.lastWindow);
    Reaction(x.(lastConfirmed := w, state := WaitMissing), [WindowNack(x, w)])
  }

  function CompoundAnswer(x: Ctx): (o: Reaction)
    requires Valid(x)
    ensures Valid(o.ctx)
  {
    if CheckRcs(x) then Reaction(x.(state := End), [CompoundAckMsg(x.lastWindow, [], x.bitmap)])
    else Reaction(x.(state := WaitMissing), [Report(x)])
  }

  function OnWindow(x: Ctx, msg: seq<byte>): (o: Reaction)
    requires Valid(x) && x.state == RcvWindow && msg != []
    ensures Valid(o.ctx)
  {
    match FragmentType(msg)
    case RegularFragment => Reaction(Stored(x, msg).(enabled := true), [])
    case AllOneFragment =>
      if |msg| < 5 then Reaction(x.(state := Fault), [])
      else
        var y := Flagged(Closing(x, msg, 1));
        if x.mode == Compound then CompoundAnswer(y)
        else if CheckRcs(y) then Reaction(y.(state := End), [PositiveAckMsg(y.lastWindow)])
        else NackFrom(y)
    case AckRequest =>
      if !x.enabled then Reaction(x.(state := End), [])
      else
        var y := x.(lastWindow := Max(x.lastWindow, WOf(msg)));
        if x.mode == Compound then CompoundAnswer(y) else NackFrom(y)
    case _ => Reaction(x, [])
  }

  // ---- WAIT_X_MISSING_FRAG --------------------------------------------------------------------

  /** Session mode, after a repaired fragment of window `w`: success, the next window with missing
      tiles once `w` is complete, or silence. */
  function NackNext(x: Ctx, w: nat): (o: Reaction)
    requires Valid(x) && w < MAX_WINDOWS
    ensures Valid(o.ctx)
  {
    if CheckRcs(x) then Reaction(x.(state := End), [PositiveAckMsg(w)])
    else if Complete(x.bitmap[w]) then Reaction(x, [WindowNack(x, FirstIncomplete(x.bitmap, w + 1, x.lastWindow))])
    else Reaction(x, [])
  }

  function OnMissing(x: Ctx, msg: seq<byte>): (o: Reaction)
    requires Valid(x) && x.state == WaitMissing && msg != []
    ensures Valid(o.ctx)
  {
    match FragmentType(msg)
    case RegularFragment =>
      var y := Stored(x, msg);
      if y.state == Fault then Reaction(y, [])
      else if x.mode == EndOfSession then NackNext(y, WOf(msg))
      else if CheckRcs(y) then Reaction(y.(state := End), [CompoundAckMsg(y.lastWindow, [], y.bitmap)])
      else Reaction(y, [])
    case AckRequest =>
      if x.mode == Compound then CompoundAnswer(x)
      else if CheckRcs(x) then Reaction(x.(state := End), [PositiveAckMsg(x.lastWindow)])
      else Reaction(x, [WindowNack(x, FirstIncomplete(x.bitmap, 0, x.lastWindow))])
    case AllOneFragment =>
      if |msg| < 5 then Reaction(x.(state := Fault), [])
      else
        var y := Flagged(Closing(x, msg, 8));
        if CheckRcs(y) then
          Reaction(y.(state := End), [Acknowledgement(y.lastWindow, Complete(y.bitmap[y.lastWindow]), y.bitmap[y.lastWindow])])
        else if x.mode == Compound then Reaction(y, [Report(y)])
        else Reaction(y, [WindowNack(y, y.lastWindow)])
    case _ => Reaction(x, [])
  }

  /** One message, dispatched on the state. */
  function Receive(x: Ctx, msg: seq<byte>): (o: Reaction)
    requires Valid(x) && msg != []
    ensures Valid(o.ctx)
  {
    match x.state
    case RcvWindow => OnWindow(x, msg)
    case WaitMissing => OnMissing(x, msg)
    case _ => Reaction(x, [])
  }

  // ---- The object -----------------------------------------------------------------------------

  class Receiver {
    const mode: Mode
    var state: State
    var enableToProcessMsg: bool
    var tilesArray: seq<tile>
    var currentTilePtr: nat
    var bitmapArray: seq<seq<bit>>
    var lastWindow: nat
    var lastConfirmedWindow: nat
    var lastTile: seq<byte>
    var lastTileSize: nat
    var rcs: Rcs.word

    function Context(): Ctx
      reads this
    {
      Ctx(state, mode, enableToProcessMsg, tilesArray, currentTilePtr, bitmapArray, lastWindow, lastConfirmedWindow,
          lastTile, lastTileSize, rcs)
    }

    constructor (mode: Mode, rcs: Rcs.word)
      ensures Context() == Fresh(mode, rcs)
    {
      this.mode := mode;
      state, enableToProcessMsg := RcvWindow, false;
      tilesArray, currentTilePtr := seq(TOTAL_TILES, _ => Repeat(0, TILE_SIZE)), 0;
      bitmapArray, lastWindow, lastConfirmedWindow := NoTiles(MAX_WINDOWS), 0, 0;
      lastTile, lastTileSize := Repeat(0, TILE_SIZE), 0;
      this.rcs := rcs;
    }

    /** The storing loop, with the branch for tiles of the next window that only RCV_WINDOW has. */
    method StoreTiles(w: nat, fcn: nat, payload: seq<byte>, count: nat)
      requires Valid(Context()) && count > 0 && count == |payload| / TILE_SIZE && Storable(state, w, fcn, count)
      modifies this`tilesArray, this`bitmapArray
      ensures tilesArray == StoredTiles(old(tilesArray), TilePtr(w, fcn), count, payload)
      ensures bitmapArray == MarkedTiles(old(bitmapArray), TilePtr(w, fcn), count)
    {
      var tilePtr := TilePtr(w, fcn);
      var bitmapPtr := WINDOW_SIZE - 1 - fcn;
      ghost var tiles: seq<tile>, rows: seq<seq<bit>> := tilesArray, bitmapArray;
      NoneMarked(rows, tilePtr);
      for i := 0 to count
        invariant |tilesArray| == TOTAL_TILES && tilesArray == StoredTiles(tiles, tilePtr, i, payload)
        invariant bitmapArray == MarkedTiles(rows, tilePtr, i)
      {
        MarkNext(rows, tilePtr, i);
        StoreNext(tiles, tilePtr, i, payload);
        tilesArray := tilesArray[tilePtr + i := payload[TILE_SIZE * i..TILE_SIZE * i + TILE_SIZE]];
        if state == WaitMissing {
          bitmapArray := bitmapArray[w := bitmapArray[w][bitmapPtr + i := 1]];
        } else {
          bitmapArray := MarkTile(bitmapArray, w, bitmapPtr + i);
        }
      }
    }

    /** `check_rcs` */
    method IntegrityCheck() returns (ok: bool)
      requires Valid(Context())
      ensures ok == CheckRcs(Context())
    {
      var buffer: seq<byte> := [];
      for i := 0 to currentTilePtr
        invariant buffer == Concat(tilesArray[..i])
      {
        assert tilesArray[..i + 1][..i] == tilesArray[..i];
        buffer := buffer + tilesArray[i];
      }
      if lastTileSize > 0 {
        buffer := buffer + lastTile;
      }
      assert buffer == Buffer(Context());
      var calculated := Rcs.CalculateCrc32(buffer);
      ok := calculated == rcs;
    }

    method NextIncomplete(from: nat) returns (w: nat)
      requires Valid(Context())
      ensures w == FirstIncomplete(bitmapArray, from, lastWindow)
    {
      var i := from;
      while i < lastWindow
        invariant FirstIncomplete(bitmapArray, i, lastWindow) == FirstIncomplete(bitmapArray, from, lastWindow)
      {
        var complete := IsComplete(bitmapArray[i]);
        if !complete {
          return i;
        }
        i := i + 1;
      }
      return lastWindow;
    }

    method SendAck(w: nat, c: bit) returns (reply: seq<byte>)
      requires Valid(Context()) && w < MAX_WINDOWS
      ensures reply == Acknowledgement(w, c == 1, bitmapArray[w])
    {
      var bitmapVector: seq<bit> := [];
      for i := 0 to WINDOW_SIZE
        invariant bitmapVector == bitmapArray[w][..i]
      {
        bitmapVector := bitmapVector + [bitmapArray[w][i]];
      }
      assert bitmapVector == bitmapArray[w];
      var encoder := new MessageCodec.SchcMessage();
      reply := encoder.CreateSchcAck(w, c, bitmapVector, true);
    }

    method SendCompound(windows: seq<nat>) returns (reply: seq<byte>)
      requires Valid(Context()) && forall i :: 0 <= i < |windows| ==> windows[i] < MAX_WINDOWS
      ensures Reportable(windows, bitmapArray) && reply == CompoundAckMsg(lastWindow, windows, bitmapArray)
    {
      var encoder := new MessageCodec.SchcMessage();
      reply := encoder.CreateSchcAckCompound(lastWindow, windows, bitmapArray);
    }

    method AnswerCompound() returns (replies: seq<seq<byte>>)
      requires Valid(Context())
      modifies this`state
      ensures Reaction(Context(), replies) == CompoundAnswer(old(Context()))
    {
      var ok := IntegrityCheck();
      var windows: seq<nat> := [];
      if !ok {
        windows := WindowsWithError(bitmapArray, lastWindow);
      }
      var reply := SendCompound(windows);
      replies, state := [reply], if ok then End else WaitMissing;
    }

    method AnswerNack() returns (replies: seq<seq<byte>>)
      requires Valid(Context())
      modifies this`state, this`lastConfirmedWindow
      ensures Reaction(Context(), replies) == NackFrom(old(Context()))
    {
      lastConfirmedWindow := NextIncomplete(lastConfirmedWindow);
      var reply := SendAck(lastConfirmedWindow, 0);
      replies, state := [reply], WaitMissing;
    }

    method AcceptFragment(msg: seq<byte>)
      requires Valid(Context()) && msg != [] && FragmentType(msg) == RegularFragment
      modifies this
      ensures Context() == Stored(old(Context()), msg)
    {
      var payload, w, fcn := PayloadOf(msg), WOf(msg), FcnOf(msg);
      if w > lastWindow {
        lastWindow := w;
      }
      var count := |payload| / TILE_SIZE;
      if !Storable(state, w, fcn, count) {
        state := Fault;
        return;
      }
      if count > 0 {
        StoreTiles(w, fcn, payload, count);
      }
      if TilePtr(w, fcn) + count > currentTilePtr {
        currentTilePtr := TilePtr(w, fcn) + count;
      }
    }

    method AcceptAllOne(msg: seq<byte>, unit: nat)
      requires Valid(Context()) && |msg| >= 5
      modifies this`lastTile, this`lastTileSize, this`lastWindow, this`rcs, this`bitmapArray
      ensures Context() == Flagged(Closing(old(Context()), msg, unit))
    {
      lastTile, lastWindow, rcs := LastTileOf(msg), WOf(msg), RcsOf(msg);
      lastTileSize := unit * |lastTile| % 256;
      bitmapArray := bitmapArray[lastWindow := bitmapArray[lastWindow][WINDOW_SIZE - 1 := 1]];
    }

    method ExecuteWindow(msg: seq<byte>) returns (replies: seq<seq<byte>>)
      requires Valid(Context()) && state == RcvWindow && msg != []
      modifies this
      ensures Reaction(Context(), replies) == OnWindow(old(Context()), msg)
    {
      replies := [];
      var kind := FragmentType(msg);
      if kind == RegularFragment {
        AcceptFragment(msg);
        enableToProcessMsg := true;
      } else if kind == AllOneFragment && |msg| < 5 {
        state := Fault;
      } else if kind == AllOneFragment {
        AcceptAllOne(msg, 1);
        if mode == Compound {
          replies := AnswerCompound();
        } else {
          var ok := IntegrityCheck();
          if ok {
            var reply := SendAck(lastWindow, 1);
            replies, state := [reply], End;
          } else {
            replies := AnswerNack();
          }
        }
      } else if kind == AckRequest && !enableToProcessMsg {
        state := End;
      } else if kind == AckRequest {
        if WOf(msg) > lastWindow {
          lastWindow := WOf(msg);
        }
        if mode == Compound {
          replies := AnswerCompound();
        } else {
          replies := AnswerNack();
        }
      }
    }

    method ExecuteMissing(msg: seq<byte>) returns (replies: seq<seq<byte>>)
      requires Valid(Context()) && state == WaitMissing && msg != []
      modifies this
      ensures Reaction(Context(), replies) == OnMissing(old(Context()), msg)
    {
      replies := [];
      var kind := FragmentType(msg);
      if kind == RegularFragment {
        AcceptFragment(msg);
        if state != Fault {
          replies := AfterRepair(WOf(msg));
        }
      } else if kind == AckRequest && mode == Compound {
        replies := AnswerCompound();
      } else if kind == AckRequest {
        var ok := IntegrityCheck();
        if ok {
          var reply := SendAck(lastWindow, 1);
          replies, state := [reply], End;
        } else {
          var w := NextIncomplete(0);
          var reply := SendAck(w, 0);
          replies := [reply];
        }
      } else if kind == AllOneFragment && |msg| < 5 {
        state := Fault;
      } else if kind == AllOneFragment {
        AcceptAllOne(msg, 8);
        replies := AfterLateAllOne();
      }
    }

    method AfterRepair(w: nat) returns (replies: seq<seq<byte>>)
      requires Valid(Context()) && state == WaitMissing && w < MAX_WINDOWS
      modifies this`state
      ensures mode == EndOfSession ==> Reaction(Context(), replies) == NackNext(old(Context()), w)
      ensures mode == Compound && CheckRcs(old(Context())) ==>
                Context() == old(Context()).(state := End) && replies == [CompoundAckMsg(lastWindow, [], bitmapArray)]
      ensures mode == Compound && !CheckRcs(old(Context())) ==> Context() == old(Context()) && replies == []
    {
      replies := [];
      var ok := IntegrityCheck();
      if ok && mode == Compound {
        var reply := SendCompound([]);
        replies, state := [reply], End;
      } else if ok {
        var reply := SendAck(w, 1);
        replies, state := [reply], End;
      } else if mode == EndOfSession {
        var complete := IsComplete(bitmapArray[w]);
        if complete {
          var next := NextIncomplete(w + 1);
          var reply := SendAck(next, 0);
          replies := [reply];
        }
      }
    }

    method AfterLateAllOne() returns (replies: seq<seq<byte>>)
      requires Valid(Context()) && state == WaitMissing
      modifies this`state
      ensures var y := old(Context());
              if CheckRcs(y) then
                && Context() == y.(state := End)
                && replies == [Acknowledgement(lastWindow, Complete(bitmapArray[lastWindow]), bitmapArray[lastWindow])]
              else Context() == y && replies == [if mode == Compound then Report(y) else WindowNack(y, lastWindow)]
    {
      var ok := IntegrityCheck();
      if ok {
        var complete := IsComplete(bitmapArray[lastWindow]);
        var reply := SendAck(lastWindow, if complete then 1 else 0);
        replies, state := [reply], End;
      } else if mode == Compound {
        var windows := WindowsWithError(bitmapArray, lastWindow);
        var reply := SendCompound(windows);
        replies := [reply];
      } else {
        var reply := SendAck(lastWindow, 0);
        replies := [reply];
      }
    }

    method Execute(msg: seq<byte>) returns (replies: seq<seq<byte>>)
      requires Valid(Context()) && msg != []
      modifies this
      ensures Reaction(Context(), replies) == Receive(old(Context()), msg)
    {
      replies := [];
      if state == RcvWindow {
        replies := ExecuteWindow(msg);
      } else if state == WaitMissing {
        replies := ExecuteMissing(msg);
      }
    }
  }

  lemma StoreNext(tiles: seq<tile>, first: nat, i: nat, payload: seq<byte>)
    requires first + i < |tiles| && TILE_SIZE * (i + 1) <= |payload|
    ensures StoredTiles(tiles, first, i + 1, payload) == StoredTiles(tiles, first, i, payload)[first + i := TileAt(payload, i)]
  {
  }
}
