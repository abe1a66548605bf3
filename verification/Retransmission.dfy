/** The retransmission loop of both protocols: walk the reported windows, resend runs of tiles whose
    bitmap bit is 0, mark them 1. */
module Retransmission {
  import opened Bytes
  import opened Message
  import opened Numbering

  /** What the loop works on: the bitmaps, the windows still to repair, the window last taken up,
      and the session's constants. */
  datatype Repair = Repair(rows: seq<seq<bit>>, windows: seq<nat>, current: nat,
                           nWindows: nat, nFullTiles: nat, available: nat)

  /** Number of regular tiles in a window. */
  function LastPtr(w: nat, nWindows: nat, nFullTiles: nat): int {
    if w == nWindows - 1 then nFullTiles - (nWindows - 1) * WINDOW_SIZE else WINDOW_SIZE
  }

  predicate Sound(r: Repair) {
    && r.available > 0
    && 1 <= r.nWindows <= MAX_WINDOWS && |r.rows| == r.nWindows
    && (r.nWindows - 1) * WINDOW_SIZE <= r.nFullTiles <= r.nWindows * WINDOW_SIZE
    && (forall a :: 0 <= a < |r.rows| ==> |r.rows[a]| >= WINDOW_SIZE)
    && (forall i :: 0 <= i < |r.windows| ==> r.windows[i] < r.nWindows)
  }

  // ---- One execution --------------------------------------------------------------------------

  function FirstZero(row: seq<bit>, i: nat, last: nat): (p: nat)
    requires i <= last <= |row|
    ensures i <= p <= last && (p < last ==> row[p] == 0)
    ensures forall j :: i <= j < p ==> row[j] == 1
    decreases last - i
  {
    if i == last || row[i] == 0 then i else FirstZero(row, i + 1, last)
  }

  /** End of the run of zeros that starts at `i`. */
  function RunEnd(row: seq<bit>, i: nat, last: nat): (e: nat)
    requires i <= last <= |row|
    ensures i <= e <= last
    ensures forall j :: i <= j < e ==> row[j] == 0
    ensures i < last && row[i] == 0 ==> e > i
    decreases last - i
  {
    if i == last || row[i] == 1 then i else RunEnd(row, i + 1, last)
  }

  lemma {:induction false} RunIsLongest(row: seq<bit>, i: nat, last: nat)
    requires i <= last <= |row|
    ensures RunEnd(row, i, last) < last ==> row[RunEnd(row, i, last)] == 1
    decreases last - i
  {
    if i < last && row[i] == 0 {
      RunIsLongest(row, i + 1, last);
    }
  }

  function Mark(row: seq<bit>, from: nat, to: nat): (marked: seq<bit>)
    requires from <= to <= |row|
    ensures |marked| == |row|
    ensures forall j :: 0 <= j < |row| ==> marked[j] == if from <= j < to then 1 else row[j]
  {
    row[..from] + Repeat(1, to - from) + row[to..]
  }

  predicate Missing(row: seq<bit>, last: int) {
    exists i :: 0 <= i < last && i < |row| && row[i] == 0
  }

  datatype Outcome = Again(repair: Repair) | Finished(repair: Repair) | Stuck(repair: Repair)

  /** The window an execution works on. */
  function Target(r: Repair): nat {
    if r.windows != [] then r.windows[0] else r.current
  }

  /** The run of tiles it sends, `from == to` when there is none. */
  function Gap(r: Repair): (g: (nat, nat))
    requires Sound(r) && Target(r) < r.nWindows
    ensures g.0 <= g.1 <= LastPtr(Target(r), r.nWindows, r.nFullTiles) && g.1 - g.0 <= r.available
    ensures forall j :: g.0 <= j < g.1 ==> r.rows[Target(r)][j] == 0
    ensures Missing(r.rows[Target(r)], LastPtr(Target(r), r.nWindows, r.nFullTiles)) ==> g.0 < g.1
  {
    var row, last := r.rows[Target(r)], LastPtr(Target(r), r.nWindows, r.nFullTiles);
    var p := FirstZero(row, 0, last);
    var e := RunEnd(row, p, last);
    (p, if e - p > r.available then p + r.available else e)
  }

  /** The bitmaps once that run is marked as sent, and the window worked on. */
  function Marked(r: Repair): (m: Repair)
    requires Sound(r) && Target(r) < r.nWindows
    ensures Sound(m) && m.current == Target(r) && m.windows == r.windows && Target(m) == Target(r)
  {
    var w, g := Target(r), Gap(r);
    r.(rows := r.rows[w := Mark(r.rows[w], g.0, g.1)], current := w)
  }

  /** With nothing left missing in its window, that window leaves the list. */
  function Settled(r: Repair): (o: Outcome)
    requires Sound(r) && r.current < r.nWindows
    ensures Sound(o.repair)
  {
    if Missing(r.rows[r.current], LastPtr(r.current, r.nWindows, r.nFullTiles)) then Again(r)
    else if r.windows == [] then Stuck(r)
    else if r.windows[1..] == [] then Finished(r.(windows := []))
    else Again(r.(windows := r.windows[1..]))
  }

  function Resend(r: Repair): (o: Outcome)
    requires Sound(r) && Target(r) < r.nWindows
    ensures Sound(o.repair)
  {
    Settled(Marked(r))
  }

  /** The fragment an execution sends, if any. */
  function Emitted(r: Repair): seq<Piece>
    requires Sound(r) && Target(r) < r.nWindows
  {
    var w, g := Target(r), Gap(r);
    if g.0 == g.1 then []
    else [Piece(Cursor(w, WINDOW_SIZE - 1 - g.0, w * WINDOW_SIZE + g.0), g.1 - g.0)]
  }

  // ---- A whole run ----------------------------------------------------------------------------

  function Zeros(row: seq<bit>, i: nat, last: nat): nat
    requires i <= last <= |row|
    decreases last - i
  {
    if i == last then 0 else (1 - row[i]) + Zeros(row, i + 1, last)
  }

  function ZerosLeft(r: Repair): nat
    requires Sound(r) && Target(r) < r.nWindows
  {
    Zeros(r.rows[Target(r)], 0, LastPtr(Target(r), r.nWindows, r.nFullTiles))
  }

  lemma {:induction false} MarkingRemovesZeros(row: seq<bit>, from: nat, to: nat, i: nat, last: nat)
    requires i <= last <= |row| && from <= to <= last
    requires forall j :: from <= j < to ==> row[j] == 0
    ensures Zeros(Mark(row, from, to), i, last) <= Zeros(row, i, last)
    ensures i <= from < to ==> Zeros(Mark(row, from, to), i, last) < Zeros(row, i, last)
    decreases last - i
  {
    if i == last {
    } else {
      MarkingRemovesZeros(row, from, to, i + 1, last);
    }
  }

  lemma ResendDecreases(r: Repair)
    requires Sound(r) && r.windows != []
    ensures var o := Resend(r);
            && !o.Stuck?
            && (o.Again? ==>
                  && o.repair.windows != []
                  && (|o.repair.windows| < |r.windows|
                      || (o.repair.windows == r.windows && ZerosLeft(o.repair) < ZerosLeft(r))))
  {
    var w, g := Target(r), Gap(r);
    MarkingRemovesZeros(r.rows[w], g.0, g.1, 0, LastPtr(w, r.nWindows, r.nFullTiles));
  }

  /** Fragments and final bitmaps of the executions from the arrival of a report to the end of the
      repair. Terminates on (windows left, zeros left in the current window). */
  function Run(r: Repair): (res: (seq<Piece>, Repair))
    requires Sound(r) && r.windows != []
    decreases |r.windows|, ZerosLeft(r)
  {
    ResendDecreases(r);
    var o := Resend(r);
    if o.Finished? then (Emitted(r), o.repair)
    else
      var rest := Run(o.repair);
      (Emitted(r) + rest.0, rest.1)
  }

  predicate Carries(p: Piece, t: nat) {
    p.at.ptr <= t < p.at.ptr + p.count
  }

  function TimesSent(pieces: seq<Piece>, t: nat): nat {
    if pieces == [] then 0 else (if Carries(pieces[0], t) then 1 else 0) + TimesSent(pieces[1..], t)
  }

  lemma {:induction false} TimesSentAppend(a: seq<Piece>, b: seq<Piece>, t: nat)
    ensures TimesSent(a + b, t) == TimesSent(a, t) + TimesSent(b, t)
  {
    if a == [] {
      assert a + b == b;
    } else {
      assert (a + b)[1..] == a[1..] + b;
      TimesSentAppend(a[1..], b, t);
    }
  }

  lemma {:induction false} SentBySome(pieces: seq<Piece>, t: nat)
    ensures TimesSent(pieces, t) > 0 <==> exists i :: 0 <= i < |pieces| && Carries(pieces[i], t)
  {
    if pieces == [] {
    } else {
      SentBySome(pieces[1..], t);
      if exists i :: 0 <= i < |pieces| && Carries(pieces[i], t) {
        var i :| 0 <= i < |pieces| && Carries(pieces[i], t);
        assert i > 0 ==> pieces[1..][i - 1] == pieces[i];
      }
    }
  }

  /** Tile `t` belongs to a reported window and is marked missing there. */
  predicate Wanted(r: Repair, t: nat) {
    var a, b := t / WINDOW_SIZE, t % WINDOW_SIZE;
    a in r.windows && a < |r.rows| && b < |r.rows[a]| && r.rows[a][b] == 0
    && b < LastPtr(a, r.nWindows, r.nFullTiles)
  }

  /** A fragment that stays within one window, within the frame, and is numbered after its first tile. */
  predicate WellFormed(p: Piece, r: Repair) {
    && Numbered(p.at) && p.at.w < r.nWindows
    && 0 < p.count <= r.available && p.at.ptr % WINDOW_SIZE + p.count <= WINDOW_SIZE
    && p.at.ptr + p.count <= r.nFullTiles
  }

  /** A tile the fragment carries was wanted and no longer is; any other tile is as before. */
  lemma MarkedOnce(r: Repair, t: nat)
    requires Sound(r) && r.windows != []
    ensures TimesSent(Emitted(r), t) <= 1
    ensures TimesSent(Emitted(r), t) == 1 ==> Wanted(r, t) && !Wanted(Marked(r), t)
    ensures TimesSent(Emitted(r), t) == 0 ==> (Wanted(r, t) <==> Wanted(Marked(r), t))
  {
    var w, g := Target(r), Gap(r);
    if t / WINDOW_SIZE == w {
      assert Marked(r).rows[w] == Mark(r.rows[w], g.0, g.1);
    }
    if g.0 < g.1 {
      assert Emitted(r)[1..] == [];
      assert Carries(Emitted(r)[0], t) <==> t / WINDOW_SIZE == w && g.0 <= t % WINDOW_SIZE < g.1;
    }
  }

  /** A window is struck off only when it wants nothing any more. */
  lemma SettledWantsTheSame(m: Repair, t: nat)
    requires Sound(m) && m.windows != [] && m.current == m.windows[0]
    ensures Wanted(Settled(m).repair, t) <==> Wanted(m, t)
  {
    if !Missing(m.rows[m.current], LastPtr(m.current, m.nWindows, m.nFullTiles)) {
      assert forall a :: a in m.windows <==> a == m.current || a in m.windows[1..];
    }
  }

  lemma EmittedOnce(r: Repair, t: nat)
    requires Sound(r) && r.windows != []
    ensures var next := Resend(r).repair;
            && (TimesSent(Emitted(r), t) == 1 ==> Wanted(r, t) && !Wanted(next, t))
            && (TimesSent(Emitted(r), t) == 0 ==> (Wanted(r, t) <==> Wanted(next, t)))
            && TimesSent(Emitted(r), t) <= 1
  {
    MarkedOnce(r, t);
    SettledWantsTheSame(Marked(r), t);
  }

  /** An execution sends a fragment exactly when a tile of its window is missing: from the first missing
      tile on, as many missing tiles in a row as there are and fit the frame. */
  lemma EmittedLongest(r: Repair)
    requires Sound(r) && Target(r) < r.nWindows
    ensures var row, last := r.rows[Target(r)], LastPtr(Target(r), r.nWindows, r.nFullTiles);
            if !Missing(row, last) then Emitted(r) == []
            else
              && |Emitted(r)| == 1
              && var p := Emitted(r)[0];
                 var from := p.at.ptr - WINDOW_SIZE * Target(r);
                 && 0 <= from && p.count > 0 && from + p.count <= last
                 && (forall j :: 0 <= j < from ==> row[j] == 1) && (forall j :: from <= j < from + p.count ==> row[j] == 0)
                 && (p.count == r.available || from + p.count == last || row[from + p.count] == 1)
  {
    var row, last, g := r.rows[Target(r)], LastPtr(Target(r), r.nWindows, r.nFullTiles), Gap(r);
    RunIsLongest(row, g.0, last);
    if g.0 < g.1 {
      assert row[g.0] == 0;
    }
  }

  lemma EmittedWellFormed(r: Repair)
    requires Sound(r) && Target(r) < r.nWindows
    ensures forall p :: p in Emitted(r) ==> WellFormed(p, r)
  {
  }

  /** The loop sends every tile marked missing in a reported window exactly once and no other tile;
      no fragment spans two windows or exceeds the frame. */
  lemma {:induction false} RunExact(r: Repair)
    requires Sound(r) && r.windows != []
    ensures forall p :: p in Run(r).0 ==> WellFormed(p, r)
    ensures forall t: nat :: TimesSent(Run(r).0, t) == if Wanted(r, t) then 1 else 0
    ensures Sound(Run(r).1) && Run(r).1.windows == []
    decreases |r.windows|, ZerosLeft(r)
  {
    ResendDecreases(r);
    EmittedWellFormed(r);
    var o := Resend(r);
    if o.Again? {
      RunExact(o.repair);
    }
    forall t: nat ensures TimesSent(Run(r).0, t) == if Wanted(r, t) then 1 else 0 {
      EmittedOnce(r, t);
      if o.Again? {
        TimesSentAppend(Emitted(r), Run(o.repair).0, t);
      }
    }
  }

  // ---- A repair without a list of windows ------------------------------------------------------

  /** A repair of the current window alone. */
  predicate Alone(r: Repair) {
    Sound(r) && r.windows == [] && r.current < r.nWindows
  }

  lemma AloneDecreases(r: Repair)
    requires Alone(r)
    ensures var o := Resend(r);
            && !o.Finished? && Alone(o.repair) && o.repair.current == r.current
            && (o.Again? ==> ZerosLeft(o.repair) < ZerosLeft(r))
  {
    var g := Gap(r);
    MarkingRemovesZeros(r.rows[r.current], g.0, g.1, 0, LastPtr(r.current, r.nWindows, r.nFullTiles));
  }

  /** Fragments and final bitmaps of the executions until nothing of the window is missing. */
  function RunAlone(r: Repair): (res: (seq<Piece>, Repair))
    requires Alone(r)
    decreases ZerosLeft(r)
  {
    AloneDecreases(r);
    var o := Resend(r);
    if o.Stuck? then (Emitted(r), o.repair)
    else
      var rest := RunAlone(o.repair);
      (Emitted(r) + rest.0, rest.1)
  }

  /** Tile `t` is a regular tile of the current window. */
  predicate InWindow(r: Repair, t: nat) {
    t / WINDOW_SIZE == r.current && t % WINDOW_SIZE < LastPtr(r.current, r.nWindows, r.nFullTiles)
  }

  predicate WantedAlone(r: Repair, t: nat)
    requires Alone(r)
  {
    InWindow(r, t) && r.rows[r.current][t % WINDOW_SIZE] == 0
  }

  lemma EmittedOnceAlone(r: Repair, t: nat)
    requires Alone(r)
    ensures Alone(Resend(r).repair) && Resend(r).repair.current == r.current
    ensures TimesSent(Emitted(r), t) <= 1
    ensures TimesSent(Emitted(r), t) == 1 ==> WantedAlone(r, t) && !WantedAlone(Resend(r).repair, t)
    ensures TimesSent(Emitted(r), t) == 0 ==> (WantedAlone(r, t) <==> WantedAlone(Resend(r).repair, t))
  {
    var w, g := r.current, Gap(r);
    AloneDecreases(r);
    if t / WINDOW_SIZE == w {
      assert Marked(r).rows[w] == Mark(r.rows[w], g.0, g.1);
    }
    if g.0 < g.1 {
      assert Emitted(r)[1..] == [];
      assert Carries(Emitted(r)[0], t) <==> t / WINDOW_SIZE == w && g.0 <= t % WINDOW_SIZE < g.1;
    }
  }

  /** All regular tiles of a window are marked. */
  predicate AllMarked(row: seq<bit>, last: int) {
    forall b :: 0 <= b < last && b < |row| ==> row[b] == 1
  }

  /** What a repair leaves: the window's regular tiles marked, all else as it was. */
  predicate Repaired(r: Repair, after: Repair) {
    && Alone(r) && Alone(after) && after == r.(rows := after.rows) && |after.rows| == |r.rows|
    && (forall a :: 0 <= a < |r.rows| && a != r.current ==> after.rows[a] == r.rows[a])
    && AllMarked(after.rows[r.current], LastPtr(r.current, r.nWindows, r.nFullTiles))
  }

  /** The executions send every tile marked missing in the window exactly once and no other tile. */
  lemma {:induction false} RunAloneExact(r: Repair)
    requires Alone(r)
    ensures forall p :: p in RunAlone(r).0 ==> WellFormed(p, r)
    ensures forall t: nat :: TimesSent(RunAlone(r).0, t) == if WantedAlone(r, t) then 1 else 0
    ensures Repaired(r, RunAlone(r).1)
    decreases ZerosLeft(r)
  {
    AloneDecreases(r);
    EmittedWellFormed(r);
    var o := Resend(r);
    if o.Again? {
      RunAloneExact(o.repair);
    }
    forall t: nat ensures TimesSent(RunAlone(r).0, t) == if WantedAlone(r, t) then 1 else 0 {
      EmittedOnceAlone(r, t);
      if o.Again? {
        TimesSentAppend(Emitted(r), RunAlone(o.repair).0, t);
      } else {
        assert !WantedAlone(o.repair, t);
      }
    }
  }

  // ---- The loops ------------------------------------------------------------------------------

  /** Finds the first run of missing tiles: its start, -1 if none, and its length. */
  method FindGap(row: seq<bit>, lastPtr: nat) returns (bitmapPtr: int, adjacentTiles: nat)
    requires lastPtr <= |row|
    ensures var p := FirstZero(row, 0, lastPtr);
            && adjacentTiles == RunEnd(row, p, lastPtr) - p
            && bitmapPtr == if p == lastPtr then -1 else p
  {
    bitmapPtr, adjacentTiles := -1, 0;
    var i := 0;
    while i < lastPtr
      invariant 0 <= i <= lastPtr
      invariant bitmapPtr == -1 ==> adjacentTiles == 0 && FirstZero(row, 0, lastPtr) == FirstZero(row, i, lastPtr)
      invariant bitmapPtr != -1 ==>
          && 0 <= bitmapPtr < i && FirstZero(row, 0, lastPtr) == bitmapPtr && adjacentTiles == i - bitmapPtr
          && RunEnd(row, bitmapPtr, lastPtr) == RunEnd(row, i, lastPtr)
    {
      if row[i] == 0 {
        if bitmapPtr == -1 {
          bitmapPtr := i;
        }
        adjacentTiles := adjacentTiles + 1;
      } else if bitmapPtr != -1 {
        break;
      }
      i := i + 1;
    }
  }

  /** The first run of missing tiles of a window, as much of it as fits a frame. */
  method FirstRun(ghost r: Repair, row: seq<bit>, lastPtr: nat, available: nat) returns (from: nat, n: nat)
    requires Sound(r) && Target(r) < r.nWindows && row == r.rows[Target(r)]
    requires lastPtr == LastPtr(Target(r), r.nWindows, r.nFullTiles) && available == r.available
    ensures Gap(r) == (from, from + n)
  {
    var bitmapPtr, adjacent := FindGap(row, lastPtr);
    from := if bitmapPtr == -1 then lastPtr else bitmapPtr;
    n := if adjacent > available then available else adjacent;
  }

  method MarkSent(row: seq<bit>, from: nat, n: nat) returns (marked: seq<bit>)
    requires from + n <= |row|
    ensures marked == Mark(row, from, from + n)
  {
    marked := row;
    for i := from to from + n
      invariant marked == Mark(row, from, i)
    {
      marked := marked[i := 1];
    }
  }

  method AnyMissing(row: seq<bit>, lastPtr: nat) returns (missing: bool)
    requires lastPtr <= |row|
    ensures missing <==> Missing(row, lastPtr)
  {
    for i := 0 to lastPtr
      invariant forall j :: 0 <= j < i ==> row[j] == 1
    {
      if row[i] == 0 {
        return true;
      }
    }
    return false;
  }
}
