/** Numbering of regular fragments: window W and fragment compressed number FCN of the first tile. */
module Numbering {
  import opened Bytes
  import opened Message

  /** The sender's position: next window, next FCN, next tile. W and FCN live in 8 bits. */
  datatype Cursor = Cursor(w: nat, fcn: nat, ptr: nat)

  const START := Cursor(0, WINDOW_SIZE - 1, 0)

  /** Tile pointer of a fragment as the receiver computes it (`get_tile_ptr`). */
  function TilePtr(w: nat, fcn: nat): int {
    if w == 0 then WINDOW_SIZE - 1 - fcn
    else if w == 1 then 2 * WINDOW_SIZE - 1 - fcn
    else if w == 2 then 3 * WINDOW_SIZE - 1 - fcn
    else if w == 3 then 4 * WINDOW_SIZE - 1 - fcn
    else -1
  }

  /** Window and FCN say which tile comes next. */
  predicate Numbered(c: Cursor) {
    c.fcn < WINDOW_SIZE && c.ptr == WINDOW_SIZE * c.w + WINDOW_SIZE - 1 - c.fcn
  }

  /** The update after a fragment of `n` tiles that was not the last one. */
  function Advance(c: Cursor, n: nat): Cursor {
    if c.fcn - n <= -1 then Cursor((c.w + 1) % 256, (c.fcn - n + WINDOW_SIZE) % 256, c.ptr + n)
    else Cursor(c.w, c.fcn - n, c.ptr + n)
  }

  /** The update keeps the numbering exactly when the fragment ends no later than the next window. */
  lemma AdvanceExact(c: Cursor, n: nat)
    requires Numbered(c) && c.w < MAX_WINDOWS && n <= MAX_WINDOWS * WINDOW_SIZE
    ensures Numbered(Advance(c, n)) <==> n <= c.fcn + WINDOW_SIZE
  {
  }

  lemma ReceiverFindsTile(c: Cursor)
    requires Numbered(c) && c.w < MAX_WINDOWS
    ensures TilePtr(c.w, c.fcn) == c.ptr
    ensures c.w == c.ptr / WINDOW_SIZE && c.fcn == WINDOW_SIZE - 1 - c.ptr % WINDOW_SIZE
  {
  }

  /** One fragment: where it starts and how many tiles it carries. */
  datatype Piece = Piece(at: Cursor, count: nat)

  /** What repeated executions of SEND emit, `available` being the tiles that fit a frame. */
  function SendPlan(c: Cursor, nFullTiles: nat, available: nat): seq<Piece>
    requires available > 0 && c.ptr <= nFullTiles
    decreases nFullTiles - c.ptr
  {
    if nFullTiles - c.ptr > available then
      [Piece(c, available)] + SendPlan(Advance(c, available), nFullTiles, available)
    else [Piece(c, nFullTiles - c.ptr)]
  }

  /** The pieces follow one another without gap or overlap from tile `lo` to tile `hi`. */
  predicate Partitions(plan: seq<Piece>, lo: nat, hi: nat) {
    if plan == [] then lo == hi
    else plan[0].at.ptr == lo && Partitions(plan[1..], lo + plan[0].count, hi)
  }

  /** The fragments partition the tiles in order; in each, W is at most 3, FCN at most 62, both
      name the first tile, no frame is exceeded, and only the first piece of an empty tail is empty. */
  lemma {:induction false} SendPlanExact(c: Cursor, nFullTiles: nat, available: nat)
    requires Numbered(c) && c.ptr <= nFullTiles < MAX_WINDOWS * WINDOW_SIZE + 1
    requires c.ptr < nFullTiles || c.w < MAX_WINDOWS
    requires 0 < available <= WINDOW_SIZE
    ensures Partitions(SendPlan(c, nFullTiles, available), c.ptr, nFullTiles)
    ensures forall p :: p in SendPlan(c, nFullTiles, available) ==>
              && Numbered(p.at) && p.at.w < MAX_WINDOWS && p.count <= available
              && TilePtr(p.at.w, p.at.fcn) == p.at.ptr && p.at.ptr + p.count <= nFullTiles
              && (c.ptr < nFullTiles ==> p.count > 0)
    decreases nFullTiles - c.ptr
  {
    ReceiverFindsTile(c);
    if nFullTiles - c.ptr > available {
      AdvanceExact(c, available);
      var next := Advance(c, available);
      SendPlanExact(next, nFullTiles, available);
      assert SendPlan(c, nFullTiles, available)[1..] == SendPlan(next, nFullTiles, available);
    } else {
      assert SendPlan(c, nFullTiles, available)[1..] == [];
    }
  }

  /** Every piece of a plan ends within the tiles. */
  predicate Within(pieces: seq<Piece>, n: nat) {
    forall i :: 0 <= i < |pieces| ==> pieces[i].at.ptr + pieces[i].count <= n
  }

  lemma SendPlanWithin(c: Cursor, nFullTiles: nat, available: nat)
    requires available > 0 && c.ptr <= nFullTiles
    ensures Within(SendPlan(c, nFullTiles, available), nFullTiles) && SendPlan(c, nFullTiles, available) != []
    decreases nFullTiles - c.ptr
  {
    if nFullTiles - c.ptr > available {
      SendPlanWithin(Advance(c, available), nFullTiles, available);
    }
  }

  /** The piece that ends a plan; the All-1 leaves with it. */
  function LastPiece(c: Cursor, nFullTiles: nat, available: nat): Piece
    requires available > 0 && c.ptr <= nFullTiles
  {
    SendPlanWithin(c, nFullTiles, available);
    var plan := SendPlan(c, nFullTiles, available);
    plan[|plan| - 1]
  }

  lemma LastPieceAhead(c: Cursor, nFullTiles: nat, available: nat)
    requires available > 0 && c.ptr <= nFullTiles
    ensures LastPiece(c, nFullTiles, available)
            == if nFullTiles - c.ptr > available then LastPiece(Advance(c, available), nFullTiles, available)
               else Piece(c, nFullTiles - c.ptr)
  {
    if nFullTiles - c.ptr > available {
      SendPlanWithin(Advance(c, available), nFullTiles, available);
    }
  }

  /** `x` rounded down to a multiple of `a`. */
  function RoundedDown(a: nat, x: nat): nat
    requires a > 0
  {
    a * (x / a)
  }

  lemma RoundedDownStep(a: nat, x: nat)
    requires a > 0
    ensures RoundedDown(a, x) == if x < a then 0 else a + RoundedDown(a, x - a)
  {
    if x < a {
      DivUnique(x, a, 0, x);
    } else {
      var q := (x - a) / a;
      DivUnique(x, a, q + 1, (x - a) % a);
      assert a * (q + 1) == a + a * q;
    }
  }

  /** Pieces start at multiples of a frame's tiles; the last one starts at the last such multiple. */
  lemma {:induction false} LastPieceStarts(c: Cursor, nFullTiles: nat, available: nat)
    requires available > 0 && c.ptr < nFullTiles
    ensures LastPiece(c, nFullTiles, available).at.ptr == c.ptr + RoundedDown(available, nFullTiles - 1 - c.ptr)
    decreases nFullTiles - c.ptr
  {
    LastPieceAhead(c, nFullTiles, available);
    RoundedDownStep(available, nFullTiles - 1 - c.ptr);
    if nFullTiles - c.ptr > available {
      LastPieceStarts(Advance(c, available), nFullTiles, available);
    }
  }

  // ---- Pieces that run over the end of their window ---------------------------------------------

  predicate OverWindow(p: Piece) {
    p.at.ptr % WINDOW_SIZE + p.count > WINDOW_SIZE
  }

  lemma MulAtMost(a: nat, x: int, y: int)
    requires a > 0 && a * x < a * y
    ensures a * (x + 1) <= a * y
  {
    if x >= y {
      assert a * x == a * y + a * (x - y);
      MulAtLeastBy(a, x - y);
    } else {
      MulAtLeastBy(a, y - x - 1);
      assert a * y == a * (x + 1) + a * (y - x - 1);
    }
  }

  lemma MulAtLeastBy(a: nat, d: int)
    requires d >= 0
    ensures a * d >= 0
  {
  }

  /** Frames that divide the window cut it without remainder. */
  lemma InsideWindow(a: nat, ptr: nat)
    requires a > 0 && WINDOW_SIZE % a == 0 && ptr % a == 0
    ensures ptr % WINDOW_SIZE + a <= WINDOW_SIZE
  {
    var k, j, q := WINDOW_SIZE / a, ptr / a, ptr / WINDOW_SIZE;
    assert a * k == WINDOW_SIZE && a * j == ptr;
    var d := j - k * q;
    assert a * d == a * j - a * k * q;
    assert a * d == ptr % WINDOW_SIZE;
    MulAtMost(a, d, k);
    assert a * (d + 1) == a * d + a;
  }

  lemma NextMultiple(a: nat, x: nat)
    requires a > 0 && x % a == 0
    ensures (x + a) % a == 0
  {
    var q := x / a;
    assert x + a == (q + 1) * a;
    DivUnique(x + a, a, q + 1, 0);
  }

  lemma {:induction false} NoneOver(c: Cursor, nFullTiles: nat, available: nat)
    requires available > 0 && c.ptr <= nFullTiles && WINDOW_SIZE % available == 0 && c.ptr % available == 0
    ensures forall p :: p in SendPlan(c, nFullTiles, available) ==> !OverWindow(p)
    decreases nFullTiles - c.ptr
  {
    InsideWindow(available, c.ptr);
    if nFullTiles - c.ptr > available {
      NextMultiple(available, c.ptr);
      NoneOver(Advance(c, available), nFullTiles, available);
    }
  }

  lemma {:induction false} FirstOver(c: Cursor, nFullTiles: nat, available: nat) returns (p: Piece)
    requires 0 < available && WINDOW_SIZE % available != 0 && c.ptr % available == 0
    requires c.ptr < WINDOW_SIZE < nFullTiles
    ensures p in SendPlan(c, nFullTiles, available) && OverWindow(p)
    decreases nFullTiles - c.ptr
  {
    if c.ptr + available > WINDOW_SIZE {
      p := SendPlan(c, nFullTiles, available)[0];
    } else {
      NextMultiple(available, c.ptr);
      p := FirstOver(Advance(c, available), nFullTiles, available);
    }
  }

  /** Some fragment of a transmission runs over the end of its window exactly when there is a second
      window and frames do not divide the window. */
  lemma OverExactly(nFullTiles: nat, available: nat)
    requires available > 0
    ensures (exists p :: p in SendPlan(START, nFullTiles, available) && OverWindow(p))
            <==> nFullTiles > WINDOW_SIZE && WINDOW_SIZE % available != 0
  {
    DivUnique(0, available, 0, 0);
    if WINDOW_SIZE % available == 0 {
      NoneOver(START, nFullTiles, available);
    } else if nFullTiles > WINDOW_SIZE {
      var p := FirstOver(START, nFullTiles, available);
    } else {
      SendPlanWithin(START, nFullTiles, available);
    }
  }

  /** Every tile is in one of the pieces. */
  lemma {:induction false} Covers(plan: seq<Piece>, lo: nat, hi: nat, t: nat) returns (i: nat)
    requires Partitions(plan, lo, hi) && lo <= t < hi
    ensures i < |plan| && plan[i].at.ptr <= t < plan[i].at.ptr + plan[i].count
  {
    if t < lo + plan[0].count {
      i := 0;
    } else {
      var j := Covers(plan[1..], lo + plan[0].count, hi, t);
      i := j + 1;
    }
  }
}
