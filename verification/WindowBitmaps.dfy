/** The receivers' bitmaps: one row of 63 flags per window, set tile by tile, and what they report. */
module WindowBitmaps {
  import opened Bytes
  import opened Message

  const TOTAL_TILES := MAX_WINDOWS * WINDOW_SIZE

  /** `count` windows of 63 flags. */
  predicate Bitmaps(rows: seq<seq<bit>>, count: nat) {
    |rows| == count && forall a :: 0 <= a < count ==> |rows[a]| == WINDOW_SIZE
  }

  function NoTiles(count: nat): (rows: seq<seq<bit>>)
    ensures Bitmaps(rows, count)
  {
    seq(count, _ => Repeat(0, WINDOW_SIZE))
  }

  function Max(a: nat, b: nat): nat { if a > b then a else b }

  // ---- Marking tiles --------------------------------------------------------------------------

  /** Bitmaps with the flags of `count` tiles from tile `first` on set. */
  function MarkedTiles(rows: seq<seq<bit>>, first: int, count: nat): (marked: seq<seq<bit>>)
    requires Bitmaps(rows, MAX_WINDOWS)
    ensures Bitmaps(marked, MAX_WINDOWS)
  {
    seq(MAX_WINDOWS, a requires 0 <= a < MAX_WINDOWS =>
      seq(WINDOW_SIZE, b requires 0 <= b < WINDOW_SIZE =>
        if first <= WINDOW_SIZE * a + b < first + count then 1 else rows[a][b]))
  }

  function WithFlag(rows: seq<seq<bit>>, t: nat): (s: seq<seq<bit>>)
    requires Bitmaps(rows, MAX_WINDOWS) && t < MAX_WINDOWS * WINDOW_SIZE
    ensures Bitmaps(s, MAX_WINDOWS)
  {
    rows[t / WINDOW_SIZE := rows[t / WINDOW_SIZE][t % WINDOW_SIZE := 1]]
  }

  lemma MarkNext(rows: seq<seq<bit>>, first: nat, i: nat)
    requires Bitmaps(rows, MAX_WINDOWS) && first + i < MAX_WINDOWS * WINDOW_SIZE
    ensures MarkedTiles(rows, first, i + 1) == WithFlag(MarkedTiles(rows, first, i), first + i)
  {
    var done, next := MarkedTiles(rows, first, i + 1), WithFlag(MarkedTiles(rows, first, i), first + i);
    forall p | 0 <= p < |done| ensures done[p] == next[p] {
      assert forall q :: 0 <= q < |done[p]| ==> done[p][q] == next[p][q];
    }
  }

  lemma NoneMarked(rows: seq<seq<bit>>, first: nat)
    requires Bitmaps(rows, MAX_WINDOWS)
    ensures MarkedTiles(rows, first, 0) == rows
  {
    assert forall a :: 0 <= a < |rows| ==> MarkedTiles(rows, first, 0)[a] == rows[a];
  }

  /** Marks one tile. Position `at` counts from the start of window `w` and may run over into the
      next one. */
  method MarkTile(rows: seq<seq<bit>>, w: nat, at: nat) returns (marked: seq<seq<bit>>)
    requires Bitmaps(rows, MAX_WINDOWS) && at < 2 * WINDOW_SIZE
    requires WINDOW_SIZE * w + at < MAX_WINDOWS * WINDOW_SIZE
    ensures marked == WithFlag(rows, WINDOW_SIZE * w + at)
  {
    if at > WINDOW_SIZE - 1 {
      marked := rows[w + 1 := rows[w + 1][at - WINDOW_SIZE := 1]];
    } else {
      marked := rows[w := rows[w][at := 1]];
    }
  }

  // ---- Flags as tiles ------------------------------------------------------------------------

  /** Tile `t` is marked as received. */
  predicate Has(bitmap: seq<seq<bit>>, t: nat)
    requires Bitmaps(bitmap, MAX_WINDOWS)
  {
    t < TOTAL_TILES && bitmap[t / WINDOW_SIZE][t % WINDOW_SIZE] == 1
  }

  lemma StoredBits(bitmap: seq<seq<bit>>, first: nat, count: nat)
    requires Bitmaps(bitmap, MAX_WINDOWS)
    ensures forall t: nat :: t < TOTAL_TILES ==>
              (Has(MarkedTiles(bitmap, first, count), t) <==> Has(bitmap, t) || first <= t < first + count)
  {
    forall t: nat | t < TOTAL_TILES
      ensures Has(MarkedTiles(bitmap, first, count), t) <==> Has(bitmap, t) || first <= t < first + count
    {
      var a, b := t / WINDOW_SIZE, t % WINDOW_SIZE;
      assert WINDOW_SIZE * a + b == t;
      assert MarkedTiles(bitmap, first, count)[a][b] == if first <= t < first + count then 1 else bitmap[a][b];
    }
  }

  /** Bitmaps with the last flag of a window set. */
  function FlagSet(bitmap: seq<seq<bit>>, w: nat): (r: seq<seq<bit>>)
    requires Bitmaps(bitmap, MAX_WINDOWS) && w < MAX_WINDOWS
    ensures Bitmaps(r, MAX_WINDOWS)
  {
    bitmap[w := bitmap[w][WINDOW_SIZE - 1 := 1]]
  }

  lemma OtherFlags(bitmap: seq<seq<bit>>, w: nat, t: nat)
    requires Bitmaps(bitmap, MAX_WINDOWS) && w < MAX_WINDOWS && t < WINDOW_SIZE * w + WINDOW_SIZE - 1
    ensures Has(FlagSet(bitmap, w), t) <==> Has(bitmap, t)
  {
    var a, b := t / WINDOW_SIZE, t % WINDOW_SIZE;
    assert t == WINDOW_SIZE * a + b && 0 <= b < WINDOW_SIZE;
    if a == w {
      assert b < WINDOW_SIZE - 1;
    }
  }

  /** The flags set are those of the given tiles. */
  predicate FlagsAre(bitmap: seq<seq<bit>>, tiles: set<nat>)
    requires Bitmaps(bitmap, MAX_WINDOWS)
  {
    forall t: nat :: t < TOTAL_TILES ==> (Has(bitmap, t) <==> t in tiles)
  }

  predicate Among(t: nat, first: int, count: nat) {
    first <= t < first + count
  }

  /** `count` tiles from `first` on. */
  function TileRange(first: int, count: nat): set<nat> {
    set t: nat | t < first + count && Among(t, first, count)
  }

  lemma MarkedFlags(bitmap: seq<seq<bit>>, tiles: set<nat>, first: nat, count: nat)
    requires Bitmaps(bitmap, MAX_WINDOWS) && FlagsAre(bitmap, tiles)
    ensures FlagsAre(MarkedTiles(bitmap, first, count), tiles + TileRange(first, count))
  {
    StoredBits(bitmap, first, count);
  }

  lemma LastFlagSet(bitmap: seq<seq<bit>>, tiles: set<nat>, w: nat)
    requires Bitmaps(bitmap, MAX_WINDOWS) && FlagsAre(bitmap, tiles) && w < MAX_WINDOWS
    ensures FlagsAre(FlagSet(bitmap, w), tiles + {WINDOW_SIZE * w + WINDOW_SIZE - 1})
  {
    var last := WINDOW_SIZE * w + WINDOW_SIZE - 1;
    forall t: nat | t < TOTAL_TILES ensures Has(FlagSet(bitmap, w), t) <==> Has(bitmap, t) || t == last {
      var a, b := t / WINDOW_SIZE, t % WINDOW_SIZE;
      assert t == WINDOW_SIZE * a + b && 0 <= b < WINDOW_SIZE;
    }
  }

  lemma NoFlags()
    ensures FlagsAre(NoTiles(MAX_WINDOWS), {})
  {
    forall t: nat | t < TOTAL_TILES ensures !Has(NoTiles(MAX_WINDOWS), t) {
      var a := t / WINDOW_SIZE;
      assert NoTiles(MAX_WINDOWS)[a] == Repeat(0, WINDOW_SIZE);
    }
  }

  // ---- What is reported -----------------------------------------------------------------------

  /** `get_c_from_bitmap` */
  predicate Complete(row: seq<bit>) {
    forall b :: 0 <= b < |row| ==> row[b] == 1
  }

  /** Windows before `last` with a missing tile. */
  function IncompleteBefore(rows: seq<seq<bit>>, last: nat): (ws: seq<nat>)
    requires last <= |rows|
    ensures forall i :: 0 <= i < |ws| ==> ws[i] < last && !Complete(rows[ws[i]])
    ensures forall a :: 0 <= a < last && !Complete(rows[a]) ==> a in ws
  {
    if last == 0 then []
    else IncompleteBefore(rows, last - 1) + if Complete(rows[last - 1]) then [] else [last - 1]
  }

  /** The last window is always reported. */
  function ErrorWindows(rows: seq<seq<bit>>, last: nat): seq<nat>
    requires last < |rows|
  {
    IncompleteBefore(rows, last) + [last]
  }

  predicate Increasing(s: seq<nat>) {
    forall i, j :: 0 <= i < j < |s| ==> s[i] < s[j]
  }

  lemma IncreasesOn(s: seq<nat>, x: nat)
    requires Increasing(s) && forall i :: 0 <= i < |s| ==> s[i] < x
    ensures Increasing(s + [x])
  {
  }

  lemma {:induction false} IncompleteIncreases(rows: seq<seq<bit>>, last: nat)
    requires last <= |rows|
    ensures Increasing(IncompleteBefore(rows, last))
  {
    if last == 0 {
    } else {
      IncompleteIncreases(rows, last - 1);
      var before := IncompleteBefore(rows, last - 1);
      IncreasesOn(before, last - 1);
      assert before + [] == before;
    }
  }

  /** The windows reported: increasing, the last window at the end, and before it those with a missing
      tile, and no others. */
  lemma ErrorWindowsExactly(rows: seq<seq<bit>>, last: nat)
    requires last < |rows|
    ensures var ws := ErrorWindows(rows, last);
            && Increasing(ws) && ws != [] && ws[|ws| - 1] == last
            && (forall a: nat :: a < last ==> (a in ws <==> !Complete(rows[a])))
  {
    var before := IncompleteBefore(rows, last);
    IncompleteIncreases(rows, last);
    IncreasesOn(before, last);
    forall a: nat | a < last ensures a in before + [last] <==> !Complete(rows[a]) {
      assert a in before <==> !Complete(rows[a]);
    }
  }

  /** `get_c_from_bitmap` */
  method IsComplete(row: seq<bit>) returns (complete: bool)
    ensures complete == Complete(row)
  {
    for b := 0 to |row|
      invariant forall j :: 0 <= j < b ==> row[j] == 1
    {
      if row[b] == 0 {
        return false;
      }
    }
    return true;
  }

  method WindowsWithError(rows: seq<seq<bit>>, last: nat) returns (windows: seq<nat>)
    requires last < |rows|
    ensures windows == ErrorWindows(rows, last)
  {
    windows := [];
    for i := 0 to last
      invariant windows == IncompleteBefore(rows, i)
    {
      var complete := IsComplete(rows[i]);
      if !complete {
        windows := windows + [i];
      }
    }
    windows := windows + [last];
  }

  /** First window from `i` on with a missing tile; the last window when there is none before it. */
  function FirstIncomplete(rows: seq<seq<bit>>, i: nat, last: nat): (w: nat)
    requires last < |rows|
    ensures w <= last
    decreases last - i
  {
    if i >= last then last else if !Complete(rows[i]) then i else FirstIncomplete(rows, i + 1, last)
  }

  lemma {:induction false} FirstIncompleteExactly(rows: seq<seq<bit>>, i: nat, last: nat)
    requires last < |rows|
    ensures var w := FirstIncomplete(rows, i, last);
            && (w < last ==> w >= i && !Complete(rows[w]))
            && forall a :: i <= a < w ==> Complete(rows[a])
    decreases last - i
  {
    if i < last && Complete(rows[i]) {
      FirstIncompleteExactly(rows, i + 1, last);
    }
  }
}
