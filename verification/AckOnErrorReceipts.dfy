/** What an ACK-on-Error receiver does with each message, in both modes: when it ends, what it answers,
    which windows it complains about; and that no run leaves it waiting with everything there. */
module AckOnErrorReceipts {
  import opened Bytes
  import opened Message
  import opened Tiling
  import opened Numbering
  import opened Retransmission
  import opened WindowBitmaps
  import opened AckOnErrorSession
  import Rcs
  import Rcv = AckOnErrorReceiver

  /** The answer after a failed check: a report of all incomplete windows, or in session mode a NACK
      about the first one from `from` on. */
  function Complaint(x: Rcv.Ctx, from: nat): seq<byte>
    requires Rcv.Valid(x)
  {
    if x.mode == Compound then CompoundAckMsg(x.lastWindow, ErrorWindows(x.bitmap, x.lastWindow), x.bitmap)
    else
      var w := FirstIncomplete(x.bitmap, from, x.lastWindow);
      NegativeAckMsg(w, x.bitmap[w], true)
  }

  // ---- RCV_WINDOW -------------------------------------------------------------------------------

  /** A fragment is stored without a word, whatever window it runs into. */
  lemma FragmentInWindow(g: Setting, x: Rcv.Ctx, m: seq<byte>, p: Piece)
    requires Admissible(g) && Honest(g, x) && IsFragment(g, m, p) && x.state == Rcv.RcvWindow
    ensures m != []
    ensures var o := Rcv.Receive(x, m);
            && o.replies == [] && o.ctx.state == Rcv.RcvWindow && o.ctx.enabled && Honest(g, o.ctx)
            && forall t: nat :: t < TOTAL_TILES ==> (Has(o.ctx.bitmap, t) <==> Has(x.bitmap, t) || Carries(p, t))
  {
    StoresFragment(g, x, m, p);
    var y := Rcv.Stored(x, m);
    TilingExact(g.packet);
    assert Rcv.Receive(x, m) == Rcv.Reaction(y.(enabled := true), []);
  }

  /** The All-1 ends the receiver with C = 1 if the check succeeds, as it does when all tiles are there;
      otherwise it makes it complain and wait. */
  lemma AllOneInWindow(g: Setting, x: Rcv.Ctx, m: seq<byte>)
    requires Admissible(g) && Honest(g, x) && Frame(g, m) && FragmentType(m) == AllOneFragment && x.state == Rcv.RcvWindow
    ensures var o := Rcv.Receive(x, m);
            && Honest(g, o.ctx) && Closed(o.ctx)
            && (forall t: nat :: t < N(g) ==> (Has(o.ctx.bitmap, t) <==> Has(x.bitmap, t)))
            && (HasAll(g, x.bitmap) ==> Rcv.CheckRcs(o.ctx))
            && (if Rcv.CheckRcs(o.ctx) then o.ctx.state == Rcv.End && o.replies == [PositiveAckMsg(W(g) - 1)]
                else o.ctx.state == Rcv.WaitMissing && o.replies == [Complaint(o.ctx, x.lastConfirmed)])
  {
    TakesAllOne(g, x, m, 1);
    AllOneKeeps(g, x, m);
    var y, z := Rcv.Flagged(Rcv.Closing(x, m, 1)), Rcv.Receive(x, m).ctx;
    SameCheck(y, z);
    assert z.bitmap == y.bitmap;
    if HasAll(g, x.bitmap) {
      CompleteMeansPacket(g, z);
    }
  }

  /** An ACK request ends a receiver that has not got a fragment; otherwise the receiver complains and
      waits, unless in compound mode the check succeeds. */
  lemma RequestInWindow(g: Setting, x: Rcv.Ctx, m: seq<byte>)
    requires Admissible(g) && Honest(g, x) && Frame(g, m) && FragmentType(m) == AckRequest && x.state == Rcv.RcvWindow
    ensures var o := Rcv.Receive(x, m);
            && Rcv.Valid(o.ctx)
            && (!x.enabled ==> o == Rcv.Reaction(x.(state := Rcv.End), []))
            && (x.enabled ==>
                  && o.ctx == x.(state := o.ctx.state, lastWindow := Max(x.lastWindow, WOf(m)), lastConfirmed := o.ctx.lastConfirmed)
                  && if x.mode == Compound && Rcv.CheckRcs(x)
                     then o.ctx.state == Rcv.End && o.replies == [PositiveAckMsg(o.ctx.lastWindow)]
                     else o.ctx.state == Rcv.WaitMissing && o.replies == [Complaint(o.ctx, x.lastConfirmed)])
  {
    SameCheck(x, x.(lastWindow := Max(x.lastWindow, WOf(m))));
  }

  // ---- WAIT_X_MISSING_FRAG ----------------------------------------------------------------------

  /** The answer to a fragment that has been stored. */
  lemma RepairAnswers(x: Rcv.Ctx, m: seq<byte>)
    requires Rcv.Valid(x) && x.state == Rcv.WaitMissing && m != [] && FragmentType(m) == RegularFragment
    requires Rcv.Stored(x, m).state == Rcv.WaitMissing
    ensures var y := Rcv.Stored(x, m);
            Rcv.Receive(x, m)
            == if Rcv.CheckRcs(y) then
                 Rcv.Reaction(y.(state := Rcv.End), [PositiveAckMsg(if x.mode == Compound then y.lastWindow else WOf(m))])
               else
                 Rcv.Reaction(y, if x.mode != Compound && Complete(y.bitmap[WOf(m)]) then [Complaint(y, WOf(m) + 1)] else [])
  {
  }

  /** A fragment that stays in its window is stored. If the check then succeeds, as it does when all
      tiles and the All-1 are there, the receiver ends with exactly one answer, C = 1; otherwise it
      waits, and says nothing but, in session mode, which window comes next once this one is complete. */
  lemma FragmentInRepair(g: Setting, x: Rcv.Ctx, m: seq<byte>, p: Piece)
    requires Admissible(g) && Honest(g, x) && IsFragment(g, m, p) && x.state == Rcv.WaitMissing
    requires p.at.ptr % WINDOW_SIZE + p.count <= WINDOW_SIZE
    ensures m != []
    ensures var o := Rcv.Receive(x, m);
            && Honest(g, o.ctx) && (Closed(o.ctx) <==> Closed(x)) && o.ctx.mode == x.mode
            && (forall t: nat :: t < TOTAL_TILES ==> (Has(o.ctx.bitmap, t) <==> Has(x.bitmap, t) || Carries(p, t)))
            && (HasAll(g, o.ctx.bitmap) && Closed(x) ==> Rcv.CheckRcs(o.ctx))
            && (if Rcv.CheckRcs(o.ctx) then
                  && o.ctx.state == Rcv.End
                  && o.replies == [PositiveAckMsg(if x.mode == Compound then o.ctx.lastWindow else p.at.w)]
                else
                  && o.ctx.state == Rcv.WaitMissing
                  && o.replies == if x.mode != Compound && Complete(o.ctx.bitmap[p.at.w])
                                  then [Complaint(o.ctx, p.at.w + 1)] else [])
  {
    TilingExact(g.packet);
    StoresFragment(g, x, m, p);
    FragmentIsFrame(g, p);
    RepairAnswers(x, m);
    var y, z := Rcv.Stored(x, m), Rcv.Receive(x, m).ctx;
    SameCheck(y, z);
    if HasAll(g, z.bitmap) && Closed(x) {
      CompleteMeansPacket(g, z);
    }
  }

  /** An ACK request in the repair phase is answered with C = 1 exactly when the check succeeds. */
  lemma RequestInRepair(g: Setting, x: Rcv.Ctx, m: seq<byte>)
    requires Admissible(g) && Honest(g, x) && Frame(g, m) && FragmentType(m) == AckRequest && x.state == Rcv.WaitMissing
    ensures Rcv.Receive(x, m)
            == if Rcv.CheckRcs(x) then Rcv.Reaction(x.(state := Rcv.End), [PositiveAckMsg(x.lastWindow)])
               else Rcv.Reaction(x, [Complaint(x, 0)])
    ensures HasAll(g, x.bitmap) && Closed(x) ==> Rcv.CheckRcs(x)
  {
    if HasAll(g, x.bitmap) && Closed(x) {
      CompleteMeansPacket(g, x);
    }
  }

  /** An All-1 in the repair phase: a successful check ends the receiver, whose one answer says C = 1
      only if every flag of the last window is set; otherwise it complains, in session mode about the
      last window. */
  lemma AllOneInRepair(g: Setting, x: Rcv.Ctx, m: seq<byte>)
    requires Admissible(g) && Honest(g, x) && Frame(g, m) && FragmentType(m) == AllOneFragment && x.state == Rcv.WaitMissing
    ensures var o := Rcv.Receive(x, m);
            && Honest(g, o.ctx) && Closed(o.ctx)
            && (forall t: nat :: t < N(g) ==> (Has(o.ctx.bitmap, t) <==> Has(x.bitmap, t)))
            && (HasAll(g, x.bitmap) ==> Rcv.CheckRcs(o.ctx))
            && var last := W(g) - 1;
               0 <= last < MAX_WINDOWS
               && if Rcv.CheckRcs(o.ctx) then
                    && o.ctx.state == Rcv.End
                    && o.replies == [if Complete(o.ctx.bitmap[last]) then PositiveAckMsg(last)
                                     else NegativeAckMsg(last, o.ctx.bitmap[last], true)]
                  else o.ctx.state == Rcv.WaitMissing && o.replies == [Complaint(o.ctx, last)]
  {
    TilingExact(g.packet);
    TakesAllOne(g, x, m, 8);
    AllOneKeeps(g, x, m);
    var y, z := Rcv.Flagged(Rcv.Closing(x, m, 8)), Rcv.Receive(x, m).ctx;
    assert z == y.(state := z.state);
    SameCheck(y, z);
    if HasAll(g, x.bitmap) {
      CompleteMeansPacket(g, z);
    }
  }

  // ---- What a complaint says --------------------------------------------------------------------

  /** A session-mode complaint names the first incomplete window and carries all its flags. */
  lemma NackSays(x: Rcv.Ctx, from: nat)
    requires Rcv.Valid(x) && x.mode == EndOfSession
    ensures var m := Complaint(x, from);
            && m != [] && COf(m) == 0 && WOf(m) <= x.lastWindow
            && (Bits(m)[3..] + Repeat(1, WINDOW_SIZE))[..WINDOW_SIZE] == x.bitmap[WOf(m)]
            && (WOf(m) < x.lastWindow ==> WOf(m) >= from && !Complete(x.bitmap[WOf(m)]))
            && forall a :: from <= a < WOf(m) ==> Complete(x.bitmap[a])
  {
    var w := FirstIncomplete(x.bitmap, from, x.lastWindow);
    FirstIncompleteExactly(x.bitmap, from, x.lastWindow);
    BitmapCompressionLossless(w, x.bitmap[w]);
  }

  /** A compound complaint names the incomplete windows in order, then the last, and a decoder with any
      rows gets the receiver's flags for exactly those. */
  lemma ReportSays(x: Rcv.Ctx, rows: seq<seq<bit>>)
    requires Rcv.Valid(x) && x.mode == Compound && |rows| > x.lastWindow && forall a :: 0 <= a < |rows| ==> |rows[a]| >= WINDOW_SIZE
    ensures var m, a := Complaint(x, 0), ReadAck(Complaint(x, 0), Compound, rows);
            && COf(m) == 0 && a.AckContents?
            && Increasing(a.windows) && a.windows != [] && a.windows[|a.windows| - 1] == x.lastWindow
            && (forall w: nat :: w < x.lastWindow ==> (w in a.windows <==> !Complete(x.bitmap[w])))
            && Reportable(a.windows, x.bitmap) && Reportable(a.windows, rows)
            && a.rows == Copied(a.windows, x.bitmap, rows)
  {
    var ws := ErrorWindows(x.bitmap, x.lastWindow);
    ErrorWindowsExactly(x.bitmap, x.lastWindow);
    assert forall i :: 0 <= i < |ws| ==> ws[i] <= x.lastWindow;
    CompoundRoundTrip(x.lastWindow, ws, x.bitmap, rows);
  }

  /** With the All-1 stored and the check failed, the window a NACK names from the start misses a tile. */
  lemma NackFindsMissing(g: Setting, x: Rcv.Ctx) returns (t: nat)
    requires Admissible(g) && Honest(g, x) && x.mode == EndOfSession && Closed(x) && !Rcv.CheckRcs(x)
    ensures t < N(g) && !Has(x.bitmap, t) && t / WINDOW_SIZE == FirstIncomplete(x.bitmap, 0, x.lastWindow)
  {
    TilingExact(g.packet);
    var w := FirstIncomplete(x.bitmap, 0, x.lastWindow);
    FirstIncompleteExactly(x.bitmap, 0, x.lastWindow);
    if w < x.lastWindow {
      var b :| 0 <= b < WINDOW_SIZE && x.bitmap[w][b] != 1;
      t := WINDOW_SIZE * w + b;
      assert t / WINDOW_SIZE == w && t % WINDOW_SIZE == b;
    } else {
      t := SomeMissing(g, x);
      assert t / WINDOW_SIZE < w ==> Complete(x.bitmap[t / WINDOW_SIZE]);
    }
  }

  lemma SomeMissing(g: Setting, x: Rcv.Ctx) returns (t: nat)
    requires Admissible(g) && Honest(g, x) && Closed(x) && !Rcv.CheckRcs(x)
    ensures t < N(g) && !Has(x.bitmap, t)
  {
    if HasAll(g, x.bitmap) {
      CompleteMeansPacket(g, x);
    }
    t :| t < N(g) && !Has(x.bitmap, t);
  }

  // ---- Any message --------------------------------------------------------------------------------

  /** Where the receiver reads beyond what it has. */
  predicate BeyondBuffers(state: Rcv.State, m: seq<byte>)
    requires m != []
  {
    || (FragmentType(m) == AllOneFragment && |m| < 5)
    || (FragmentType(m) == RegularFragment && !Rcv.Storable(state, WOf(m), FcnOf(m), (|m| - 1) / TILE_SIZE))
  }

  lemma InWindowBeyond(x: Rcv.Ctx, m: seq<byte>)
    requires Rcv.Valid(x) && m != [] && x.state == Rcv.RcvWindow
    ensures Rcv.OnWindow(x, m).ctx.state == Rcv.Fault <==> BeyondBuffers(x.state, m)
  {
  }

  lemma InRepairBeyond(x: Rcv.Ctx, m: seq<byte>)
    requires Rcv.Valid(x) && m != [] && x.state == Rcv.WaitMissing
    ensures Rcv.OnMissing(x, m).ctx.state == Rcv.Fault <==> BeyondBuffers(x.state, m)
  {
  }

  /** Whatever the message: the receiver leaves its buffers exactly when it reads an All-1 too short for
      an RCS, or a fragment whose tiles do not fit. */
  lemma LeavesBuffersExactly(x: Rcv.Ctx, m: seq<byte>)
    requires Rcv.Valid(x) && m != [] && Rcv.Receiving(x.state)
    ensures Rcv.Receive(x, m).ctx.state == Rcv.Fault <==> BeyondBuffers(x.state, m)
  {
    if x.state == Rcv.RcvWindow {
      InWindowBeyond(x, m);
    } else {
      InRepairBeyond(x, m);
    }
  }

  // ---- Every run --------------------------------------------------------------------------------

  /** No run, in either mode, leaves a receiver that has the All-1 waiting with all tiles there; and one
      that has the All-1 has left RCV_WINDOW. */
  lemma NeverWaitsInVain(g: Setting, events: seq<Event>)
    requires Admissible(g)
    ensures var x := After(g, events).rcv;
            && (x.state == Rcv.WaitMissing && Closed(x) ==> !Rcv.CheckRcs(x) && !HasAll(g, x.bitmap))
            && (Closed(x) ==> x.state != Rcv.RcvWindow)
  {
    RunKeepsInvariant(g, events);
    var x := After(g, events).rcv;
    if x.state == Rcv.WaitMissing && Closed(x) && HasAll(g, x.bitmap) {
      CompleteMeansPacket(g, x);
    }
  }
}
