/** Repairs as runs of an ACK-on-Error session: one loss-free round finishes a compound session; in
    session mode the first NACK for a window resends all of it and later ones nothing. */
module AckOnErrorRepairs {
  import opened Bytes
  import opened Message
  import opened Tiling
  import opened Numbering
  import opened Retransmission
  import opened WindowBitmaps
  import opened AckOnErrorSession
  import opened AckOnErrorRuns
  import Rcs
  import Snd = AckOnErrorSender
  import Rcv = AckOnErrorReceiver

  // ---- One repair round of a compound session ----------------------------------------------------

  /** The receiver waits for missing fragments with the All-1 stored, the sender waits for an ACK and
      has not asked too often. */
  predicate BothWait(s: Session)
    requires Typed(s)
  {
    && s.rcv.state == Rcv.WaitMissing && Closed(s.rcv)
    && s.snd.state == Snd.WaitAck && s.snd.attempts <= Snd.MAX_ACK_REQUESTS
  }

  /** The timer expires, the ACK request arrives, the report arrives. */
  function Asking(s: Session): seq<Event>
    requires Typed(s)
  {
    [Timeout, Deliver(AckRequestMsg(s.snd.cursor.w))] + [Answer(Rcv.Report(s.rcv))]
  }

  lemma TimeoutAsks(g: Setting, s: Session)
    requires Admissible(g) && Typed(s) && BothWait(s)
    ensures var t := Step(g, s, Timeout);
            t == s.(snd := s.snd.(attempts := s.snd.attempts + 1), toRcv := t.toRcv) && AckRequestMsg(s.snd.cursor.w) in t.toRcv
  {
    assert AckRequestMsg(s.snd.cursor.w) in Elements([AckRequestMsg(s.snd.cursor.w)]);
  }

  lemma RequestReports(g: Setting, s: Session, w: nat)
    requires Admissible(g) && g.mode == Compound && Typed(s) && Short(g, s.rcv) && w < W(g) && AckRequestMsg(w) in s.toRcv
    ensures var t := Step(g, s, Deliver(AckRequestMsg(w)));
            t == s.(toSnd := t.toSnd) && Rcv.Report(s.rcv) in t.toSnd
  {
    RequestGetsReport(g, s.rcv, w);
    assert Rcv.Report(s.rcv) in Elements([Rcv.Report(s.rcv)]);
  }

  lemma AskingGetsReport(g: Setting, s: Session)
    requires Admissible(g) && g.mode == Compound && Invariant(g, s) && BothWait(s)
    ensures var t := Continued(g, s, [Timeout, Deliver(AckRequestMsg(s.snd.cursor.w))]);
            && t == s.(snd := s.snd.(attempts := s.snd.attempts + 1), toRcv := t.toRcv, toSnd := t.toSnd)
            && Rcv.Report(s.rcv) in t.toSnd
  {
    var w := s.snd.cursor.w;
    TimeoutAsks(g, s);
    OneEvent(g, s, Timeout);
    RequestReports(g, Step(g, s, Timeout), w);
    OneMoreEvent(g, s, [Timeout], Deliver(AckRequestMsg(w)));
    assert [Timeout] + [Deliver(AckRequestMsg(w))] == [Timeout, Deliver(AckRequestMsg(w))];
  }

  lemma ReportStartsRepair(g: Setting, s: Session, asked: Session)
    requires Admissible(g) && g.mode == Compound && Invariant(g, s) && BothWait(s) && Typed(asked)
    requires asked == s.(snd := s.snd.(attempts := s.snd.attempts + 1), toRcv := asked.toRcv, toSnd := asked.toSnd)
    requires Rcv.Report(s.rcv) in asked.toSnd
    ensures Rcv.Report(s.rcv) != []
    ensures var t := Step(g, asked, Answer(Rcv.Report(s.rcv)));
            t.rcv == s.rcv && t.snd == Snd.Receive(s.snd, Rcv.Report(s.rcv), g.available).ctx
  {
    ReportTaken(g, s.rcv, s.snd);
    SameAfterAsking(s.snd, Rcv.Report(s.rcv), g.available);
  }

  /** The sender has taken the report up. */
  lemma AskingStartsRepair(g: Setting, s: Session)
    requires Admissible(g) && g.mode == Compound && Invariant(g, s) && BothWait(s)
    ensures Rcv.Report(s.rcv) != []
    ensures var t := Continued(g, s, Asking(s));
            && t.rcv == s.rcv && t.snd == Snd.Receive(s.snd, Rcv.Report(s.rcv), g.available).ctx
            && t.snd.state == Snd.Resending && t.snd.mode == Compound && t.snd.windows != []
            && Sound(Snd.RepairOf(t.snd, g.available))
  {
    AskingGetsReport(g, s);
    var ask := [Timeout, Deliver(AckRequestMsg(s.snd.cursor.w))];
    var asked := Continued(g, s, ask);
    ReportStartsRepair(g, s, asked);
    OneEvent(g, asked, Answer(Rcv.Report(s.rcv)));
    ContinuedTwice(g, s, ask, [Answer(Rcv.Report(s.rcv))]);
    ReportTaken(g, s.rcv, s.snd);
    RepairFramesAreRun(g, s.rcv, s.snd);
  }

  /** How often the sender has asked does not matter once it is answered. */
  lemma SameAfterAsking(x: Snd.Ctx, m: seq<byte>, available: nat)
    requires Snd.Valid(x) && x.state == Snd.WaitAck && m != [] && available > 0
    requires Snd.Receive(x, m, available).ctx.state == Snd.Resending
    ensures Snd.Receive(x.(attempts := x.attempts + 1), m, available).ctx == Snd.Receive(x, m, available).ctx
  {
  }

  lemma TogetherSent(a: seq<seq<byte>>, b: seq<seq<byte>>)
    ensures Elements(a) + Elements(b) == Elements(a + b)
  {
  }

  /** A repair of a compound session under way. */
  predicate UnderRepair(x: Snd.Ctx, available: nat) {
    && Snd.Valid(x) && x.state == Snd.Resending && x.mode == Compound && available > 0
    && Sound(Snd.RepairOf(x, available)) && x.windows != []
  }

  lemma RepairGoesOn(x: Snd.Ctx, available: nat)
    requires UnderRepair(x, available)
    ensures var r, o := Snd.RepairOf(x, available), Snd.ResendNext(x, available);
            o.ctx.state == Snd.Resending ==>
              && UnderRepair(o.ctx, available) && Snd.RepairOf(o.ctx, available) == Resend(r).repair
              && (|o.ctx.windows| < |x.windows|
                  || (o.ctx.windows == x.windows && ZerosLeft(Snd.RepairOf(o.ctx, available)) < ZerosLeft(r)))
  {
    ResendDecreases(Snd.RepairOf(x, available));
  }

  lemma ResendAllUnfolds(x: Snd.Ctx, available: nat)
    requires UnderRepair(x, available)
    ensures var o := Snd.ResendNext(x, available);
            if o.ctx.state != Snd.Resending then Snd.ResendAll(x, available) == o
            else
              && UnderRepair(o.ctx, available)
              && Snd.ResendAll(x, available)
                 == Snd.Reaction(Snd.ResendAll(o.ctx, available).ctx, o.frames + Snd.ResendAll(o.ctx, available).frames)
  {
    RepairGoesOn(x, available);
  }

  /** What RESEND leaves in the channel. */
  function Resent(g: Setting, s: Session, o: Snd.Reaction): Session {
    s.(snd := o.ctx, toRcv := s.toRcv + Elements(o.frames))
  }

  lemma ExecuteResends(g: Setting, s: Session)
    requires Admissible(g) && Typed(s) && s.snd.state == Snd.Resending
    ensures Step(g, s, Execute) == Resent(g, s, Snd.ResendNext(s.snd, g.available))
  {
  }

  lemma ResentTwice(g: Setting, s: Session, a: Snd.Reaction, b: Snd.Reaction)
    ensures Resent(g, Resent(g, s, a), b) == Resent(g, s, Snd.Reaction(b.ctx, a.frames + b.frames))
  {
    TogetherSent(a.frames, b.frames);
  }

  /** Executions of RESEND, one event each, until the sender waits again. */
  lemma {:induction false} ResendRun(g: Setting, s: Session) returns (n: nat)
    requires Admissible(g) && Typed(s) && UnderRepair(s.snd, g.available)
    ensures Continued(g, s, Repeat(Execute, n)) == Resent(g, s, Snd.ResendAll(s.snd, g.available))
    decreases |s.snd.windows|, ZerosLeft(Snd.RepairOf(s.snd, g.available))
  {
    ResendAllUnfolds(s.snd, g.available);
    ExecuteResends(g, s);
    var o := Snd.ResendNext(s.snd, g.available);
    if o.ctx.state != Snd.Resending {
      n := 1;
      OneEvent(g, s, Execute);
      assert Repeat(Execute, 1) == [Execute];
    } else {
      RepairGoesOn(s.snd, g.available);
      var k := ResendRun(g, Resent(g, s, o));
      ExecutesFirst(g, s, k);
      ResentTwice(g, s, o, Snd.ResendAll(o.ctx, g.available));
      n := k + 1;
    }
  }

  ghost predicate Acknowledges(g: Setting, toSnd: set<seq<byte>>) {
    exists w: nat :: w < W(g) && PositiveAckMsg(w) in toSnd
  }

  /** What fragments that stay in their window leave behind: nobody but the receiver has moved, and if
      it has ended, it has acknowledged. */
  ghost predicate OnlyReceived(g: Setting, s: Session, t: Session, frames: seq<seq<byte>>)
    requires Admissible(g) && Typed(s)
  {
    && t.snd == s.snd && t.toRcv == s.toRcv && t.rcv == Received(s.rcv, frames)
    && (t.rcv.state == Rcv.End ==> Acknowledges(g, t.toSnd))
  }

  lemma {:induction false} FragmentsArrive(g: Setting, s: Session, pieces: seq<Piece>)
    requires Admissible(g) && Typed(s) && Short(g, s.rcv) && Repairs(g, pieces) && Within(pieces, N(g))
    requires forall f :: f in Snd.Fragments(PacketTiles(g.packet), pieces) ==> f in s.toRcv
    ensures var frames := Snd.Fragments(PacketTiles(g.packet), pieces);
            OnlyReceived(g, s, Continued(g, s, Deliveries(frames)), frames)
    decreases |pieces|
  {
    if pieces == [] {
      assert Deliveries(Snd.Fragments(PacketTiles(g.packet), pieces)) == [];
    } else {
      var init, p := pieces[..|pieces| - 1], pieces[|pieces| - 1];
      LastFragment(g, pieces);
      var before := Snd.Fragments(PacketTiles(g.packet), init);
      FragmentsArrive(g, s, init);
      EndedOrShort(g, s.rcv, init);
      DeliverOneMore(g, s, before, FrameOf(g, p));
      OneMoreArrives(g, s, Continued(g, s, Deliveries(before)), before, p);
    }
  }

  lemma LastFragment(g: Setting, pieces: seq<Piece>)
    requires Admissible(g) && pieces != [] && Within(pieces, N(g))
    ensures var init, p := pieces[..|pieces| - 1], pieces[|pieces| - 1];
            var before, frames := Snd.Fragments(PacketTiles(g.packet), init), Snd.Fragments(PacketTiles(g.packet), pieces);
            frames == before + [FrameOf(g, p)] && FrameOf(g, p) in frames && forall f :: f in before ==> f in frames
  {
  }

  lemma EndedOrShort(g: Setting, x: Rcv.Ctx, pieces: seq<Piece>)
    requires Admissible(g) && Short(g, x) && Repairs(g, pieces) && Within(pieces, N(g))
    ensures var y := Received(x, Snd.Fragments(PacketTiles(g.packet), pieces)); y.state == Rcv.End || Short(g, y)
  {
    RepairFragments(g, x, pieces);
  }

  lemma DeliverOneMore(g: Setting, s: Session, before: seq<seq<byte>>, m: seq<byte>)
    requires Typed(s) && Admissible(g)
    ensures Continued(g, s, Deliveries(before + [m])) == Step(g, Continued(g, s, Deliveries(before)), Deliver(m))
  {
    OneMoreDelivery(g, s, before + [m]);
    assert (before + [m])[..|before|] == before;
  }

  lemma OneMoreArrives(g: Setting, s: Session, t: Session, before: seq<seq<byte>>, p: Piece)
    requires Admissible(g) && Typed(s) && Typed(t) && OnlyReceived(g, s, t, before) && Cutting(g, p)
    requires t.rcv.state == Rcv.End || Short(g, t.rcv)
    requires FrameOf(g, p) in s.toRcv
    ensures OnlyReceived(g, s, Step(g, t, Deliver(FrameOf(g, p))), before + [FrameOf(g, p)])
  {
    FragmentIsFrame(g, p);
    ReceivedOneMore(s.rcv, before, FrameOf(g, p));
    OneArrives(g, t, FrameOf(g, p), p);
  }

  lemma ReceivedOneMore(x: Rcv.Ctx, before: seq<seq<byte>>, m: seq<byte>)
    requires Rcv.Valid(x) && m != []
    ensures Received(x, before + [m]) == Rcv.Receive(Received(x, before), m).ctx
  {
    assert (before + [m])[..|before + [m]| - 1] == before;
  }

  /** A fragment that makes a short receiver end makes it acknowledge. */
  lemma OneArrives(g: Setting, s: Session, m: seq<byte>, p: Piece)
    requires Admissible(g) && Typed(s) && IsFragment(g, m, p) && m in s.toRcv
    requires s.rcv.state == Rcv.End || Short(g, s.rcv)
    requires s.rcv.state == Rcv.End ==> Acknowledges(g, s.toSnd)
    ensures m != []
    ensures var t := Step(g, s, Deliver(m));
            && t.snd == s.snd && t.toRcv == s.toRcv && t.rcv == Rcv.Receive(s.rcv, m).ctx
            && (t.rcv.state == Rcv.End ==> Acknowledges(g, t.toSnd))
  {
    FragmentIsFrame(g, p);
    if s.rcv.state == Rcv.End {
      EndAbsorbs(g, s, m);
    } else {
      TilingExact(g.packet);
      FindsTiles(g, s.rcv, m, p);
      EndingAnswers(g, s.rcv, m);
      var o := Rcv.Receive(s.rcv, m);
      if o.ctx.state == Rcv.End {
        assert o.replies[0] in Elements(o.replies);
      }
    }
  }

  lemma EndingAnswers(g: Setting, x: Rcv.Ctx, m: seq<byte>)
    requires Rcv.Valid(x) && x.state == Rcv.WaitMissing && m != [] && FragmentType(m) == RegularFragment
    requires Rcv.Stored(x, m).lastWindow < W(g) && WOf(m) < W(g)
    ensures var o := Rcv.Receive(x, m);
            o.ctx.state == Rcv.End ==> |o.replies| == 1 && exists w: nat :: w < W(g) && o.replies[0] == PositiveAckMsg(w)
  {
    var w := if x.mode == Compound then Rcv.Stored(x, m).lastWindow else WOf(m);
    assert CompoundAckMsg(w, [], Rcv.Stored(x, m).bitmap) == PositiveAckMsg(w);
  }

  /** One loss-free repair round, as an extension of any run of a compound session in which both wait:
      the sender asks, the report arrives, RESEND runs until the sender waits again. If then every
      fragment it emitted arrives, in any order and any number of times, the receiver's check succeeds
      and it ends; and when its answer arrives, so does the sender. */
  lemma RepairRound(g: Setting, events: seq<Event>, arrivals: seq<seq<byte>>) returns (n: nat, w: nat)
    requires Admissible(g) && g.mode == Compound && BothWait(After(g, events))
    ensures var s := After(g, events);
            && Rcv.Report(s.rcv) != []
            && var frames := RepairFrames(g, s.snd, Rcv.Report(s.rcv));
               var sent := events + Asking(s) + Repeat(Execute, n);
               && After(g, sent).snd.state == Snd.WaitAck && After(g, sent).rcv == s.rcv
               && (forall f :: f in frames ==> f in After(g, sent).toRcv)
               && ((forall f :: f in arrivals <==> f in frames) ==>
                     && Confirmed(After(g, sent + Deliveries(arrivals)).rcv)
                     && After(g, sent + Deliveries(arrivals) + [Answer(PositiveAckMsg(w))]).snd.state == Snd.End)
  {
    RunKeepsInvariant(g, events);
    var s := After(g, events);
    n := RepairSent(g, events);
    var frames := RepairFrames(g, s.snd, Rcv.Report(s.rcv));
    var sent := events + Asking(s) + Repeat(Execute, n);
    w := 0;
    if forall f :: f in arrivals <==> f in frames {
      w := RoundFinishes(g, sent, s.snd, arrivals);
    }
  }

  lemma RepairSent(g: Setting, events: seq<Event>) returns (n: nat)
    requires Admissible(g) && g.mode == Compound && BothWait(After(g, events))
    ensures var s := After(g, events);
            && Rcv.Report(s.rcv) != [] && Short(g, s.rcv) && SenderOk(g, s.snd)
            && var t := After(g, events + Asking(s) + Repeat(Execute, n));
               && t.snd.state == Snd.WaitAck && t.rcv == s.rcv
               && forall f :: f in RepairFrames(g, s.snd, Rcv.Report(s.rcv)) ==> f in t.toRcv
  {
    RunKeepsInvariant(g, events);
    var s := After(g, events);
    AskingStartsRepair(g, s);
    var t := Continued(g, s, Asking(s));
    n := ResendRun(g, t);
    Snd.ResendAllIsRun(t.snd, g.available);
    ContinuedTwice(g, Initial(g), events, Asking(s));
    ContinuedTwice(g, Initial(g), events + Asking(s), Repeat(Execute, n));
  }

  /** Everything RESEND emitted arrives: the receiver ends and has acknowledged. */
  lemma RoundArrives(g: Setting, t: Session, y: Snd.Ctx, arrivals: seq<seq<byte>>)
    requires Admissible(g) && g.mode == Compound && Typed(t) && SenderOk(g, y) && y.state == Snd.WaitAck && Short(g, t.rcv)
    requires Rcv.Report(t.rcv) != []
    requires forall f :: f in RepairFrames(g, y, Rcv.Report(t.rcv)) ==> f in t.toRcv
    requires forall f :: f in arrivals <==> f in RepairFrames(g, y, Rcv.Report(t.rcv))
    ensures var u := Continued(g, t, Deliveries(arrivals));
            u.rcv.state == Rcv.End && u.snd == t.snd && Acknowledges(g, u.toSnd)
  {
    RoundEnds(g, t.rcv, y, arrivals);
    RepairFramesAreRun(g, t.rcv, y);
    var order := ArrivalsAsPieces(g, Run(Snd.RepairOf(Snd.Receive(y, Rcv.Report(t.rcv), g.available).ctx, g.available)).0, arrivals);
    FragmentsArrive(g, t, order);
  }

  lemma RoundFinishes(g: Setting, sent: seq<Event>, y: Snd.Ctx, arrivals: seq<seq<byte>>) returns (w: nat)
    requires Admissible(g) && g.mode == Compound && SenderOk(g, y) && y.state == Snd.WaitAck
    requires var t := After(g, sent);
             && Short(g, t.rcv) && t.snd.state == Snd.WaitAck && Rcv.Report(t.rcv) != []
             && (forall f :: f in RepairFrames(g, y, Rcv.Report(t.rcv)) ==> f in t.toRcv)
             && forall f :: f in arrivals <==> f in RepairFrames(g, y, Rcv.Report(t.rcv))
    ensures Confirmed(After(g, sent + Deliveries(arrivals)).rcv)
    ensures After(g, sent + Deliveries(arrivals) + [Answer(PositiveAckMsg(w))]).snd.state == Snd.End
  {
    var all := sent + Deliveries(arrivals);
    RoundArrives(g, After(g, sent), y, arrivals);
    ContinuedTwice(g, Initial(g), sent, Deliveries(arrivals));
    RunKeepsInvariant(g, all);
    var u := After(g, all);
    w :| w < W(g) && PositiveAckMsg(w) in u.toSnd;
    PositiveAnswerEnds(g, u, w);
    OneMoreEvent(g, Initial(g), all, Answer(PositiveAckMsg(w)));
  }

  lemma PositiveAnswerEnds(g: Setting, s: Session, w: nat)
    requires Admissible(g) && Invariant(g, s) && s.snd.state == Snd.WaitAck && w < W(g) && PositiveAckMsg(w) in s.toSnd
    ensures Confirmed(s.rcv) && Step(g, s, Answer(PositiveAckMsg(w))).snd.state == Snd.End
  {
    PositiveReply(g, w);
    PositiveEnds(g, s.snd, w);
  }

  lemma PositiveEnds(g: Setting, x: Snd.Ctx, w: nat)
    requires Admissible(g) && SenderOk(g, x) && x.state == Snd.WaitAck && w < W(g)
    ensures PositiveAckMsg(w) != [] && Snd.Receive(x, PositiveAckMsg(w), g.available).ctx.state == Snd.End
  {
    TilingExact(g.packet);
    ReadPositiveAck(w, x.mode, x.rows);
  }

  // ---- Repairs of a session-mode session ---------------------------------------------------------

  /** Regular tiles of window `a`. */
  function TilesIn(g: Setting, a: nat): int
    requires Admissible(g)
  {
    LastPtr(a, W(g), N(g))
  }

  /** The sender counts every regular tile of the window as delivered. */
  predicate AllResent(g: Setting, x: Snd.Ctx, a: nat)
    requires Admissible(g) && a < |x.rows|
  {
    AllMarked(x.rows[a], TilesIn(g, a))
  }

  predicate NoneMarkedIn(row: seq<bit>) {
    forall b :: 0 <= b < WINDOW_SIZE && b < |row| ==> row[b] == 0
  }

  /** A row is untouched or full, except while its window is being resent. */
  predicate Flat(g: Setting, x: Snd.Ctx)
    requires Admissible(g)
  {
    x.state != Snd.Init ==>
      forall a: nat :: a < |x.rows| ==>
        NoneMarkedIn(x.rows[a]) || AllResent(g, x, a) || (x.state == Snd.Resending && x.lastConfirmed == a)
  }

  /** No flag is ever taken back. */
  predicate Grows(x: Snd.Ctx, y: Snd.Ctx) {
    x.state != Snd.Init ==>
      |x.rows| == |y.rows| && y.state != Snd.Init
      && forall a: nat, b: nat :: a < |x.rows| && b < |x.rows[a]| && x.rows[a][b] == 1 ==> b < |y.rows[a]| && y.rows[a][b] == 1
  }

  /** Rows with bits appended. */
  predicate Lengthened(rows: seq<seq<bit>>, after: seq<seq<bit>>) {
    && |after| == |rows|
    && forall a: nat :: a < |rows| ==> |rows[a]| <= |after[a]| && after[a][..|rows[a]|] == rows[a]
  }

  /** In session mode a NACK appends to its row. */
  lemma NackTaken(g: Setting, x: Snd.Ctx, m: seq<byte>)
    requires Admissible(g) && g.mode == EndOfSession && SenderOk(g, x) && x.state == Snd.WaitAck && Reply(g, m) && COf(m) == 0
    ensures var y := Snd.Receive(x, m, g.available).ctx;
            && y == x.(state := Snd.Resending, attempts := 0, lastConfirmed := WOf(m), rows := y.rows)
            && Lengthened(x.rows, y.rows)
  {
    assert Decodable(g, m, x.rows);
    AppendLengthens(x.rows, WOf(m), Bits(m)[3..]);
  }

  lemma AppendLengthens(rows: seq<seq<bit>>, w: nat, bits: seq<bit>)
    requires w < |rows|
    ensures Lengthened(rows, rows[w := rows[w] + bits])
  {
  }

  /** An answer that ends the session fills its row or leaves the bitmaps alone. */
  lemma EndTaken(g: Setting, x: Snd.Ctx, m: seq<byte>)
    requires Admissible(g) && g.mode == EndOfSession && SenderOk(g, x) && x.state == Snd.WaitAck && Reply(g, m) && COf(m) == 1
    ensures var y := Snd.Receive(x, m, g.available).ctx;
            y.state == Snd.End && (y.rows == x.rows || Filled(x.rows, y.rows, WOf(m)))
  {
    assert Decodable(g, m, x.rows);
  }

  /** One row's first 63 flags set. */
  predicate Filled(rows: seq<seq<bit>>, after: seq<seq<bit>>, w: nat) {
    HasRow(rows, w) && after == OverwriteRow(rows, w, Repeat(1, WINDOW_SIZE))
  }

  lemma TakenNackKeeps(g: Setting, x: Snd.Ctx, y: Snd.Ctx)
    requires Admissible(g) && SenderOk(g, x) && x.state == Snd.WaitAck && Flat(g, x)
    requires y.state == Snd.Resending && Lengthened(x.rows, y.rows)
    ensures Flat(g, y) && Grows(x, y)
  {
    forall a: nat, b: nat | a < |x.rows| && b < |x.rows[a]| ensures y.rows[a][b] == x.rows[a][b] {
      assert y.rows[a][..|x.rows[a]|][b] == x.rows[a][b];
    }
  }

  lemma TakenEndKeeps(g: Setting, x: Snd.Ctx, y: Snd.Ctx, w: nat)
    requires Admissible(g) && SenderOk(g, x) && x.state == Snd.WaitAck && Flat(g, x)
    requires y.state == Snd.End && (y.rows == x.rows || Filled(x.rows, y.rows, w))
    ensures Flat(g, y) && Grows(x, y)
  {
    if y.rows != x.rows {
      TilingExact(g.packet);
      assert AllResent(g, y, w);
    }
  }

  /** An execution of RESEND marks flags of its own window, and all of them before it waits. */
  lemma ResendKeepsFlags(g: Setting, x: Snd.Ctx)
    requires Admissible(g) && g.mode == EndOfSession && SenderOk(g, x) && x.state == Snd.Resending && Flat(g, x)
    ensures var y := Snd.ResendNext(x, g.available).ctx; Flat(g, y) && Grows(x, y)
  {
    RepairSound(g, x);
    var r := Snd.RepairOf(x, g.available);
    AloneDecreases(r);
    MarkedRows(r);
  }

  lemma MarkedRows(r: Repair)
    requires Alone(r)
    ensures var after := Resend(r).repair;
            && |after.rows| == |r.rows|
            && (forall a: nat :: a < |r.rows| && a != r.current ==> after.rows[a] == r.rows[a])
            && |after.rows[r.current]| == |r.rows[r.current]|
            && (forall b: nat :: b < |r.rows[r.current]| && r.rows[r.current][b] == 1 ==> after.rows[r.current][b] == 1)
            && (!Resend(r).Again? ==> AllMarked(after.rows[r.current], LastPtr(r.current, r.nWindows, r.nFullTiles)))
  {
    AloneDecreases(r);
  }

  lemma SameRows(g: Setting, x: Snd.Ctx, y: Snd.Ctx)
    requires Admissible(g) && Flat(g, x) && x.state != Snd.Init && x.state != Snd.Resending && y.state != Snd.Init && y.rows == x.rows
    ensures Flat(g, y) && Grows(x, y)
  {
  }

  lemma SendKeepsRows(g: Setting, x: Snd.Ctx)
    requires Admissible(g) && SenderOk(g, x) && x.state == Snd.Send
    ensures var y := Snd.SendNext(x, g.available).ctx; y.rows == x.rows && y.state != Snd.Init
  {
  }

  lemma SenderStepKeepsFlags(g: Setting, s: Session, e: Event)
    requires Admissible(g) && g.mode == EndOfSession && Invariant(g, s) && Flat(g, s.snd)
    ensures Flat(g, Step(g, s, e).snd) && Grows(s.snd, Step(g, s, e).snd)
  {
    var x := s.snd;
    match e
    case Start => if x.state == Snd.Init { StartsFlat(g, x); }
    case Execute =>
      if x.state == Snd.Send {
        SendKeepsRows(g, x);
        SameRows(g, x, Snd.SendNext(x, g.available).ctx);
      } else if x.state == Snd.Resending {
        ResendKeepsFlags(g, x);
      }
    case Timeout => if x.state == Snd.WaitAck { SameRows(g, x, Snd.Timeout(x).ctx); }
    case Deliver(m) =>
    case Answer(m) => if m in s.toSnd { AnswerStepKeepsFlags(g, x, m); }
  }

  lemma StartsFlat(g: Setting, x: Snd.Ctx)
    requires Admissible(g) && x.state == Snd.Init
    ensures Flat(g, Snd.Start(x, g.packet))
  {
  }

  lemma AnswerStepKeepsFlags(g: Setting, x: Snd.Ctx, m: seq<byte>)
    requires Admissible(g) && g.mode == EndOfSession && SenderOk(g, x) && Flat(g, x) && Reply(g, m)
    ensures var y := Snd.Receive(x, m, g.available).ctx; Flat(g, y) && Grows(x, y)
  {
    if x.state == Snd.Send {
      SendKeepsRows(g, x);
      SameRows(g, x, Snd.SendNext(x, g.available).ctx);
    } else if x.state == Snd.WaitAck {
      OneBit(m);
      if COf(m) == 0 {
        NackTaken(g, x, m);
        TakenNackKeeps(g, x, Snd.Receive(x, m, g.available).ctx);
      } else {
        EndTaken(g, x, m);
        TakenEndKeeps(g, x, Snd.Receive(x, m, g.available).ctx, WOf(m));
      }
    }
  }

  lemma {:induction false} ContinuedKeepsFlags(g: Setting, s: Session, events: seq<Event>)
    requires Admissible(g) && g.mode == EndOfSession && Invariant(g, s) && Flat(g, s.snd)
    ensures var t := Continued(g, s, events);
            Invariant(g, t) && Flat(g, t.snd) && Grows(s.snd, t.snd)
  {
    if events == [] {
    } else {
      var init, e := events[..|events| - 1], events[|events| - 1];
      ContinuedKeepsFlags(g, s, init);
      var t := Continued(g, s, init);
      SenderStepKeepsFlags(g, t, e);
      StepKeepsInvariant(g, t, e);
      GrowsOn(s.snd, t.snd, Step(g, t, e).snd);
    }
  }

  lemma GrowsOn(x: Snd.Ctx, y: Snd.Ctx, z: Snd.Ctx)
    requires Grows(x, y) && Grows(y, z)
    ensures Grows(x, z)
  {
  }

  lemma RunIsFlat(g: Setting, events: seq<Event>)
    requires Admissible(g) && g.mode == EndOfSession
    ensures var t := After(g, events); Invariant(g, t) && Flat(g, t.snd)
  {
    InitialInvariant(g);
    ContinuedKeepsFlags(g, Initial(g), events);
  }

  /** Once a window has been resent, it stays so in every continuation of the run. */
  lemma ResentForGood(g: Setting, events: seq<Event>, more: seq<Event>, a: nat)
    requires Admissible(g) && g.mode == EndOfSession && After(g, events).snd.state != Snd.Init && a < W(g)
    ensures var x, y := After(g, events).snd, After(g, events + more).snd;
            && a < |x.rows| && a < |y.rows|
            && (AllResent(g, x, a) ==> AllResent(g, y, a))
  {
    RunIsFlat(g, events);
    var s := After(g, events);
    ContinuedKeepsFlags(g, s, more);
    ContinuedTwice(g, Initial(g), events, more);
    TilingExact(g.packet);
  }

  /** What a NACK makes of a waiting sender. */
  lemma NackRepairs(g: Setting, x: Snd.Ctx, m: seq<byte>)
    requires Admissible(g) && g.mode == EndOfSession && SenderOk(g, x) && Flat(g, x) && x.state == Snd.WaitAck
    requires Reply(g, m) && COf(m) == 0
    ensures var y := Snd.Receive(x, m, g.available).ctx;
            && WOf(m) < W(g) == |x.rows| && Snd.Valid(y) && y.state == Snd.Resending && y.mode == EndOfSession
            && y.lastConfirmed == WOf(m) && Alone(Snd.RepairOf(y, g.available))
            && (forall t: nat ::
                  WantedAlone(Snd.RepairOf(y, g.available), t)
                  <==> !AllResent(g, x, WOf(m)) && InWindow(Snd.RepairOf(y, g.available), t))
  {
    NackTaken(g, x, m);
    var y := Snd.Receive(x, m, g.available).ctx;
    TakenNackKeeps(g, x, y);
    SenderReceives(g, x, m);
    RepairSound(g, y);
    NackedRow(g, x, y, WOf(m));
  }

  /** What a NACK makes RESEND emit in session mode, in every run: every regular tile of its window
      once if the window has not been resent, nothing otherwise, whatever the NACK's bitmap says; and
      then the window has been resent. */
  lemma SessionRepairExactly(g: Setting, events: seq<Event>, m: seq<byte>)
    requires Admissible(g) && g.mode == EndOfSession
    requires After(g, events).snd.state == Snd.WaitAck && m in After(g, events).toSnd
    ensures m != []
    ensures var x := After(g, events).snd;
            COf(m) == 0 ==>
              && var y := Snd.Receive(x, m, g.available).ctx;
                 && WOf(m) < |x.rows| && y.state == Snd.Resending && Alone(Snd.RepairOf(y, g.available))
                 && var pieces := RunAlone(Snd.RepairOf(y, g.available)).0;
                    && Within(pieces, N(g))
                    && Snd.ResendAlone(y, g.available).frames == Snd.Fragments(PacketTiles(g.packet), pieces)
                    && (forall t: nat :: TimesSent(pieces, t) == if !AllResent(g, x, WOf(m)) && InWindow(Snd.RepairOf(y, g.available), t) then 1 else 0)
                    && Snd.ResendAlone(y, g.available).ctx.state == Snd.WaitAck
                    && |Snd.ResendAlone(y, g.available).ctx.rows| == |x.rows|
                    && AllResent(g, Snd.ResendAlone(y, g.available).ctx, WOf(m))
  {
    RunIsFlat(g, events);
    var x := After(g, events).snd;
    if COf(m) == 0 {
      NackRepairs(g, x, m);
      SenderReceives(g, x, m);
      var y := Snd.Receive(x, m, g.available).ctx;
      Snd.ResendAloneIsRun(y, g.available);
      RunAloneExact(Snd.RepairOf(y, g.available));
    }
  }

  /** The row a NACK names is untouched or has been resent; its regular flags are as before the NACK. */
  lemma NackedRow(g: Setting, x: Snd.Ctx, y: Snd.Ctx, w: nat)
    requires Admissible(g) && SenderOk(g, x) && SenderOk(g, y) && x.state == Snd.WaitAck && Flat(g, x) && w < W(g)
    requires y.state == Snd.Resending && y.mode == EndOfSession && y.lastConfirmed == w
    requires Lengthened(x.rows, y.rows)
    requires Alone(Snd.RepairOf(y, g.available))
    ensures var r := Snd.RepairOf(y, g.available);
            forall t: nat :: WantedAlone(r, t) <==> !AllResent(g, x, w) && InWindow(r, t)
  {
    var r := Snd.RepairOf(y, g.available);
    forall t: nat ensures WantedAlone(r, t) <==> !AllResent(g, x, w) && InWindow(r, t) {
      var b := t % WINDOW_SIZE;
      if InWindow(r, t) {
        assert y.rows[w][..|x.rows[w]|][b] == x.rows[w][b];
      }
    }
  }

  // ---- Before the first NACK ----------------------------------------------------------------------

  /** No answer about window `a` has been taken. */
  predicate NotAnswered(events: seq<Event>, a: nat) {
    forall e :: e in events && e.Answer? && e.m != [] ==> WOf(e.m) != a
  }

  predicate Untouched(x: Snd.Ctx, a: nat) {
    x.state != Snd.Init ==> a < |x.rows| && NoneMarkedIn(x.rows[a]) && !(x.state == Snd.Resending && x.lastConfirmed == a)
  }

  lemma {:induction false} UntouchedUntilAnswered(g: Setting, events: seq<Event>, a: nat)
    requires Admissible(g) && g.mode == EndOfSession && a < W(g) && NotAnswered(events, a)
    ensures Untouched(After(g, events).snd, a)
  {
    if events == [] {
    } else {
      var init, e := events[..|events| - 1], events[|events| - 1];
      UntouchedUntilAnswered(g, init, a);
      RunIsFlat(g, init);
      UntouchedStep(g, After(g, init), e, a);
    }
  }

  lemma UntouchedStep(g: Setting, s: Session, e: Event, a: nat)
    requires Admissible(g) && g.mode == EndOfSession && a < W(g) && Invariant(g, s) && Untouched(s.snd, a)
    requires e.Answer? && e.m != [] ==> WOf(e.m) != a
    ensures Untouched(Step(g, s, e).snd, a)
  {
    var x := s.snd;
    match e
    case Start =>
    case Execute =>
      if x.state == Snd.Send {
        SendKeepsRows(g, x);
      } else if x.state == Snd.Resending {
        UntouchedByResend(g, x, a);
      }
    case Timeout =>
    case Deliver(m) =>
    case Answer(m) => if m in s.toSnd { UntouchedByAnswer(g, x, m, a); }
  }

  lemma UntouchedByResend(g: Setting, x: Snd.Ctx, a: nat)
    requires Admissible(g) && g.mode == EndOfSession && SenderOk(g, x) && x.state == Snd.Resending && Untouched(x, a)
    ensures Untouched(Snd.ResendNext(x, g.available).ctx, a)
  {
    RepairSound(g, x);
    MarkedRows(Snd.RepairOf(x, g.available));
  }

  lemma UntouchedByAnswer(g: Setting, x: Snd.Ctx, m: seq<byte>, a: nat)
    requires Admissible(g) && g.mode == EndOfSession && a < W(g) && SenderOk(g, x) && Untouched(x, a) && Reply(g, m) && WOf(m) != a
    ensures Untouched(Snd.Receive(x, m, g.available).ctx, a)
  {
    if x.state == Snd.Send {
      SendKeepsRows(g, x);
    } else if x.state == Snd.WaitAck {
      OneBit(m);
      if COf(m) == 0 {
        NackTaken(g, x, m);
        UntouchedWhenLengthened(x, Snd.Receive(x, m, g.available).ctx, a);
      } else {
        EndTaken(g, x, m);
      }
    }
  }

  lemma UntouchedWhenLengthened(x: Snd.Ctx, y: Snd.Ctx, a: nat)
    requires x.state != Snd.Init && Untouched(x, a) && |x.rows[a]| >= WINDOW_SIZE && Lengthened(x.rows, y.rows) && y.lastConfirmed != a
    ensures Untouched(y, a)
  {
    forall b | 0 <= b < WINDOW_SIZE ensures y.rows[a][b] == 0 {
      assert y.rows[a][..|x.rows[a]|][b] == x.rows[a][b];
    }
  }

  /** The first NACK about a window with regular tiles finds it not resent, so it resends them all. */
  lemma FirstNackFindsNothingResent(g: Setting, events: seq<Event>, a: nat)
    requires Admissible(g) && g.mode == EndOfSession && a < W(g) && NotAnswered(events, a)
    requires After(g, events).snd.state == Snd.WaitAck && TilesIn(g, a) > 0
    ensures a < |After(g, events).snd.rows| && !AllResent(g, After(g, events).snd, a)
  {
    UntouchedUntilAnswered(g, events, a);
    RunKeepsInvariant(g, events);
    assert After(g, events).snd.rows[a][0] == 0;
  }
}
