/** Runs of an ARQ-FEC session: when the receiver has counted enough tiles, and what one loss-free
    repair round achieves. */
module ArqFecRepairs {
  import opened Bytes
  import opened Message
  import opened Tiling
  import opened Numbering
  import opened FecMatrix
  import opened Retransmission
  import opened WindowBitmaps
  import opened ArqFecSession
  import Rcs
  import Snd = ArqFecSender
  import Rcv = ArqFecReceiver

  // ---- Counting tiles over a run ----------------------------------------------------------------

  predicate IsRegular(m: seq<byte>) { |m| >= 2 && FragmentType(m) == RegularFragment }

  /** The event hands a regular fragment to the receiver. */
  predicate Brings(s: Session, e: Event) {
    e.Deliver? && e.m in s.toRcv && IsRegular(e.m)
  }

  /** The distinct tiles of all regular fragments that reached the receiver in a run. */
  function Arrived(g: Setting, events: seq<Event>): set<nat>
    requires Snd.Encodable(g.packet, g.code, g.overhead) && g.available > 0
  {
    if events == [] then {}
    else
      var init, e := events[..|events| - 1], events[|events| - 1];
      Arrived(g, init) + if Brings(After(g, init), e) then TilesOf(e.m) else {}
  }

  /** How many regular fragments reached the receiver. */
  function Arrivals(g: Setting, events: seq<Event>): nat
    requires Snd.Encodable(g.packet, g.code, g.overhead) && g.available > 0
  {
    if events == [] then 0
    else
      var init, e := events[..|events| - 1], events[|events| - 1];
      Arrivals(g, init) + if Brings(After(g, init), e) then 1 else 0
  }

  /** What the receiver's marks have to do with what arrived. */
  predicate Counted(g: Setting, x: Rcv.Ctx, arrived: set<nat>, arrivals: nat)
    requires Rcv.Receiving(x.state) ==> Shaped(x.m, N(g))
  {
    && (x.state == Rcv.Init ==> arrived == {} && arrivals == 0)
    && (x.state == Rcv.RcvWindow ==> Got(g, x) == arrived && arrivals >= 1 && (arrivals >= 2 ==> |arrived| < K(g)))
    && (x.state == Rcv.WaitMissing ==> Got(g, x) == arrived && |arrived| < K(g))
    && (x.state == Rcv.WaitAllOne ==> |arrived| >= K(g) && arrivals >= 2)
  }

  lemma Larger(a: set<nat>, b: set<nat>)
    requires a <= b
    ensures |a| <= |b|
  {
    assert b == a + (b - a);
  }

  lemma FragmentCounted(g: Setting, x: Rcv.Ctx, m: seq<byte>, arrived: set<nat>, arrivals: nat)
    requires Admissible(g) && Shaped(Sent(g), N(g)) && ReceiverOk(g, x) && Frame(g, m) && IsRegular(m)
    requires Counted(g, x, arrived, arrivals)
    ensures var y := Rcv.Receive(x, m).ctx;
            ReceiverOk(g, y) && Counted(g, y, arrived + TilesOf(m), arrivals + 1)
  {
    var p :| IsFragment(g, m, p);
    ReceivesFragment(g, x, m, p);
    Larger(arrived, arrived + TilesOf(m));
    assert {} + TilesOf(m) == TilesOf(m);
  }

  lemma OtherCounted(g: Setting, x: Rcv.Ctx, m: seq<byte>, arrived: set<nat>, arrivals: nat)
    requires Admissible(g) && Shaped(Sent(g), N(g)) && ReceiverOk(g, x) && Frame(g, m) && !IsRegular(m)
    requires x.state == Rcv.RcvWindow && FragmentType(m) == AllOneFragment ==> WOf(m) == W(g) - 1
    requires Counted(g, x, arrived, arrivals)
    ensures var y := Rcv.Receive(x, m).ctx;
            ReceiverOk(g, y) && Counted(g, y, arrived, arrivals)
  {
    if FragmentType(m) == AllOneFragment {
      ReceivesAllOne(g, x, m);
    } else if FragmentType(m) == AckRequest {
      ReceivesAckRequest(g, x, m);
    }
  }

  lemma StepCounted(g: Setting, s: Session, e: Event, arrived: set<nat>, arrivals: nat)
    requires Admissible(g) && Shaped(Sent(g), N(g)) && Invariant(g, s) && Counted(g, s.rcv, arrived, arrivals)
    ensures var t, brings := Step(g, s, e), Brings(s, e);
            && ReceiverOk(g, t.rcv)
            && Counted(g, t.rcv, arrived + (if brings then TilesOf(e.m) else {}), arrivals + if brings then 1 else 0)
  {
    assert arrived + {} == arrived;
    if e.Deliver? && e.m in s.toRcv {
      var m := e.m;
      assert Frame(g, m);
      if IsRegular(m) {
        FragmentCounted(g, s.rcv, m, arrived, arrivals);
      } else {
        assert IsAllOne(m) && AskedFor(g, m) ==> Welcome(g, s);
        OtherCounted(g, s.rcv, m, arrived, arrivals);
      }
    } else {
      assert Step(g, s, e).rcv == s.rcv;
    }
  }

  lemma {:induction false} RunCounted(g: Setting, events: seq<Event>)
    requires Admissible(g) && AllTolerable(g, events)
    ensures Snd.Encodable(g.packet, g.code, g.overhead) && Shaped(Sent(g), N(g))
    ensures var x := After(g, events).rcv;
            ReceiverOk(g, x) && Counted(g, x, Arrived(g, events), Arrivals(g, events))
  {
    AdmissibleEncodable(g);
    if events == [] {
      InitialInvariant(g);
    } else {
      var init := events[..|events| - 1];
      RunCounted(g, init);
      RunKeepsInvariant(g, init);
      StepCounted(g, After(g, init), events[|events| - 1], Arrived(g, init), Arrivals(g, init));
    }
  }

  /** In every run, a receiver that has begun and not ended waits for the All-1 exactly when k distinct
      tiles have arrived, in more than one fragment: INIT, which takes the first, does not count. */
  lemma WaitsForAllOneExactly(g: Setting, events: seq<Event>)
    requires Admissible(g) && AllTolerable(g, events)
    ensures Snd.Encodable(g.packet, g.code, g.overhead) && Shaped(Sent(g), N(g))
    ensures var x := After(g, events).rcv;
            && (Rcv.Receiving(x.state) ==>
                  (x.state == Rcv.WaitAllOne <==> |Arrived(g, events)| >= K(g) && Arrivals(g, events) >= 2))
            && (x.state == Rcv.WaitMissing ==> |Arrived(g, events)| < K(g))
            && (x.state == Rcv.RcvWindow || x.state == Rcv.WaitMissing ==>
                  Shaped(x.m, N(g)) && Got(g, x) == Arrived(g, events) && FlagsAre(x.bitmap, Flagged(g, x)))
  {
    RunCounted(g, events);
  }

  // ---- The All-1 arrives ------------------------------------------------------------------------

  /** An All-1 that finds k tiles makes the receiver deliver, and its answer ends the waiting sender. */
  lemma AllOneFinishes(g: Setting, s: Session, m: seq<byte>)
    requires Admissible(g) && Shaped(Sent(g), N(g)) && Invariant(g, s) && m in s.toRcv && IsAllOne(m)
    requires s.snd.state == Snd.WaitAck && (s.rcv.state == Rcv.RcvWindow || s.rcv.state == Rcv.WaitAllOne)
    requires |Got(g, s.rcv)| >= K(g)
    ensures var t := Step(g, s, Deliver(m));
            && t.rcv.state == Rcv.End && t.delivered == [g.packet]
            && Step(g, t, Answer(PositiveAckMsg(3))).snd.state == Snd.End
            && Step(g, t, Answer(PositiveAckMsg(3))).delivered == [g.packet]
  {
    assert AskedFor(g, m) ==> Welcome(g, s);
    ReceivesAllOne(g, s.rcv, m);
    var o := Rcv.Receive(s.rcv, m);
    var t := s.(rcv := o.ctx, toRcv := s.toRcv - multiset{m}, toSnd := s.toSnd + multiset(o.replies),
                delivered := s.delivered + o.delivered);
    assert Step(g, s, Deliver(m)) == t;
    assert s.delivered + [g.packet] == [g.packet];
    assert PositiveAckMsg(3) in multiset(o.replies);
    EndsOnAcknowledgement(g, t);
  }

  /** The All-1 a sender in SEND has been asked for. */
  function EarlyAllOne(g: Setting, s: Session): seq<byte> {
    AllOneMsg(s.snd.cursor.w, Rcs.Crc32(g.packet), Residue(g.packet))
  }

  lemma AskedAllOne(g: Setting, s: Session)
    requires Admissible(g) && Shaped(Sent(g), N(g)) && Invariant(g, s)
    requires s.snd.state == Snd.Send && PositiveAckMsg(1) in s.toSnd
    ensures var t := Step(g, s, Answer(PositiveAckMsg(1)));
            t.snd.state == Snd.WaitAck && t.rcv == s.rcv && EarlyAllOne(g, s) in t.toRcv && IsAllOne(EarlyAllOne(g, s))
  {
    SenderReceives(g, s.snd, PositiveAckMsg(1));
    ReadAllOne(s.snd.cursor.w, Rcs.Crc32(g.packet), Residue(g.packet));
    assert EarlyAllOne(g, s) in multiset([EarlyAllOne(g, s)]);
  }

  /** Early end of a transmission, as an extension of any run in which the receiver waits for the All-1
      and its ACK(1, 1) is under way while the sender is still in SEND: the sender stops sending and
      answers with the All-1, the receiver delivers the packet, and its answer ends the sender. */
  lemma EarlyEnd(g: Setting, events: seq<Event>)
    requires Admissible(g) && AllTolerable(g, events) && Snd.Encodable(g.packet, g.code, g.overhead)
    requires var s := After(g, events);
             s.rcv.state == Rcv.WaitAllOne && s.snd.state == Snd.Send && PositiveAckMsg(1) in s.toSnd
    ensures var s := After(g, events);
            var t := After(g, events + [Answer(PositiveAckMsg(1)), Deliver(EarlyAllOne(g, s))] + [Answer(PositiveAckMsg(3))]);
            t.delivered == [g.packet] && t.snd.state == Snd.End
  {
    AdmissibleEncodable(g);
    RunKeepsInvariant(g, events);
    var s := After(g, events);
    var m := EarlyAllOne(g, s);
    AskedAllOne(g, s);
    StepKeepsInvariant(g, s, Answer(PositiveAckMsg(1)));
    var t := Step(g, s, Answer(PositiveAckMsg(1)));
    EnoughTiles(t.rcv.m, N(g), K(g));
    AllOneFinishes(g, t, m);
    var two := [Answer(PositiveAckMsg(1)), Deliver(m)];
    TwoEvents(g, s, Answer(PositiveAckMsg(1)), Deliver(m));
    ContinuedTwice(g, Initial(g), events, two);
    OneMoreEvent(g, Initial(g), events + two, Answer(PositiveAckMsg(3)));
  }

  // ---- One repair round -------------------------------------------------------------------------

  /** Both wait, and the receiver's report is under way. */
  predicate BothWait(s: Session)
    requires Typed(s)
  {
    s.rcv.state == Rcv.WaitMissing && s.snd.state == Snd.WaitAck && Rcv.Report(s.rcv) in s.toSnd
  }

  /** What the sender resends is what the receiver misses, but for a tile in the All-1's position. */
  predicate Resendable(g: Setting, x: Rcv.Ctx, t: nat)
    requires Shaped(x.m, N(g))
  {
    t < N(g) && t !in Got(g, x) && t != AllOnePosition(g)
  }

  lemma FlagOfTile(g: Setting, x: Rcv.Ctx, t: nat)
    requires Admissible(g) && Shaped(Sent(g), N(g)) && ReceiverOk(g, x) && x.state == Rcv.WaitMissing
    requires t < TOTAL_TILES
    ensures x.bitmap[t / WINDOW_SIZE][t % WINDOW_SIZE] == 0 <==> t !in Got(g, x) && t != AllOnePosition(g)
  {
    assert Has(x.bitmap, t) <==> t in Flagged(g, x);
  }

  lemma TilesOfWindow(g: Setting, t: nat)
    requires Admissible(g) && t / WINDOW_SIZE < W(g)
    ensures t % WINDOW_SIZE < LastPtr(t / WINDOW_SIZE, W(g), N(g)) <==> t < N(g)
  {
  }

  /** The repair that a report of two windows or more starts wants exactly the resendable tiles. */
  lemma WantedExactly(g: Setting, x: Rcv.Ctx, y: Snd.Ctx, windows: seq<nat>, t: nat)
    requires Admissible(g) && Shaped(Sent(g), N(g)) && ReceiverOk(g, x) && x.state == Rcv.WaitMissing
    requires windows == ErrorWindows(x.bitmap, x.lastWindow) && Reportable(windows, x.bitmap) && Reportable(windows, y.rows)
    requires |y.tiles| == N(g) && y.nWindows == W(g) && Bitmaps(y.rows, W(g))
    ensures Wanted(Repair(Copied(windows, x.bitmap, y.rows), windows, y.lastConfirmed, W(g), N(g), g.available), t)
            <==> Resendable(g, x, t)
  {
    var a := t / WINDOW_SIZE;
    WindowsReported(g, x, windows, a);
    if a in windows {
      TilesOfWindow(g, t);
      FlagOfTile(g, x, t);
      CopiedFlag(windows, x.bitmap, y.rows, a, t % WINDOW_SIZE);
    } else if t < N(g) {
      LastTileIn(g, t);
      FlagOfTile(g, x, t);
      assert Complete(x.bitmap[a]);
    }
  }

  lemma WindowsReported(g: Setting, x: Rcv.Ctx, windows: seq<nat>, a: nat)
    requires Rcv.Valid(x) && x.lastWindow == W(g) - 1 && windows == ErrorWindows(x.bitmap, x.lastWindow)
    ensures a in windows ==> a < W(g)
    ensures a < W(g) && a !in windows ==> Complete(x.bitmap[a])
  {
    ErrorWindowsExactly(x.bitmap, x.lastWindow);
    assert forall i :: 0 <= i < |windows| ==> windows[i] <= x.lastWindow;
  }

  lemma CopiedFlag(windows: seq<nat>, bitmap: seq<seq<bit>>, rows: seq<seq<bit>>, a: nat, b: nat)
    requires Reportable(windows, bitmap) && Reportable(windows, rows) && a in windows && b < WINDOW_SIZE
    ensures a < |rows| && |Copied(windows, bitmap, rows)[a]| > b && |bitmap[a]| > b
    ensures Copied(windows, bitmap, rows)[a][b] == bitmap[a][b]
  {
    assert bitmap[a][..WINDOW_SIZE][b] == bitmap[a][b];
  }

  lemma LastTileIn(g: Setting, t: nat)
    requires Admissible(g) && t < N(g)
    ensures t / WINDOW_SIZE < W(g)
  {
  }

  /** What RESEND works on once the report has been taken up. */
  function RepairFor(g: Setting, s: Session): Repair
    requires Typed(s) && Rcv.Report(s.rcv) != []
  {
    Snd.RepairOf(Snd.Receive(s.snd, Rcv.Report(s.rcv)).ctx, g.available)
  }

  lemma ReportAnswered(g: Setting, s: Session)
    requires Admissible(g) && Shaped(Sent(g), N(g)) && Invariant(g, s) && BothWait(s)
    requires |ErrorWindows(s.rcv.bitmap, s.rcv.lastWindow)| >= 2
    ensures Rcv.Report(s.rcv) != []
    ensures var y, windows := Snd.Receive(s.snd, Rcv.Report(s.rcv)).ctx, ErrorWindows(s.rcv.bitmap, s.rcv.lastWindow);
            && Reportable(windows, s.rcv.bitmap) && Reportable(windows, s.snd.rows)
            && y == s.snd.(state := Snd.Resending, windows := windows, rows := Copied(windows, s.rcv.bitmap, s.snd.rows))
            && SenderOk(g, y) && Snd.Receive(s.snd, Rcv.Report(s.rcv)).frames == []
  {
    ReportTaken(g, s.rcv, s.snd);
    SenderReceives(g, s.snd, Rcv.Report(s.rcv));
  }

  lemma AnswerStep(g: Setting, s: Session, m: seq<byte>, y: Snd.Ctx)
    requires Typed(s) && g.available > 0 && m in s.toSnd && m != [] && Snd.Receive(s.snd, m) == Snd.Reaction(y, [])
    ensures Step(g, s, Answer(m)) == s.(snd := y, toSnd := s.toSnd - multiset{m})
  {
    assert s.toRcv + multiset([]) == s.toRcv;
  }

  lemma SoundRepair(g: Setting, y: Snd.Ctx)
    requires Admissible(g) && Shaped(Sent(g), N(g)) && SenderOk(g, y) && y.state == Snd.Resending
    ensures RepairsSession(g, Snd.RepairOf(y, g.available))
  {
  }

  /** The report is taken up. */
  lemma RepairBegins(g: Setting, s: Session)
    requires Admissible(g) && Shaped(Sent(g), N(g)) && Invariant(g, s) && BothWait(s)
    requires |ErrorWindows(s.rcv.bitmap, s.rcv.lastWindow)| >= 2
    ensures Rcv.Report(s.rcv) != []
    ensures var y := Snd.Receive(s.snd, Rcv.Report(s.rcv)).ctx;
            && y == s.snd.(state := Snd.Resending, windows := y.windows, rows := y.rows)
            && RepairsSession(g, RepairFor(g, s)) && SenderOk(g, y)
            && (forall t: nat :: Wanted(RepairFor(g, s), t) <==> Resendable(g, s.rcv, t))
            && Step(g, s, Answer(Rcv.Report(s.rcv))) == s.(snd := y, toSnd := s.toSnd - multiset{Rcv.Report(s.rcv)})
  {
    ReportAnswered(g, s);
    var y := Snd.Receive(s.snd, Rcv.Report(s.rcv)).ctx;
    AnswerStep(g, s, Rcv.Report(s.rcv), y);
    SoundRepair(g, y);
    forall t: nat ensures Wanted(RepairFor(g, s), t) <==> Resendable(g, s.rcv, t) {
      WantedExactly(g, s.rcv, s.snd, ErrorWindows(s.rcv.bitmap, s.rcv.lastWindow), t);
    }
  }

  /** A repair under way. */
  predicate UnderRepair(g: Setting, x: Snd.Ctx) {
    Snd.Valid(x) && x.state == Snd.Resending && g.available > 0 && Sound(Snd.RepairOf(x, g.available)) && x.windows != []
  }

  lemma RepairGoesOn(g: Setting, x: Snd.Ctx)
    requires UnderRepair(g, x)
    ensures var r, o := Snd.RepairOf(x, g.available), Snd.ResendNext(x, g.available);
            if o.ctx.state != Snd.Resending then Snd.ResendAll(x, g.available) == o
            else
              && UnderRepair(g, o.ctx)
              && Snd.ResendAll(x, g.available)
                 == Snd.Reaction(Snd.ResendAll(o.ctx, g.available).ctx, o.frames + Snd.ResendAll(o.ctx, g.available).frames)
              && (|o.ctx.windows| < |x.windows|
                  || (o.ctx.windows == x.windows && ZerosLeft(Snd.RepairOf(o.ctx, g.available)) < ZerosLeft(r)))
  {
    ResendDecreases(Snd.RepairOf(x, g.available));
  }

  /** Executions of RESEND, one event each, until the sender waits again. */
  lemma {:induction false} ResendEvents(g: Setting, s: Session) returns (n: nat)
    requires Typed(s) && UnderRepair(g, s.snd)
    ensures var o := Snd.ResendAll(s.snd, g.available);
            Continued(g, s, Repeat(Execute, n)) == s.(snd := o.ctx, toRcv := s.toRcv + multiset(o.frames))
    decreases |s.snd.windows|, ZerosLeft(Snd.RepairOf(s.snd, g.available))
  {
    var o := Snd.ResendNext(s.snd, g.available);
    RepairGoesOn(g, s.snd);
    assert Step(g, s, Execute) == s.(snd := o.ctx, toRcv := s.toRcv + multiset(o.frames));
    if o.ctx.state != Snd.Resending {
      n := 1;
      OneEvent(g, s, Execute);
      assert Repeat(Execute, 1) == [Execute];
    } else {
      var k := ResendEvents(g, Step(g, s, Execute));
      ExecutesFirst(g, s, k);
      Pooled(s.toRcv, o.frames, Snd.ResendAll(o.ctx, g.available).frames);
      n := k + 1;
    }
  }

  // ---- The fragments arrive ---------------------------------------------------------------------

  function Deliveries(frames: seq<seq<byte>>): (events: seq<Event>)
    ensures |events| == |frames|
  {
    seq(|frames|, i requires 0 <= i < |frames| => Deliver(frames[i]))
  }

  /** The tiles the frames carry. */
  function TilesOfAll(frames: seq<seq<byte>>): set<nat>
    requires forall f :: f in frames ==> |f| >= 2
  {
    if frames == [] then {} else TilesOfAll(frames[..|frames| - 1]) + TilesOf(frames[|frames| - 1])
  }

  ghost predicate RegularFrames(g: Setting, frames: seq<seq<byte>>)
    requires Shaped(Sent(g), N(g)) && K(g) < 256
  {
    forall f :: f in frames ==> Frame(g, f) && IsRegular(f)
  }

  /** What regular fragments leave behind at a receiver in the repair phase: it has ended with the packet
      delivered as soon as it had k tiles, and is waiting with all of theirs otherwise. */
  ghost predicate Repaired(g: Setting, s: Session, t: Session, now: set<nat>)
    requires Typed(s) && Typed(t) && Shaped(Sent(g), N(g))
  {
    && t.snd == s.snd && ReceiverOk(g, t.rcv)
    && if |now| >= K(g) then t.rcv.state == Rcv.End && t.delivered == s.delivered + [g.packet] && PositiveAckMsg(3) in t.toSnd
       else t.rcv.state == Rcv.WaitMissing && Got(g, t.rcv) == now && t.delivered == s.delivered
  }

  lemma RepairStep(g: Setting, s: Session, t: Session, now: set<nat>, f: seq<byte>)
    requires Admissible(g) && Shaped(Sent(g), N(g)) && Typed(s) && Typed(t) && Repaired(g, s, t, now)
    requires Frame(g, f) && IsRegular(f) && f in t.toRcv
    ensures var u := Step(g, t, Deliver(f));
            u.toRcv == t.toRcv - multiset{f} && Repaired(g, s, u, now + TilesOf(f))
  {
    var p :| IsFragment(g, f, p);
    ReceivesFragment(g, t.rcv, f, p);
    Larger(now, now + TilesOf(f));
    var o := Rcv.Receive(t.rcv, f);
    assert Step(g, t, Deliver(f))
        == t.(rcv := o.ctx, toRcv := t.toRcv - multiset{f}, toSnd := t.toSnd + multiset(o.replies), delivered := t.delivered + o.delivered);
    if o.replies == [PositiveAckMsg(3)] {
      assert PositiveAckMsg(3) in multiset(o.replies);
    }
  }

  lemma LastDelivery(g: Setting, s: Session, frames: seq<seq<byte>>)
    requires Typed(s) && g.available > 0 && frames != []
    ensures var init, f := frames[..|frames| - 1], frames[|frames| - 1];
            Continued(g, s, Deliveries(frames)) == Step(g, Continued(g, s, Deliveries(init)), Deliver(f))
  {
    var init, f := frames[..|frames| - 1], frames[|frames| - 1];
    assert Deliveries(frames) == Deliveries(init) + [Deliver(f)];
    OneMoreEvent(g, s, Deliveries(init), Deliver(f));
  }

  lemma LastOfMultiset(frames: seq<seq<byte>>, pool: multiset<seq<byte>>)
    requires frames != [] && multiset(frames) <= pool
    ensures var init, f := frames[..|frames| - 1], frames[|frames| - 1];
            && multiset(init) <= pool && f in pool - multiset(init)
            && pool - multiset(init) - multiset{f} == pool - multiset(frames)
  {
    var init, f := frames[..|frames| - 1], frames[|frames| - 1];
    assert frames == init + [f];
    assert multiset(frames) == multiset(init) + multiset{f};
  }

  lemma NothingArrives(g: Setting, s: Session)
    requires Admissible(g) && Shaped(Sent(g), N(g)) && Typed(s) && ReceiverOk(g, s.rcv) && s.rcv.state == Rcv.WaitMissing
    ensures Repaired(g, s, s, Got(g, s.rcv) + TilesOfAll([]))
  {
    EnoughTiles(s.rcv.m, N(g), K(g));
    assert Got(g, s.rcv) + {} == Got(g, s.rcv);
  }

  lemma NextArrives(g: Setting, s: Session, frames: seq<seq<byte>>, before: Session)
    requires Admissible(g) && Shaped(Sent(g), N(g)) && Typed(s) && Typed(before)
    requires Rcv.Receiving(s.rcv.state) && Shaped(s.rcv.m, N(g))
    requires frames != [] && RegularFrames(g, frames) && multiset(frames) <= s.toRcv
    requires forall f :: f in frames[..|frames| - 1] ==> |f| >= 2
    requires before.toRcv == s.toRcv - multiset(frames[..|frames| - 1])
    requires Repaired(g, s, before, Got(g, s.rcv) + TilesOfAll(frames[..|frames| - 1]))
    ensures var t := Step(g, before, Deliver(frames[|frames| - 1]));
            t.toRcv == s.toRcv - multiset(frames) && Repaired(g, s, t, Got(g, s.rcv) + TilesOfAll(frames))
  {
    var init, f := frames[..|frames| - 1], frames[|frames| - 1];
    assert f in frames;
    LastOfMultiset(frames, s.toRcv);
    var now := Got(g, s.rcv) + TilesOfAll(init);
    RepairStep(g, s, before, now, f);
    assert now + TilesOf(f) == Got(g, s.rcv) + TilesOfAll(frames);
  }

  lemma {:induction false} FragmentsArrive(g: Setting, s: Session, frames: seq<seq<byte>>)
    requires Admissible(g) && Shaped(Sent(g), N(g)) && Typed(s) && ReceiverOk(g, s.rcv) && s.rcv.state == Rcv.WaitMissing
    requires RegularFrames(g, frames) && multiset(frames) <= s.toRcv
    ensures var t := Continued(g, s, Deliveries(frames));
            t.toRcv == s.toRcv - multiset(frames) && Repaired(g, s, t, Got(g, s.rcv) + TilesOfAll(frames))
    decreases |frames|
  {
    if frames == [] {
      NothingArrives(g, s);
      assert Deliveries(frames) == [] && multiset(frames) == multiset{};
    } else {
      var init := frames[..|frames| - 1];
      assert forall e :: e in init ==> e in frames;
      LastOfMultiset(frames, s.toRcv);
      FragmentsArrive(g, s, init);
      LastDelivery(g, s, frames);
      NextArrives(g, s, frames, Continued(g, s, Deliveries(init)));
    }
  }

  // ---- The round --------------------------------------------------------------------------------

  /** The fragments RESEND emits once the report has been taken up. */
  function RepairFrames(g: Setting, s: Session): seq<seq<byte>>
    requires Typed(s) && Rcv.Report(s.rcv) != [] && Shaped(Sent(g), N(g)) && K(g) < 256
    requires RepairsSession(g, RepairFor(g, s)) && Within(Run(RepairFor(g, s)).0, N(g))
  {
    Snd.Fragments(K(g), Columns(Sent(g), N(g)), Run(RepairFor(g, s)).0)
  }

  lemma {:induction false} InSomeFrame(frames: seq<seq<byte>>, t: nat)
    requires forall f :: f in frames ==> |f| >= 2
    ensures t in TilesOfAll(frames) <==> exists f :: f in frames && t in TilesOf(f)
    decreases |frames|
  {
    if frames == [] {
    } else {
      var init, f := frames[..|frames| - 1], frames[|frames| - 1];
      assert frames == init + [f];
      InSomeFrame(init, t);
    }
  }

  lemma SameTiles(a: seq<seq<byte>>, b: seq<seq<byte>>)
    requires forall f :: f in a <==> f in b
    requires forall f :: f in a ==> |f| >= 2
    ensures TilesOfAll(a) == TilesOfAll(b)
  {
    forall t: nat ensures t in TilesOfAll(a) <==> t in TilesOfAll(b) {
      InSomeFrame(a, t);
      InSomeFrame(b, t);
    }
  }

  predicate AllCutting(g: Setting, pieces: seq<Piece>) {
    forall i :: 0 <= i < |pieces| ==> Cutting(g, pieces[i])
  }

  lemma FramesOfPieces(g: Setting, pieces: seq<Piece>, frames: seq<seq<byte>>)
    requires Admissible(g) && Shaped(Sent(g), N(g)) && AllCutting(g, pieces) && Within(pieces, N(g))
    requires frames == Snd.Fragments(K(g), Columns(Sent(g), N(g)), pieces)
    ensures RegularFrames(g, frames)
    ensures forall i :: 0 <= i < |pieces| ==> |frames[i]| >= 2 && TilesOf(frames[i]) == TileRange(pieces[i].at.ptr, pieces[i].count)
  {
    forall i | 0 <= i < |pieces|
      ensures Frame(g, frames[i]) && IsRegular(frames[i]) && TilesOf(frames[i]) == TileRange(pieces[i].at.ptr, pieces[i].count)
    {
      FragmentIsFrame(g, pieces[i]);
      TilesOfPiece(g, frames[i], pieces[i]);
    }
  }

  lemma TilesOfPieces(g: Setting, pieces: seq<Piece>, frames: seq<seq<byte>>, t: nat)
    requires Admissible(g) && Shaped(Sent(g), N(g)) && AllCutting(g, pieces) && Within(pieces, N(g))
    requires frames == Snd.Fragments(K(g), Columns(Sent(g), N(g)), pieces)
    ensures RegularFrames(g, frames)
    ensures t in TilesOfAll(frames) <==> TimesSent(pieces, t) > 0
  {
    FramesOfPieces(g, pieces, frames);
    InSomeFrame(frames, t);
    SentBySome(pieces, t);
    SomeFrameSomePiece(pieces, frames, t);
  }

  lemma SomeFrameSomePiece(pieces: seq<Piece>, frames: seq<seq<byte>>, t: nat)
    requires |frames| == |pieces| && forall f :: f in frames ==> |f| >= 2
    requires forall i :: 0 <= i < |pieces| ==> TilesOf(frames[i]) == TileRange(pieces[i].at.ptr, pieces[i].count)
    ensures (exists f :: f in frames && t in TilesOf(f)) <==> exists i :: 0 <= i < |pieces| && Carries(pieces[i], t)
  {
    if i :| 0 <= i < |pieces| && Carries(pieces[i], t) {
      assert frames[i] in frames && t in TilesOf(frames[i]);
    }
    if f :| f in frames && t in TilesOf(f) {
      var i :| 0 <= i < |frames| && frames[i] == f;
      assert Carries(pieces[i], t);
    }
  }

  /** They carry exactly what is resendable. */
  lemma RepairCarries(g: Setting, s: Session)
    requires Admissible(g) && Shaped(Sent(g), N(g)) && Invariant(g, s) && BothWait(s)
    requires |ErrorWindows(s.rcv.bitmap, s.rcv.lastWindow)| >= 2
    ensures Rcv.Report(s.rcv) != [] && RepairsSession(g, RepairFor(g, s)) && Within(Run(RepairFor(g, s)).0, N(g))
    ensures RegularFrames(g, RepairFrames(g, s))
    ensures forall t: nat :: t in TilesOfAll(RepairFrames(g, s)) <==> Resendable(g, s.rcv, t)
  {
    RepairBegins(g, s);
    var r := RepairFor(g, s);
    var pieces := Run(r).0;
    RunExact(r);
    forall i | 0 <= i < |pieces| ensures Cutting(g, pieces[i]) {
      assert WellFormed(pieces[i], r);
    }
    FramesOfPieces(g, pieces, RepairFrames(g, s));
    forall t: nat ensures t in TilesOfAll(RepairFrames(g, s)) <==> Resendable(g, s.rcv, t) {
      TilesOfPieces(g, pieces, RepairFrames(g, s), t);
    }
  }

  lemma {:induction false} RangeSize(n: nat)
    ensures |TileRange(0, n)| == n
  {
    if n == 0 {
      assert TileRange(0, 0) == {};
    } else {
      RangeSize(n - 1);
      assert TileRange(0, n) == TileRange(0, n - 1) + {n - 1};
    }
  }

  /** One round brings enough tiles exactly when the tile in the All-1's position is not needed: there is
      none, it has arrived, or there is a parity symbol to do without it. */
  predicate Recoverable(g: Setting, x: Rcv.Ctx)
    requires Shaped(x.m, N(g))
  {
    R(g) >= 1 || N(g) <= AllOnePosition(g) || AllOnePosition(g) in Got(g, x)
  }

  lemma RoundBringsEnough(g: Setting, x: Rcv.Ctx, brought: set<nat>)
    requires Shaped(x.m, N(g)) && forall t: nat :: t in brought <==> Resendable(g, x, t)
    ensures |Got(g, x) + brought| >= K(g) <==> Recoverable(g, x)
  {
    var now, last := Got(g, x) + brought, AllOnePosition(g);
    RangeSize(N(g));
    if N(g) <= last || last in Got(g, x) {
      assert now == TileRange(0, N(g));
    } else {
      assert now == TileRange(0, N(g)) - {last};
    }
  }

  /** The repair has been sent: its fragments, and an ACK request, are under way. */
  ghost predicate RepairSent(g: Setting, s: Session, t: Session)
    requires Typed(s) && Typed(t) && Rcv.Report(s.rcv) != [] && Shaped(Sent(g), N(g)) && K(g) < 256
    requires RepairsSession(g, RepairFor(g, s)) && Within(Run(RepairFor(g, s)).0, N(g))
  {
    && t.snd.state == Snd.WaitAck && t.rcv == s.rcv && t.delivered == s.delivered
    && t.toRcv == s.toRcv + multiset(RepairFrames(g, s) + [AckRequestMsg(s.snd.cursor.w)])
  }

  lemma RepairGoesOut(g: Setting, s: Session) returns (n: nat)
    requires Admissible(g) && Shaped(Sent(g), N(g)) && Invariant(g, s) && BothWait(s)
    requires |ErrorWindows(s.rcv.bitmap, s.rcv.lastWindow)| >= 2
    ensures Rcv.Report(s.rcv) != [] && RepairsSession(g, RepairFor(g, s)) && Within(Run(RepairFor(g, s)).0, N(g))
    ensures RepairSent(g, s, Continued(g, s, [Answer(Rcv.Report(s.rcv))] + Repeat(Execute, n)))
  {
    RepairBegins(g, s);
    var e := Answer(Rcv.Report(s.rcv));
    var t := Step(g, s, e);
    n := ResendEvents(g, t);
    Snd.ResendAllIsRun(t.snd, g.available);
    OneEvent(g, s, e);
    ContinuedTwice(g, s, [e], Repeat(Execute, n));
  }

  lemma RepairArrives(g: Setting, s: Session, t: Session, arrivals: seq<seq<byte>>)
    requires Admissible(g) && Shaped(Sent(g), N(g)) && Invariant(g, s) && BothWait(s)
    requires |ErrorWindows(s.rcv.bitmap, s.rcv.lastWindow)| >= 2
    requires Rcv.Report(s.rcv) != [] && RepairsSession(g, RepairFor(g, s)) && Within(Run(RepairFor(g, s)).0, N(g))
    requires Typed(t) && RepairSent(g, s, t) && multiset(arrivals) == multiset(RepairFrames(g, s))
    ensures var u := Continued(g, t, Deliveries(arrivals));
            && u.snd == t.snd && (u.rcv.state == Rcv.End <==> Recoverable(g, s.rcv))
            && (u.rcv.state == Rcv.End ==> u.delivered == [g.packet] && PositiveAckMsg(3) in u.toSnd)
  {
    var frames := RepairFrames(g, s);
    RepairCarries(g, s);
    assert forall f :: f in arrivals <==> f in multiset(arrivals);
    assert forall f :: f in frames <==> f in multiset(frames);
    SameTiles(arrivals, frames);
    assert multiset(frames + [AckRequestMsg(s.snd.cursor.w)]) == multiset(frames) + multiset{AckRequestMsg(s.snd.cursor.w)};
    FragmentsArrive(g, t, arrivals);
    RoundBringsEnough(g, s.rcv, TilesOfAll(arrivals));
  }

  /** One loss-free repair round, as an extension of any run in which both wait and the report, of two
      windows or more, is under way: it arrives and RESEND runs until the sender waits again. When the
      fragments it emitted have arrived, in any order, the receiver has delivered the packet exactly
      when they bring enough; and then its answer makes the sender end. (A report of one window is
      ignored: `ArqFecSession.ReportTaken`.) */
  lemma RepairRound(g: Setting, events: seq<Event>, arrivals: seq<seq<byte>>) returns (n: nat)
    requires Admissible(g) && AllTolerable(g, events) && Snd.Encodable(g.packet, g.code, g.overhead)
    requires BothWait(After(g, events))
    requires |ErrorWindows(After(g, events).rcv.bitmap, After(g, events).rcv.lastWindow)| >= 2
    ensures Shaped(Sent(g), N(g))
    ensures var s := After(g, events);
            && Rcv.Report(s.rcv) != [] && RepairsSession(g, RepairFor(g, s)) && Within(Run(RepairFor(g, s)).0, N(g))
            && Shaped(s.rcv.m, N(g))
            && var sent := events + ([Answer(Rcv.Report(s.rcv))] + Repeat(Execute, n));
               && RepairSent(g, s, After(g, sent))
               && (multiset(arrivals) == multiset(RepairFrames(g, s)) ==>
                     var u := After(g, sent + Deliveries(arrivals));
                     && (u.rcv.state == Rcv.End <==> Recoverable(g, s.rcv))
                     && (u.rcv.state == Rcv.End ==>
                           && u.delivered == [g.packet]
                           && After(g, sent + Deliveries(arrivals) + [Answer(PositiveAckMsg(3))]).snd.state == Snd.End))
  {
    AdmissibleEncodable(g);
    RunKeepsInvariant(g, events);
    var s := After(g, events);
    n := RepairGoesOut(g, s);
    var more := [Answer(Rcv.Report(s.rcv))] + Repeat(Execute, n);
    ContinuedTwice(g, Initial(g), events, more);
    if multiset(arrivals) == multiset(RepairFrames(g, s)) {
      RepairArrives(g, s, After(g, events + more), arrivals);
      ContinuedTwice(g, Initial(g), events + more, Deliveries(arrivals));
      var all := events + more + Deliveries(arrivals);
      OneMoreEvent(g, Initial(g), all, Answer(PositiveAckMsg(3)));
      if After(g, all).rcv.state == Rcv.End {
        EndsOnAcknowledgement(g, After(g, all));
      }
    }
  }
}
