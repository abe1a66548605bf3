/** Repair rounds of a session-mode ACK-on-Error session: a loss-free round completes one window, and
    at most as many rounds as there are windows end both sides, unless a window was resent before. */
module AckOnErrorRounds {
  import opened Bytes
  import opened Message
  import opened Tiling
  import opened Numbering
  import opened Retransmission
  import opened WindowBitmaps
  import opened AckOnErrorSession
  import opened AckOnErrorRuns
  import opened AckOnErrorRepairs
  import opened AckOnErrorReceipts
  import Snd = AckOnErrorSender
  import Rcv = AckOnErrorReceiver

  // ---- Asking -----------------------------------------------------------------------------------

  /** The window a receiver in the repair phase complains about when asked. */
  function NackedWindow(x: Rcv.Ctx): nat
    requires Rcv.Valid(x)
  {
    FirstIncomplete(x.bitmap, 0, x.lastWindow)
  }

  /** The timer expires and the ACK request arrives. */
  function Request(s: Session): seq<Event> {
    [Timeout, Deliver(AckRequestMsg(s.snd.cursor.w))]
  }

  /** A state of a session-mode run in which both wait. */
  ghost predicate Paused(g: Setting, s: Session)
    requires Admissible(g)
  {
    g.mode == EndOfSession && Invariant(g, s) && Flat(g, s.snd) && BothWait(s)
  }

  lemma RequestNacks(g: Setting, s: Session, w: nat)
    requires Admissible(g) && Typed(s) && Short(g, s.rcv) && w < W(g) && AckRequestMsg(w) in s.toRcv
    ensures var t := Step(g, s, Deliver(AckRequestMsg(w)));
            t == s.(toSnd := t.toSnd) && Complaint(s.rcv, 0) in t.toSnd
  {
    TilingExact(g.packet);
    ReadFragments(w, 0, [0]);
    RequestIsFrame(g, w);
    RequestInRepair(g, s.rcv, AckRequestMsg(w));
    assert Complaint(s.rcv, 0) in Elements([Complaint(s.rcv, 0)]);
  }

  lemma RequestGetsNack(g: Setting, s: Session)
    requires Admissible(g) && Paused(g, s)
    ensures Short(g, s.rcv)
    ensures var t := Continued(g, s, Request(s));
            && t == s.(snd := s.snd.(attempts := s.snd.attempts + 1), toRcv := t.toRcv, toSnd := t.toSnd)
            && Complaint(s.rcv, 0) in t.toSnd
  {
    var w := s.snd.cursor.w;
    TimeoutAsks(g, s);
    OneEvent(g, s, Timeout);
    RequestNacks(g, Step(g, s, Timeout), w);
    OneMoreEvent(g, s, [Timeout], Deliver(AckRequestMsg(w)));
    assert [Timeout] + [Deliver(AckRequestMsg(w))] == Request(s);
  }

  /** The NACK that answers a request in the repair phase. */
  lemma NackIs(g: Setting, x: Rcv.Ctx)
    requires Admissible(g) && g.mode == EndOfSession && Honest(g, x)
    ensures var m, w := Complaint(x, 0), NackedWindow(x);
            Reply(g, m) && COf(m) == 0 && WOf(m) == w < W(g)
  {
    NackAnswers(g, x, 0);
    var w := NackedWindow(x);
    LastZeroMeaning(x.bitmap[w]);
    PackedHeader(w, CompressedBitmap(x.bitmap[w]));
  }

  /** The sender once it has the NACK. */
  function Nacked(g: Setting, s: Session): (y: Snd.Ctx)
    requires Admissible(g) && Paused(g, s)
    ensures UnderRepairAlone(y, g.available)
  {
    NackIs(g, s.rcv);
    NackRepairs(g, s.snd, Complaint(s.rcv, 0));
    Snd.Receive(s.snd, Complaint(s.rcv, 0), g.available).ctx
  }

  lemma NackTakenUp(g: Setting, s: Session)
    requires Admissible(g) && Paused(g, s)
    ensures var y, w := Nacked(g, s), NackedWindow(s.rcv);
            && w < W(g) == |s.snd.rows|
            && y == s.snd.(state := Snd.Resending, attempts := 0, lastConfirmed := w, rows := y.rows)
            && Lengthened(s.snd.rows, y.rows)
  {
    NackIs(g, s.rcv);
    NackRepairs(g, s.snd, Complaint(s.rcv, 0));
    NackTaken(g, s.snd, Complaint(s.rcv, 0));
  }

  lemma NackWants(g: Setting, s: Session)
    requires Admissible(g) && Paused(g, s)
    ensures var r, w := Snd.RepairOf(Nacked(g, s), g.available), NackedWindow(s.rcv);
            && w < |s.snd.rows| && r.current == w && r.nFullTiles == N(g) && r.nWindows == W(g)
            && forall t: nat :: WantedAlone(r, t) <==> !AllResent(g, s.snd, w) && InWindow(r, t)
  {
    NackIs(g, s.rcv);
    NackRepairs(g, s.snd, Complaint(s.rcv, 0));
    NackTaken(g, s.snd, Complaint(s.rcv, 0));
  }

  // ---- Resending --------------------------------------------------------------------------------

  predicate UnderRepairAlone(x: Snd.Ctx, available: nat) {
    && Snd.Valid(x) && x.state == Snd.Resending && x.mode == EndOfSession && available > 0
    && Alone(Snd.RepairOf(x, available))
  }

  lemma AloneGoesOn(x: Snd.Ctx, available: nat)
    requires UnderRepairAlone(x, available)
    ensures var r, o := Snd.RepairOf(x, available), Snd.ResendNext(x, available);
            if o.ctx.state != Snd.Resending then Snd.ResendAlone(x, available) == o
            else
              && UnderRepairAlone(o.ctx, available) && ZerosLeft(Snd.RepairOf(o.ctx, available)) < ZerosLeft(r)
              && Snd.ResendAlone(x, available)
                 == Snd.Reaction(Snd.ResendAlone(o.ctx, available).ctx, o.frames + Snd.ResendAlone(o.ctx, available).frames)
  {
    AloneDecreases(Snd.RepairOf(x, available));
  }

  /** How often RESEND runs before the sender waits again. */
  function Executions(x: Snd.Ctx, available: nat): nat
    requires UnderRepairAlone(x, available)
    decreases ZerosLeft(Snd.RepairOf(x, available))
  {
    AloneGoesOn(x, available);
    var o := Snd.ResendNext(x, available);
    if o.ctx.state != Snd.Resending then 1 else 1 + Executions(o.ctx, available)
  }

  lemma {:induction false} ResendAloneRun(g: Setting, s: Session)
    requires Admissible(g) && Typed(s) && UnderRepairAlone(s.snd, g.available)
    ensures Continued(g, s, Repeat(Execute, Executions(s.snd, g.available))) == Resent(g, s, Snd.ResendAlone(s.snd, g.available))
    decreases ZerosLeft(Snd.RepairOf(s.snd, g.available))
  {
    AloneGoesOn(s.snd, g.available);
    ExecuteResends(g, s);
    var o := Snd.ResendNext(s.snd, g.available);
    if o.ctx.state != Snd.Resending {
      OneEvent(g, s, Execute);
      assert Repeat(Execute, 1) == [Execute];
    } else {
      var t := Resent(g, s, o);
      ResendAloneRun(g, t);
      ExecutesFirst(g, s, Executions(o.ctx, g.available));
      ResentTwice(g, s, o, Snd.ResendAlone(o.ctx, g.available));
    }
  }

  // ---- A round up to the sender's waiting again ----------------------------------------------------

  /** The NACK arrives and RESEND runs until the sender waits again. */
  function Answered(g: Setting, s: Session): seq<Event>
    requires Admissible(g) && Paused(g, s)
  {
    [Answer(Complaint(s.rcv, 0))] + Repeat(Execute, Executions(Nacked(g, s), g.available))
  }

  /** What RESEND then emits. */
  function RoundFrames(g: Setting, s: Session): seq<seq<byte>>
    requires Admissible(g) && Paused(g, s)
  {
    Snd.ResendAlone(Nacked(g, s), g.available).frames
  }

  lemma NackAnswered(g: Setting, s: Session, asked: Session)
    requires Admissible(g) && Paused(g, s) && Typed(asked)
    requires asked == s.(snd := s.snd.(attempts := s.snd.attempts + 1), toRcv := asked.toRcv, toSnd := asked.toSnd)
    requires Complaint(s.rcv, 0) in asked.toSnd
    ensures Step(g, asked, Answer(Complaint(s.rcv, 0))) == asked.(snd := Nacked(g, s))
  {
    NackIs(g, s.rcv);
    NackTakenUp(g, s);
    SameAfterAsking(s.snd, Complaint(s.rcv, 0), g.available);
    AnswerStep(g, asked, Complaint(s.rcv, 0), Nacked(g, s));
  }

  lemma AnswerStep(g: Setting, s: Session, m: seq<byte>, y: Snd.Ctx)
    requires Admissible(g) && Typed(s) && s.snd.state == Snd.WaitAck && m in s.toSnd && m != []
    requires Snd.Receive(s.snd, m, g.available).ctx == y
    ensures Step(g, s, Answer(m)) == s.(snd := y)
  {
    assert Snd.Receive(s.snd, m, g.available).frames == [];
    assert s.toRcv + Elements([]) == s.toRcv;
  }

  lemma RoundSent(g: Setting, s: Session)
    requires Admissible(g) && Paused(g, s)
    ensures var t := Continued(g, s, Request(s) + Answered(g, s));
            && t.rcv == s.rcv && t.snd == Snd.ResendAlone(Nacked(g, s), g.available).ctx
            && forall f :: f in RoundFrames(g, s) ==> f in t.toRcv
  {
    RequestGetsNack(g, s);
    var asked := Continued(g, s, Request(s));
    NackAnswered(g, s, asked);
    var m := Complaint(s.rcv, 0);
    var taken := Step(g, asked, Answer(m));
    ResendAloneRun(g, taken);
    OneEvent(g, asked, Answer(m));
    ContinuedTwice(g, asked, [Answer(m)], Repeat(Execute, Executions(Nacked(g, s), g.available)));
    ContinuedTwice(g, s, Request(s), Answered(g, s));
  }

  /** The sender after the round: the window has been resent, the others are as they were. */
  lemma RoundMarks(g: Setting, s: Session)
    requires Admissible(g) && Paused(g, s)
    ensures var x, w := Snd.ResendAlone(Nacked(g, s), g.available).ctx, NackedWindow(s.rcv);
            && x.state == Snd.WaitAck && x.attempts == 0 && w < |x.rows| == |s.snd.rows|
            && AllResent(g, x, w)
            && forall a: nat :: a < |x.rows| && a != w ==> (AllResent(g, x, a) <==> AllResent(g, s.snd, a))
  {
    NackTakenUp(g, s);
    NackWants(g, s);
    var y := Nacked(g, s);
    Snd.ResendAloneIsRun(y, g.available);
    RunAloneExact(Snd.RepairOf(y, g.available));
    var x := Snd.ResendAlone(y, g.available).ctx;
    forall a: nat | a < |x.rows| && a != NackedWindow(s.rcv)
      ensures AllResent(g, x, a) <==> AllResent(g, s.snd, a)
    {
      assert x.rows[a] == y.rows[a];
      SameFlags(g, s.snd, y, a);
    }
  }

  lemma SameFlags(g: Setting, x: Snd.Ctx, y: Snd.Ctx, a: nat)
    requires Admissible(g) && SenderOk(g, x) && x.state != Snd.Init && a < |x.rows| && Lengthened(x.rows, y.rows)
    ensures AllResent(g, y, a) <==> AllResent(g, x, a)
  {
    TilingExact(g.packet);
    assert forall b :: 0 <= b < |x.rows[a]| ==> y.rows[a][..|x.rows[a]|][b] == y.rows[a][b];
  }

  /** The fragments of a round: they stay in their window and carry all its tiles, or there are none. */
  lemma RoundCarries(g: Setting, s: Session) returns (pieces: seq<Piece>)
    requires Admissible(g) && Paused(g, s)
    ensures Repairs(g, pieces) && Within(pieces, N(g)) && RoundFrames(g, s) == Snd.Fragments(PacketTiles(g.packet), pieces)
    ensures NackedWindow(s.rcv) < |s.snd.rows|
    ensures if AllResent(g, s.snd, NackedWindow(s.rcv)) then pieces == []
            else forall t: nat :: t < N(g) && t / WINDOW_SIZE == NackedWindow(s.rcv) ==> TimesSent(pieces, t) == 1
  {
    NackTakenUp(g, s);
    NackWants(g, s);
    var y, w := Nacked(g, s), NackedWindow(s.rcv);
    var r := Snd.RepairOf(y, g.available);
    pieces := RunAlone(r).0;
    Snd.ResendAloneIsRun(y, g.available);
    RunAloneExact(r);
    RepairsOfRun(g, r, pieces);
    if AllResent(g, s.snd, w) {
      NothingSent(r, pieces);
    } else {
      forall t: nat | t < N(g) && t / WINDOW_SIZE == w ensures TimesSent(pieces, t) == 1 {
        TileInWindow(g, t);
      }
    }
  }

  lemma TileInWindow(g: Setting, t: nat)
    requires Admissible(g) && t < N(g)
    ensures t % WINDOW_SIZE < LastPtr(t / WINDOW_SIZE, W(g), N(g))
  {
    TilingExact(g.packet);
  }

  lemma RepairsOfRun(g: Setting, r: Repair, pieces: seq<Piece>)
    requires Admissible(g) && r.nWindows == W(g) && r.nFullTiles == N(g) && r.available == g.available
    requires forall p :: p in pieces ==> WellFormed(p, r)
    ensures Repairs(g, pieces) && Within(pieces, N(g))
  {
    forall i | 0 <= i < |pieces|
      ensures Cutting(g, pieces[i]) && pieces[i].at.ptr % WINDOW_SIZE + pieces[i].count <= WINDOW_SIZE
    {
      assert WellFormed(pieces[i], r);
    }
  }

  lemma NothingSent(r: Repair, pieces: seq<Piece>)
    requires forall p :: p in pieces ==> WellFormed(p, r)
    requires forall t: nat :: TimesSent(pieces, t) == 0
    ensures pieces == []
  {
    if pieces != [] {
      var p := pieces[0];
      assert WellFormed(p, r) && Carries(p, p.at.ptr);
      var n := TimesSent(pieces, p.at.ptr);
      assert false;
    }
  }

  // ---- Its fragments arrive ------------------------------------------------------------------------

  /** The receiver has ended and acknowledged, or waits with everything it had and the pieces' tiles. */
  ghost predicate Advanced(g: Setting, s: Session, u: Session, pieces: seq<Piece>)
    requires Admissible(g) && Typed(s) && Typed(u)
  {
    if u.rcv.state == Rcv.End then Acknowledges(g, u.toSnd)
    else Short(g, u.rcv) && forall t: nat :: t < N(g) && (Has(s.rcv.bitmap, t) || TimesSent(pieces, t) > 0) ==> Has(u.rcv.bitmap, t)
  }

  lemma AllArrive(g: Setting, s: Session, pieces: seq<Piece>, arrivals: seq<seq<byte>>)
    requires Admissible(g) && Typed(s) && Short(g, s.rcv) && Repairs(g, pieces) && Within(pieces, N(g))
    requires forall f :: f in arrivals <==> f in Snd.Fragments(PacketTiles(g.packet), pieces)
    requires forall f :: f in arrivals ==> f in s.toRcv
    ensures var u := Continued(g, s, Deliveries(arrivals));
            u.snd == s.snd && Advanced(g, s, u, pieces)
  {
    var order := ArrivalsAsPieces(g, pieces, arrivals);
    FragmentsArrive(g, s, order);
    RepairFragments(g, s.rcv, order);
    forall t: nat | t < N(g) && TimesSent(pieces, t) > 0 ensures TimesSent(order, t) > 0 {
      SentBySome(pieces, t);
      var i :| 0 <= i < |pieces| && Carries(pieces[i], t);
      assert Snd.Fragments(PacketTiles(g.packet), pieces)[i] in arrivals;
      EveryPieceArrives(g, pieces, order, i);
      var j :| 0 <= j < |order| && order[j] == pieces[i];
      SentBySome(order, t);
    }
  }

  // ---- What a round achieves -----------------------------------------------------------------------

  /** A loss-free round: everything RESEND emits arrives. */
  function Round(g: Setting, s: Session): seq<Event>
    requires Admissible(g) && Paused(g, s)
  {
    Request(s) + Answered(g, s) + Deliveries(RoundFrames(g, s))
  }

  /** The receiver has ended with a successful check, and one of its answers ends the sender. */
  ghost predicate Finished(g: Setting, u: Session)
    requires Admissible(g) && Typed(u)
  {
    && Confirmed(u.rcv)
    && exists v: nat :: v < W(g) && PositiveAckMsg(v) in u.toSnd && Step(g, u, Answer(PositiveAckMsg(v))).snd.state == Snd.End
  }

  /** After a round with window `w` that has not ended it: both wait again, the window has been resent,
      and what the sender knows of the others is as before. */
  ghost predicate GoesOn(g: Setting, s: Session, u: Session, w: nat)
    requires Admissible(g) && Paused(g, s)
  {
    && Paused(g, u) && w < |u.snd.rows| == |s.snd.rows| && AllResent(g, u.snd, w)
    && (forall a: nat :: a < |u.snd.rows| && a != w ==> (AllResent(g, u.snd, a) <==> AllResent(g, s.snd, a)))
    && (forall t: nat :: t < N(g) && Has(s.rcv.bitmap, t) ==> Has(u.rcv.bitmap, t))
    && (!AllResent(g, s.snd, w) ==>
          NackedWindow(u.rcv) > w && forall t: nat :: t < N(g) && t / WINDOW_SIZE == w ==> Has(u.rcv.bitmap, t))
  }

  lemma LaterWindow(g: Setting, x: Rcv.Ctx, y: Rcv.Ctx)
    requires Admissible(g) && g.mode == EndOfSession && Short(g, x) && Short(g, y)
    requires forall t: nat :: t < N(g) && Has(x.bitmap, t) ==> Has(y.bitmap, t)
    requires forall t: nat :: t < N(g) && t / WINDOW_SIZE == NackedWindow(x) ==> Has(y.bitmap, t)
    ensures NackedWindow(y) > NackedWindow(x)
  {
    var t := NackFindsMissing(g, y);
    var a := t / WINDOW_SIZE;
    FirstIncompleteExactly(x.bitmap, 0, x.lastWindow);
    assert a < NackedWindow(x) ==> Complete(x.bitmap[a]);
    assert !Has(x.bitmap, t);
  }

  lemma RoundEndsOrGoesOn(g: Setting, s: Session, t: Session, arrivals: seq<seq<byte>>)
    requires Admissible(g) && Paused(g, s) && t == Continued(g, s, Request(s) + Answered(g, s))
    requires forall f :: f in arrivals <==> f in RoundFrames(g, s)
    ensures var u := Continued(g, t, Deliveries(arrivals));
            if u.rcv.state == Rcv.End then Finished(g, u) else GoesOn(g, s, u, NackedWindow(s.rcv))
  {
    RoundSent(g, s);
    RoundMarks(g, s);
    var pieces := RoundCarries(g, s);
    RequestGetsNack(g, s);
    AllArrive(g, t, pieces, arrivals);
    var u := Continued(g, t, Deliveries(arrivals));
    ContinuedKeepsFlags(g, s, Request(s) + Answered(g, s));
    ContinuedKeepsFlags(g, t, Deliveries(arrivals));
    if u.rcv.state == Rcv.End {
      var v: nat :| v < W(g) && PositiveAckMsg(v) in u.toSnd;
      PositiveAnswerEnds(g, u, v);
    } else {
      var w := NackedWindow(s.rcv);
      assert BothWait(u);
      if !AllResent(g, s.snd, w) {
        forall t: nat | t < N(g) && t / WINDOW_SIZE == w ensures Has(u.rcv.bitmap, t) {
          assert TimesSent(pieces, t) == 1;
        }
        LaterWindow(g, s.rcv, u.rcv);
      }
    }
  }

  /** A window that has been resent is not resent again, so the round changes nothing at the receiver. */
  lemma ResentRoundIsEmpty(g: Setting, s: Session)
    requires Admissible(g) && Paused(g, s)
    ensures NackedWindow(s.rcv) < |s.snd.rows|
    ensures AllResent(g, s.snd, NackedWindow(s.rcv)) ==>
              RoundFrames(g, s) == [] && Continued(g, s, Round(g, s)).rcv == s.rcv
  {
    var pieces := RoundCarries(g, s);
    if AllResent(g, s.snd, NackedWindow(s.rcv)) {
      RoundSent(g, s);
      assert Deliveries([]) == [];
      assert Round(g, s) == Request(s) + Answered(g, s);
    }
  }

  lemma PausedRun(g: Setting, events: seq<Event>)
    requires Admissible(g) && g.mode == EndOfSession && BothWait(After(g, events))
    ensures Paused(g, After(g, events))
  {
    RunIsFlat(g, events);
  }

  /** One repair round of session mode, as an extension of any run in which both wait: the sender asks,
      the receiver names the first window that misses a tile, and RESEND runs until the sender waits
      again. When everything it emitted has arrived, in any order and any number of times, either the
      receiver has ended with a successful check and its answer ends the sender, or the window is
      complete and the next round is about a later one; but a window resent before brings nothing. */
  lemma SessionRound(g: Setting, events: seq<Event>, arrivals: seq<seq<byte>>)
    requires Admissible(g) && g.mode == EndOfSession && BothWait(After(g, events))
    ensures Paused(g, After(g, events))
    ensures var s := After(g, events);
            var w, sent := NackedWindow(s.rcv), events + (Request(s) + Answered(g, s));
            && (exists t: nat :: t < N(g) && !Has(s.rcv.bitmap, t) && t / WINDOW_SIZE == w)
            && After(g, sent).rcv == s.rcv && After(g, sent).snd.state == Snd.WaitAck
            && (forall f :: f in RoundFrames(g, s) ==> f in After(g, sent).toRcv)
            && w < |s.snd.rows| && (AllResent(g, s.snd, w) ==> RoundFrames(g, s) == [])
            && ((forall f :: f in arrivals <==> f in RoundFrames(g, s)) ==>
                  var u := After(g, sent + Deliveries(arrivals));
                  if u.rcv.state == Rcv.End then Finished(g, u) else GoesOn(g, s, u, w))
  {
    PausedRun(g, events);
    var s := After(g, events);
    RequestGetsNack(g, s);
    var t := NackFindsMissing(g, s.rcv);
    RoundSent(g, s);
    RoundMarks(g, s);
    ResentRoundIsEmpty(g, s);
    var part := Request(s) + Answered(g, s);
    ContinuedTwice(g, Initial(g), events, part);
    if forall f :: f in arrivals <==> f in RoundFrames(g, s) {
      RoundEndsOrGoesOn(g, s, Continued(g, s, part), arrivals);
      ContinuedTwice(g, Initial(g), events + part, Deliveries(arrivals));
    }
  }

  // ---- Rounds to the end ---------------------------------------------------------------------------

  /** No window that misses a tile has been resent. */
  predicate NoneResent(g: Setting, s: Session)
    requires Admissible(g) && Typed(s)
  {
    forall t: nat :: t < N(g) && !Has(s.rcv.bitmap, t) ==>
      t / WINDOW_SIZE < |s.snd.rows| && !AllResent(g, s.snd, t / WINDOW_SIZE)
  }

  lemma OneRound(g: Setting, s: Session)
    requires Admissible(g) && Paused(g, s) && NoneResent(g, s)
    ensures var u := Continued(g, s, Round(g, s));
            if u.rcv.state == Rcv.End then Finished(g, u)
            else Paused(g, u) && NoneResent(g, u) && NackedWindow(u.rcv) > NackedWindow(s.rcv)
  {
    RequestGetsNack(g, s);
    var w := NackedWindow(s.rcv);
    var t := NackFindsMissing(g, s.rcv);
    var part := Request(s) + Answered(g, s);
    RoundEndsOrGoesOn(g, s, Continued(g, s, part), RoundFrames(g, s));
    ContinuedTwice(g, s, part, Deliveries(RoundFrames(g, s)));
  }

  /** Repeated application. */
  ghost function Iterated<S(!new)>(next: S -> S, s: S, n: nat): S {
    if n == 0 then s else Iterated(next, next(s), n - 1)
  }

  lemma {:induction false} StaysDone<S(!new)>(next: S -> S, s: S, n: nat)
    requires next(s) == s
    ensures Iterated(next, s, n) == s
  {
    if n == 0 {
    } else {
      StaysDone(next, s, n - 1);
    }
  }

  /** Steps that each finish or leave less to do finish in as many steps as there was to do. */
  lemma {:induction false} Reaches<S(!new)>(next: S -> S, ready: S -> bool, done: S -> bool, left: S -> nat, s: S, n: nat)
    requires forall x :: ready(x) ==> left(x) > 0 && (done(next(x)) || (ready(next(x)) && left(next(x)) < left(x)))
    requires forall x :: done(x) ==> next(x) == x
    requires ready(s) && left(s) <= n
    ensures done(Iterated(next, s, n))
  {
    if done(next(s)) {
      StaysDone(next, next(s), n - 1);
    } else {
      Reaches(next, ready, done, left, next(s), n - 1);
    }
  }

  ghost function NextRound(g: Setting, s: Session): seq<Event>
    requires Admissible(g) && Typed(s)
  {
    if Paused(g, s) then Round(g, s) else []
  }

  /** What a loss-free round leads to, if both wait. */
  ghost function NextSession(g: Setting, s: Session): Session
    requires Admissible(g)
  {
    if Typed(s) then Continued(g, s, NextRound(g, s)) else s
  }

  ghost predicate Ready(g: Setting, s: Session)
    requires Admissible(g)
  {
    Paused(g, s) && NoneResent(g, s)
  }

  ghost predicate Over(g: Setting, s: Session)
    requires Admissible(g)
  {
    Typed(s) && s.rcv.state == Rcv.End && Finished(g, s)
  }

  /** Windows from the one the receiver complains about on. */
  function WindowsLeft(g: Setting, s: Session): nat
    requires Admissible(g)
  {
    if Typed(s) && NackedWindow(s.rcv) < W(g) then W(g) - NackedWindow(s.rcv) else 0
  }

  lemma FewerLeft(g: Setting, s: Session, u: Session)
    requires Admissible(g) && Typed(s) && Typed(u) && NackedWindow(s.rcv) < W(g)
    requires if u.rcv.state == Rcv.End then Finished(g, u)
             else Paused(g, u) && NoneResent(g, u) && NackedWindow(u.rcv) > NackedWindow(s.rcv)
    ensures WindowsLeft(g, s) > 0 && (Over(g, u) || (Ready(g, u) && WindowsLeft(g, u) < WindowsLeft(g, s)))
  {
  }

  lemma NextIsRound(g: Setting, s: Session)
    requires Admissible(g) && Paused(g, s)
    ensures NextSession(g, s) == Continued(g, s, Round(g, s))
  {
  }

  lemma RoundAdvances(g: Setting, s: Session)
    requires Admissible(g) && Ready(g, s)
    ensures var u := NextSession(g, s);
            WindowsLeft(g, s) > 0 && (Over(g, u) || (Ready(g, u) && WindowsLeft(g, u) < WindowsLeft(g, s)))
  {
    NackIs(g, s.rcv);
    OneRound(g, s);
    NextIsRound(g, s);
    FewerLeft(g, s, NextSession(g, s));
  }

  lemma OverForGood(g: Setting, s: Session)
    requires Admissible(g) && Over(g, s)
    ensures NextSession(g, s) == s
  {
  }

  ghost function Next(g: Setting): Session -> Session
    requires Admissible(g)
  {
    s => NextSession(g, s)
  }

  lemma RoundsFinish(g: Setting, s: Session, n: nat)
    requires Admissible(g) && Ready(g, s) && n >= WindowsLeft(g, s)
    ensures Over(g, Iterated(Next(g), s, n))
  {
    var ready, done, left := (x: Session) => Ready(g, x), (x: Session) => Over(g, x), (x: Session) => WindowsLeft(g, x);
    forall x: Session | ready(x)
      ensures left(x) > 0 && (done(Next(g)(x)) || (ready(Next(g)(x)) && left(Next(g)(x)) < left(x)))
    {
      RoundAdvances(g, x);
    }
    forall x: Session | done(x) ensures Next(g)(x) == x {
      OverForGood(g, x);
    }
    Reaches(Next(g), ready, done, left, s, n);
  }

  /** `n` loss-free rounds one after the other, as long as both wait. */
  ghost function Rounds(g: Setting, s: Session, n: nat): seq<Event>
    requires Admissible(g) && Typed(s)
    decreases n
  {
    if n == 0 then []
    else NextRound(g, s) + Rounds(g, Continued(g, s, NextRound(g, s)), n - 1)
  }

  lemma {:induction false} RoundsAreEvents(g: Setting, s: Session, n: nat)
    requires Admissible(g) && Typed(s)
    ensures Continued(g, s, Rounds(g, s, n)) == Iterated(Next(g), s, n)
    decreases n
  {
    if n == 0 {
    } else {
      var next := NextRound(g, s);
      var u := Continued(g, s, next);
      RoundsAreEvents(g, u, n - 1);
      ContinuedTwice(g, s, next, Rounds(g, u, n - 1));
      assert Next(g)(s) == u;
    }
  }

  /** From any run in which both wait and no window that still misses a tile has been resent, as many
      loss-free rounds as there are windows, at most, finish the session: the receiver ends with a
      successful check, and the sender on its answer. */
  lemma SessionFinishes(g: Setting, events: seq<Event>)
    requires Admissible(g) && g.mode == EndOfSession && BothWait(After(g, events)) && NoneResent(g, After(g, events))
    ensures Over(g, After(g, events + Rounds(g, After(g, events), W(g))))
  {
    PausedRun(g, events);
    var s := After(g, events);
    RoundsFinish(g, s, W(g));
    RoundsAreEvents(g, s, W(g));
    ContinuedTwice(g, Initial(g), events, Rounds(g, s, W(g)));
  }
}
