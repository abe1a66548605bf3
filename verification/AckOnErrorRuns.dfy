/** What can happen in runs of an ACK-on-Error session: which frames are ever under way, when a run
    makes the receiver leave a buffer, and when its last answer refuses a complete packet. */
module AckOnErrorRuns {
  import opened Bytes
  import opened Message
  import opened Tiling
  import opened Numbering
  import opened Retransmission
  import opened WindowBitmaps
  import opened AckOnErrorSession
  import Rcs
  import Snd = AckOnErrorSender
  import Rcv = AckOnErrorReceiver

  // ---- The transmission of a setting ----------------------------------------------------------

  /** The pieces SEND cuts. */
  function Plan(g: Setting): (plan: seq<Piece>)
    requires Admissible(g)
    ensures plan != [] && Within(plan, N(g))
  {
    SendPlanWithin(START, N(g), g.available);
    SendPlan(START, N(g), g.available)
  }

  /** The pieces still to come from a cursor. */
  function Rest(g: Setting, c: Cursor): seq<Piece>
    requires Admissible(g)
  {
    if c.ptr <= N(g) then SendPlan(c, N(g), g.available) else []
  }

  /** The last piece starts in the last window, so the All-1 is sent. */
  predicate ClosesItself(g: Setting)
    requires Admissible(g)
  {
    LastPiece(START, N(g), g.available).at.w == W(g) - 1
  }

  function FrameOf(g: Setting, p: Piece): seq<byte>
    requires Admissible(g)
  {
    if p.at.ptr + p.count <= N(g) then Snd.Fragment(PacketTiles(g.packet), p) else []
  }

  function ClosingFrame(g: Setting): seq<byte>
    requires Admissible(g)
  {
    AllOneMsg(W(g) - 1, Rcs.Crc32(g.packet), LastTile(g.packet))
  }

  // ---- What is under way -----------------------------------------------------------------------

  /** A cursor of SEND is on the plan. */
  predicate OnPlan(g: Setting, x: Snd.Ctx)
    requires Admissible(g)
  {
    x.state == Snd.Send ==>
      && x.cursor.ptr <= N(g)
      && LastPiece(x.cursor, N(g), g.available) == LastPiece(START, N(g), g.available)
      && forall p :: p in Rest(g, x.cursor) ==> p in Plan(g)
  }

  /** Everything planned has been sent or is still to come. */
  predicate Carried(g: Setting, x: Snd.Ctx, toRcv: set<seq<byte>>)
    requires Admissible(g)
  {
    x.state != Snd.Init ==>
      && (forall p :: p in Plan(g) ==> FrameOf(g, p) in toRcv || (x.state == Snd.Send && p in Rest(g, x.cursor)))
      && (x.state != Snd.Send && ClosesItself(g) ==> ClosingFrame(g) in toRcv)
  }

  /** A fragment over two windows is a planned one, an All-1 ends a plan that closes itself, and no
      fragment exceeds the header and the tiles of a frame. */
  ghost predicate Explained(g: Setting, m: seq<byte>)
    requires Admissible(g)
  {
    m != [] ==>
      && (Spanning(g, m) ==> exists p :: p in Plan(g) && OverWindow(p) && m == FrameOf(g, p))
      && (FragmentType(m) == AllOneFragment ==> ClosesItself(g))
      && (FragmentType(m) == RegularFragment ==> |m| <= 1 + TILE_SIZE * g.available)
  }

  /** Before the packet is handed over nothing happens, and the repair phase needs a full tile. */
  predicate Begun(g: Setting, s: Session)
    requires Admissible(g)
  {
    && (s.snd.state == Snd.Init ==> s.toRcv == {} && s.rcv.state == Rcv.RcvWindow)
    && (s.rcv.enabled || s.rcv.state == Rcv.WaitMissing ==> N(g) > 0)
  }

  ghost predicate Accounted(g: Setting, s: Session)
    requires Admissible(g)
  {
    && Invariant(g, s) && OnPlan(g, s.snd) && Carried(g, s.snd, s.toRcv) && Begun(g, s)
    && forall m :: m in s.toRcv ==> Explained(g, m)
  }

  lemma InitialAccounted(g: Setting)
    requires Admissible(g)
    ensures Accounted(g, Initial(g))
  {
    InitialInvariant(g);
  }

  lemma StartAccounted(g: Setting, s: Session)
    requires Admissible(g) && Accounted(g, s)
    ensures Accounted(g, Step(g, s, Start))
  {
    SenderSteps(g, s, Start);
  }

  /** A piece of the right size under the right number: its frame is no surprise. */
  lemma PieceExplained(g: Setting, p: Piece)
    requires Admissible(g) && Numbered(p.at) && p.at.w < W(g) && p.at.ptr + p.count <= N(g) && p.count <= g.available
    requires p.count > 0 || p.at == START
    requires OverWindow(p) ==> p in Plan(g)
    ensures Explained(g, FrameOf(g, p))
  {
    var m := FrameOf(g, p);
    if p.count > 0 {
      FragmentIsFrame(g, p);
      SpanningExactly(g, m, p);
    } else {
      assert PacketTiles(g.packet)[0..0] == [];
      BareHeader(g, m);
    }
  }

  /** The one-byte frame sent when there is no full tile is no fragment of tiles. */
  lemma BareHeader(g: Setting, m: seq<byte>)
    requires Admissible(g) && m == RegularFragmentMsg(0, WINDOW_SIZE - 1, [])
    ensures m != [] && FragmentType(m) == Unclassified && !Spanning(g, m)
  {
    if Spanning(g, m) {
      var q :| IsFragment(g, m, q);
      FragmentIsFrame(g, q);
    }
  }

  lemma AllOneExplained(g: Setting)
    requires Admissible(g) && ClosesItself(g)
    ensures Explained(g, ClosingFrame(g))
  {
    TilingExact(g.packet);
    var m := ClosingFrame(g);
    ReadAllOne(W(g) - 1, Rcs.Crc32(g.packet), LastTile(g.packet));
    if Spanning(g, m) {
      var q :| IsFragment(g, m, q);
      FragmentIsFrame(g, q);
    }
  }

  lemma RequestExplained(g: Setting, w: nat)
    requires Admissible(g) && w < W(g)
    ensures Explained(g, AckRequestMsg(w))
  {
    TilingExact(g.packet);
    ReadFragments(w, 0, [0]);
    if Spanning(g, AckRequestMsg(w)) {
      var q :| IsFragment(g, AckRequestMsg(w), q);
      FragmentIsFrame(g, q);
    }
  }

  /** One execution of SEND sends the piece at its cursor, and closes after the last. */
  lemma SendNextFrames(g: Setting, x: Snd.Ctx)
    requires Admissible(g) && SenderOk(g, x) && OnPlan(g, x) && x.state == Snd.Send
    ensures Rest(g, x.cursor) != []
    ensures var o, p := Snd.SendNext(x, g.available), Rest(g, x.cursor)[0];
            && p.at == x.cursor && p.count <= g.available && p.at.ptr + p.count <= N(g)
            && (o.ctx.state == Snd.Send ==>
                  && o.ctx == x.(cursor := Advance(x.cursor, g.available)) && x.cursor.ptr < o.ctx.cursor.ptr <= N(g)
                  && Rest(g, x.cursor)[1..] == Rest(g, o.ctx.cursor) && o.frames == [FrameOf(g, p)])
            && (o.ctx.state != Snd.Send ==>
                  && o.ctx == x.(state := Snd.WaitAck, cursor := x.cursor.(ptr := N(g))) && Rest(g, x.cursor) == [p]
                  && o.frames == [FrameOf(g, p)] + if ClosesItself(g) then [ClosingFrame(g)] else [])
  {
    Snd.SendNextIsPlanned(x, g.available);
    LastPieceAhead(x.cursor, N(g), g.available);
  }

  lemma OneAhead(g: Setting, c: Cursor, d: Cursor)
    requires Admissible(g) && Rest(g, c) != [] && Rest(g, c)[1..] == Rest(g, d)
    ensures forall p :: p in Rest(g, c) <==> p == Rest(g, c)[0] || p in Rest(g, d)
  {
    var r := Rest(g, c);
    assert r == [r[0]] + r[1..];
  }

  lemma SendKeepsPlan(g: Setting, x: Snd.Ctx, toRcv: set<seq<byte>>)
    requires Admissible(g) && SenderOk(g, x) && OnPlan(g, x) && Carried(g, x, toRcv) && x.state == Snd.Send
    ensures var o := Snd.SendNext(x, g.available);
            OnPlan(g, o.ctx) && Carried(g, o.ctx, toRcv + Elements(o.frames))
  {
    SendNextFrames(g, x);
    LastPieceAhead(x.cursor, N(g), g.available);
    var o := Snd.SendNext(x, g.available);
    assert FrameOf(g, Rest(g, x.cursor)[0]) == o.frames[0];
    if o.ctx.state == Snd.Send {
      OneAhead(g, x.cursor, o.ctx.cursor);
    } else if ClosesItself(g) {
      assert o.frames[1] == ClosingFrame(g);
    }
  }

  lemma SendExplained(g: Setting, x: Snd.Ctx)
    requires Admissible(g) && SenderOk(g, x) && OnPlan(g, x) && x.state == Snd.Send
    ensures forall f :: f in Snd.SendNext(x, g.available).frames ==> Explained(g, f)
  {
    SendNextFrames(g, x);
    var p := Rest(g, x.cursor)[0];
    assert p in Rest(g, x.cursor);
    PieceExplained(g, p);
    if ClosesItself(g) {
      AllOneExplained(g);
    }
  }

  lemma SendAccounted(g: Setting, s: Session, t: Session)
    requires Admissible(g) && Accounted(g, s) && s.snd.state == Snd.Send && Invariant(g, t)
    requires var o := Snd.SendNext(s.snd, g.available); t == s.(snd := o.ctx, toRcv := s.toRcv + Elements(o.frames))
    ensures Accounted(g, t)
  {
    SendKeepsPlan(g, s.snd, s.toRcv);
    SendExplained(g, s.snd);
    SendNextFrames(g, s.snd);
  }

  lemma RepairExplained(g: Setting, r: Repair)
    requires Admissible(g) && Sound(r) && Target(r) < r.nWindows && r.nWindows == W(g) && r.nFullTiles == N(g)
    requires r.available == g.available
    ensures Within(Emitted(r), N(g))
    ensures forall f :: f in Snd.Fragments(PacketTiles(g.packet), Emitted(r)) ==> InOneWindow(g, f)
  {
    Snd.InRange(r);
    EmittedWellFormed(r);
    if Emitted(r) != [] {
      var p := Emitted(r)[0];
      assert p in Emitted(r);
      InsidePiece(g, p);
    }
  }

  /** A regular fragment that does not run over its window and fits the frame. */
  ghost predicate InOneWindow(g: Setting, f: seq<byte>)
    requires Admissible(g)
  {
    f != [] && FragmentType(f) == RegularFragment && !Spanning(g, f) && |f| <= 1 + TILE_SIZE * g.available
  }

  lemma InsidePiece(g: Setting, p: Piece)
    requires Admissible(g) && Cutting(g, p) && !OverWindow(p) && p.count <= g.available
    ensures InOneWindow(g, Snd.Fragment(PacketTiles(g.packet), p))
  {
    FragmentIsFrame(g, p);
    SpanningExactly(g, Snd.Fragment(PacketTiles(g.packet), p), p);
  }

  /** What RESEND sends never runs over the end of a window. */
  lemma ResendNeverSpans(g: Setting, x: Snd.Ctx)
    requires Admissible(g) && SenderOk(g, x) && x.state == Snd.Resending
    ensures forall f :: f in Snd.ResendNext(x, g.available).frames ==> InOneWindow(g, f)
  {
    RepairSound(g, x);
    RepairExplained(g, Snd.RepairOf(x, g.available));
  }

  lemma ResendAccounted(g: Setting, s: Session, t: Session)
    requires Admissible(g) && Accounted(g, s) && s.snd.state == Snd.Resending && Invariant(g, t)
    requires var o := Snd.ResendNext(s.snd, g.available); t == s.(snd := o.ctx, toRcv := s.toRcv + Elements(o.frames))
    requires t.snd.state == Snd.Resending || t.snd.state == Snd.WaitAck
    ensures Accounted(g, t)
  {
    ResendNeverSpans(g, s.snd);
    var o := Snd.ResendNext(s.snd, g.available);
    forall m | m in t.toRcv ensures Explained(g, m) {
      if m !in s.toRcv {
        assert m in o.frames;
      }
    }
  }

  lemma ExecuteAccounted(g: Setting, s: Session)
    requires Admissible(g) && Accounted(g, s)
    ensures Accounted(g, Step(g, s, Execute))
  {
    SenderSteps(g, s, Execute);
    if s.snd.state == Snd.Send {
      SendAccounted(g, s, Step(g, s, Execute));
    } else if s.snd.state == Snd.Resending {
      RepairSound(g, s.snd);
      ResendAccounted(g, s, Step(g, s, Execute));
    } else {
      assert s.toRcv + Elements([]) == s.toRcv;
    }
  }

  lemma TimeoutAccounted(g: Setting, s: Session)
    requires Admissible(g) && Accounted(g, s)
    ensures Accounted(g, Step(g, s, Timeout))
  {
    SenderSteps(g, s, Timeout);
    if s.snd.state == Snd.WaitAck {
      RequestExplained(g, s.snd.cursor.w);
    }
  }

  lemma AnswerAccounted(g: Setting, s: Session, m: seq<byte>)
    requires Admissible(g) && Accounted(g, s)
    ensures Accounted(g, Step(g, s, Answer(m)))
  {
    AnswerArrives(g, s, m);
    if m in s.toSnd && s.snd.state == Snd.Send {
      AnswerInSend(g, s, m);
    } else {
      SilentAnswer(g, s, m);
      SilentAccounted(g, s, Step(g, s, Answer(m)));
    }
  }

  lemma AnswerInSend(g: Setting, s: Session, m: seq<byte>)
    requires Admissible(g) && Accounted(g, s) && m in s.toSnd && m != [] && s.snd.state == Snd.Send
    requires Invariant(g, Step(g, s, Answer(m)))
    ensures Accounted(g, Step(g, s, Answer(m)))
  {
    var o := Snd.SendNext(s.snd, g.available);
    assert Step(g, s, Answer(m)) == s.(snd := o.ctx, toRcv := s.toRcv + Elements(o.frames));
    SendAccounted(g, s, Step(g, s, Answer(m)));
  }

  /** Nothing new is under way, and SEND is not entered. */
  lemma SilentAccounted(g: Setting, s: Session, t: Session)
    requires Admissible(g) && Accounted(g, s) && Invariant(g, t)
    requires t == s.(snd := t.snd) && (t.snd.state == Snd.Send || s.snd.state == Snd.Send ==> t == s)
    requires t.snd.state == Snd.Init <==> s.snd.state == Snd.Init
    ensures Accounted(g, t)
  {
  }

  /** Outside SEND an answer makes the sender send nothing and never leads back to SEND. */
  lemma SilentAnswer(g: Setting, s: Session, m: seq<byte>)
    requires Admissible(g) && Accounted(g, s) && (m in s.toSnd ==> s.snd.state != Snd.Send)
    ensures var t := Step(g, s, Answer(m));
            && t == s.(snd := t.snd) && (t.snd.state == Snd.Send || s.snd.state == Snd.Send ==> t == s)
            && (t.snd.state == Snd.Init <==> s.snd.state == Snd.Init)
  {
    assert s.toRcv + Elements([]) == s.toRcv;
  }

  /** Only a fragment opens the receiver, and only an open one waits for missing fragments, or one
      that has the All-1 but not all tiles. */
  lemma WaitsForTiles(g: Setting, x: Rcv.Ctx, m: seq<byte>)
    requires Admissible(g) && Honest(g, x) && Frame(g, m) && (x.enabled || x.state == Rcv.WaitMissing ==> N(g) > 0)
    ensures var y := Rcv.Receive(x, m).ctx; y.enabled || y.state == Rcv.WaitMissing ==> N(g) > 0
  {
    if N(g) == 0 && x.state == Rcv.RcvWindow && FragmentType(m) == AllOneFragment {
      TakesAllOne(g, x, m, 1);
      CompleteMeansPacket(g, Rcv.Flagged(Rcv.Closing(x, m, 1)));
    }
  }

  lemma DeliverAccounted(g: Setting, s: Session, m: seq<byte>)
    requires Admissible(g) && Accounted(g, s)
    ensures Accounted(g, Step(g, s, Deliver(m)))
  {
    FrameArrives(g, s, m);
    if m in s.toRcv {
      WaitsForTiles(g, s.rcv, m);
    }
  }

  lemma StepAccounted(g: Setting, s: Session, e: Event)
    requires Admissible(g) && Accounted(g, s)
    ensures Accounted(g, Step(g, s, e))
  {
    match e
    case Start => StartAccounted(g, s);
    case Execute => ExecuteAccounted(g, s);
    case Timeout => TimeoutAccounted(g, s);
    case Deliver(m) => DeliverAccounted(g, s, m);
    case Answer(m) => AnswerAccounted(g, s, m);
  }

  lemma {:induction false} ContinuedAccounted(g: Setting, s: Session, events: seq<Event>)
    requires Admissible(g) && Accounted(g, s)
    ensures Accounted(g, Continued(g, s, events))
  {
    if events == [] {
    } else {
      ContinuedAccounted(g, s, events[..|events| - 1]);
      StepAccounted(g, Continued(g, s, events[..|events| - 1]), events[|events| - 1]);
    }
  }

  lemma RunAccounted(g: Setting, events: seq<Event>)
    requires Admissible(g)
    ensures Accounted(g, After(g, events))
  {
    InitialAccounted(g);
    ContinuedAccounted(g, Initial(g), events);
  }

  /** In every run, a fragment over two windows is one that SEND planned; RESEND never makes one. */
  lemma SpanningIsPlanned(g: Setting, events: seq<Event>, m: seq<byte>)
    requires Admissible(g)
    ensures m in After(g, events).toRcv && Spanning(g, m) ==> exists p :: p in Plan(g) && OverWindow(p) && m == FrameOf(g, p)
  {
    RunAccounted(g, events);
    if m in After(g, events).toRcv && Spanning(g, m) {
      assert Frame(g, m);
    }
  }

  /** In every run, with as many tiles in a frame as the MTU holds behind the header, no fragment
      exceeds the MTU. */
  lemma FragmentsFitMtu(g: Setting, events: seq<Event>, mtu: nat, m: seq<byte>)
    requires Admissible(g) && mtu >= 1 && g.available == (mtu - 1) / TILE_SIZE
    ensures m in After(g, events).toRcv && m != [] && FragmentType(m) == RegularFragment ==> |m| <= mtu
  {
    RunAccounted(g, events);
    assert 1 + TILE_SIZE * g.available <= mtu;
  }

  // ---- Letting the sender finish ----------------------------------------------------------------

  lemma ExecutesFirst(g: Setting, s: Session, k: nat)
    requires Typed(s) && Admissible(g)
    ensures Continued(g, s, Repeat(Execute, k + 1)) == Continued(g, Step(g, s, Execute), Repeat(Execute, k))
  {
    OneEvent(g, s, Execute);
    ContinuedTwice(g, s, [Execute], Repeat(Execute, k));
    assert [Execute] + Repeat(Execute, k) == Repeat(Execute, k + 1);
  }

  /** Whatever SEND has planned gets under way, and nothing else changes. */
  predicate Finished(s: Session, t: Session) {
    && t.rcv == s.rcv && t.toSnd == s.toSnd && s.toRcv <= t.toRcv && t.snd.state != Snd.Send
    && (if s.snd.state == Snd.Send then t.snd.state == Snd.WaitAck && t.snd.attempts == s.snd.attempts else t.snd == s.snd)
  }

  lemma SendStep(g: Setting, s: Session)
    requires Admissible(g) && Accounted(g, s) && s.snd.state == Snd.Send
    ensures var t := Step(g, s, Execute);
            && t.rcv == s.rcv && t.toSnd == s.toSnd && s.toRcv <= t.toRcv && t.snd.attempts == s.snd.attempts
            && (if t.snd.state == Snd.Send then s.snd.cursor.ptr < t.snd.cursor.ptr <= N(g) else t.snd.state == Snd.WaitAck)
  {
    SendNextFrames(g, s.snd);
  }

  lemma {:induction false} FinishSending(g: Setting, s: Session) returns (n: nat)
    requires Admissible(g) && Accounted(g, s) && s.snd.state != Snd.Init
    ensures Finished(s, Continued(g, s, Repeat(Execute, n)))
    decreases if s.snd.state == Snd.Send then N(g) + 1 - s.snd.cursor.ptr else 0
  {
    if s.snd.state != Snd.Send {
      n := 0;
    } else {
      SendStep(g, s);
      ExecuteAccounted(g, s);
      var k := FinishSending(g, Step(g, s, Execute));
      ExecutesFirst(g, s, k);
      n := k + 1;
    }
  }

  /** Extends a run so that the whole transmission is under way. */
  lemma AllSent(g: Setting, events: seq<Event>) returns (more: seq<Event>)
    requires Admissible(g) && After(g, events).snd.state != Snd.Init
    ensures Finished(After(g, events), After(g, events + more))
    ensures forall p :: p in Plan(g) ==> FrameOf(g, p) in After(g, events + more).toRcv
    ensures ClosesItself(g) ==> ClosingFrame(g) in After(g, events + more).toRcv
  {
    RunAccounted(g, events);
    var n := FinishSending(g, After(g, events));
    more := Repeat(Execute, n);
    ContinuedTwice(g, Initial(g), events, more);
    RunAccounted(g, events + more);
  }

  // ---- When a run makes the receiver leave a buffer -----------------------------------------------

  predicate Spans(g: Setting)
    requires Admissible(g)
  {
    exists p :: p in Plan(g) && OverWindow(p)
  }

  predicate Reaches(g: Setting, events: seq<Event>, state: Rcv.State)
    requires Admissible(g)
  {
    After(g, events).rcv.state == state
  }

  predicate HasAllWaiting(g: Setting, events: seq<Event>)
    requires Admissible(g)
  {
    Reaches(g, events, Rcv.WaitMissing) && HasAll(g, After(g, events).rcv.bitmap)
  }

  /** In numbers a caller has: more than one window, and frames that do not divide it. */
  lemma SpansInNumbers(g: Setting)
    requires Admissible(g)
    ensures Spans(g) <==> N(g) > WINDOW_SIZE && WINDOW_SIZE % g.available != 0
  {
    OverExactly(N(g), g.available);
  }

  /** The last piece starts at the last multiple of a frame's tiles. */
  lemma ClosesInNumbers(g: Setting)
    requires Admissible(g)
    ensures ClosesItself(g) <==> N(g) == 0 || RoundedDown(g.available, N(g) - 1) >= WINDOW_SIZE * (W(g) - 1)
  {
    TilingExact(g.packet);
    SendPlanExact(START, N(g), g.available);
    var p := LastPiece(START, N(g), g.available);
    assert p in Plan(g);
    if N(g) > 0 {
      LastPieceStarts(START, N(g), g.available);
      ReceiverFindsTile(p.at);
    } else {
      LastPieceAhead(START, N(g), g.available);
    }
  }

  lemma PlannedPiece(g: Setting, p: Piece)
    requires Admissible(g) && p in Plan(g) && N(g) > 0
    ensures Cutting(g, p) && p.count <= g.available
  {
    TilingExact(g.packet);
    SendPlanExact(START, N(g), g.available);
    ReceiverFindsTile(p.at);
  }

  lemma SpanningPieceFaults(g: Setting, s: Session, p: Piece)
    requires Admissible(g) && Invariant(g, s) && s.rcv.state == Rcv.WaitMissing
    requires p in Plan(g) && OverWindow(p) && N(g) > 0 && FrameOf(g, p) in s.toRcv
    ensures Step(g, s, Deliver(FrameOf(g, p))).rcv.state == Rcv.Fault
  {
    PlannedPiece(g, p);
    FragmentIsFrame(g, p);
    LateFragmentFault(g, s.rcv, FrameOf(g, p), p);
  }

  /** A run that waits for missing fragments can go on to a fault when some fragment spans. */
  lemma FaultRun(g: Setting, events: seq<Event>) returns (more: seq<Event>)
    requires Admissible(g) && Spans(g) && Reaches(g, events, Rcv.WaitMissing)
    ensures Reaches(g, events + more, Rcv.Fault)
  {
    RunAccounted(g, events);
    var send := AllSent(g, events);
    var p :| p in Plan(g) && OverWindow(p);
    RunKeepsInvariant(g, events + send);
    SpanningPieceFaults(g, After(g, events + send), p);
    more := send + [Deliver(FrameOf(g, p))];
    OneMoreEvent(g, Initial(g), events + send, Deliver(FrameOf(g, p)));
    assert events + more == events + send + [Deliver(FrameOf(g, p))];
  }

  /** A fault has a run before it that waits for missing fragments, and a fragment that spans. */
  lemma {:induction false} FaultHasCause(g: Setting, events: seq<Event>) returns (before: seq<Event>)
    requires Admissible(g) && Reaches(g, events, Rcv.Fault)
    ensures Spans(g) && Reaches(g, before, Rcv.WaitMissing)
  {
    if events == [] {
      assert false;
    } else {
      var init, e := events[..|events| - 1], events[|events| - 1];
      RunAccounted(g, init);
      var s := After(g, init);
      if s.rcv.state == Rcv.Fault {
        before := FaultHasCause(g, init);
      } else {
        assert e.Deliver? && e.m in s.toRcv;
        FaultExactly(g, s.rcv, e.m);
        SpanningIsPlanned(g, init, e.m);
        before := init;
      }
    }
  }

  /** Some run makes the receiver leave a buffer exactly when a planned fragment runs over the end of
      its window and some run makes the receiver wait for missing fragments. */
  lemma FaultsExactly(g: Setting)
    requires Admissible(g)
    ensures (exists events :: Reaches(g, events, Rcv.Fault)) <==> Spans(g) && exists events :: Reaches(g, events, Rcv.WaitMissing)
  {
    if exists events :: Reaches(g, events, Rcv.Fault) {
      var events :| Reaches(g, events, Rcv.Fault);
      var before := FaultHasCause(g, events);
    }
    if Spans(g) && exists events :: Reaches(g, events, Rcv.WaitMissing) {
      var events :| Reaches(g, events, Rcv.WaitMissing);
      var more := FaultRun(g, events);
    }
  }

  // ---- Runs that wait for missing fragments -------------------------------------------------------

  /** The packet handed over, everything sent, the timer expired once: an ACK request is under way
      beside the whole transmission, and nothing has arrived. */
  lemma AskedRun(g: Setting) returns (events: seq<Event>, w: nat)
    requires Admissible(g)
    ensures w < W(g)
    ensures var s := After(g, events);
            && s.rcv == Rcv.Fresh(g.mode, g.rcs) && s.toSnd == {} && AckRequestMsg(w) in s.toRcv
            && (forall p :: p in Plan(g) ==> FrameOf(g, p) in s.toRcv)
            && (ClosesItself(g) ==> ClosingFrame(g) in s.toRcv)
  {
    OneEvent(g, Initial(g), Start);
    RunAccounted(g, [Start]);
    var send := AllSent(g, [Start]);
    var before := [Start] + send;
    RunAccounted(g, before);
    w := After(g, before).snd.cursor.w;
    OneMoreEvent(g, Initial(g), before, Timeout);
    assert AckRequestMsg(w) in Elements([AckRequestMsg(w)]);
    events := before + [Timeout];
  }

  /** Frames delivered one after the other. */
  function Deliveries(frames: seq<seq<byte>>): (events: seq<Event>)
    ensures |events| == |frames|
  {
    seq(|frames|, i requires 0 <= i < |frames| => Deliver(frames[i]))
  }

  lemma OneMoreDelivery(g: Setting, s: Session, frames: seq<seq<byte>>)
    requires Typed(s) && Admissible(g) && frames != []
    ensures var init, m := frames[..|frames| - 1], frames[|frames| - 1];
            Continued(g, s, Deliveries(frames)) == Step(g, Continued(g, s, Deliveries(init)), Deliver(m))
  {
    assert Deliveries(frames)[..|frames| - 1] == Deliveries(frames[..|frames| - 1]);
  }

  /** A planned fragment reaches RCV_WINDOW: the receiver stays there and has its tiles. */
  lemma PieceArrives(g: Setting, s: Session, p: Piece)
    requires Admissible(g) && Typed(s) && Honest(g, s.rcv) && s.rcv.state == Rcv.RcvWindow
    requires Cutting(g, p) && FrameOf(g, p) in s.toRcv
    ensures var t := Step(g, s, Deliver(FrameOf(g, p)));
            && t == s.(rcv := t.rcv) && Honest(g, t.rcv) && t.rcv.state == Rcv.RcvWindow && t.rcv.enabled
            && t.rcv.rcs == s.rcv.rcs && t.rcv.lastTileSize == s.rcv.lastTileSize
            && forall k: nat :: k < N(g) && (Has(s.rcv.bitmap, k) || Carries(p, k)) ==> Has(t.rcv.bitmap, k)
  {
    TilingExact(g.packet);
    StoresFragment(g, s.rcv, FrameOf(g, p), p);
    var y := Rcv.Stored(s.rcv, FrameOf(g, p));
    SameData(g, y, y, y.(enabled := true));
    assert s.toSnd + Elements([]) == s.toSnd;
  }

  /** The first `n` planned fragments have arrived. */
  predicate PlanArrived(g: Setting, s: Session, t: Session, n: nat)
    requires Admissible(g) && n <= |Plan(g)|
  {
    && t == s.(rcv := t.rcv) && Honest(g, t.rcv) && t.rcv.state == Rcv.RcvWindow && (n > 0 ==> t.rcv.enabled)
    && t.rcv.rcs == s.rcv.rcs && t.rcv.lastTileSize == s.rcv.lastTileSize
    && forall i: nat, k: nat :: i < n && Carries(Plan(g)[i], k) && k < N(g) ==> Has(t.rcv.bitmap, k)
  }

  lemma {:induction false} PlanArrives(g: Setting, s: Session, n: nat)
    requires Admissible(g) && N(g) > 0 && Typed(s) && Honest(g, s.rcv) && s.rcv.state == Rcv.RcvWindow && n <= |Plan(g)|
    requires forall p :: p in Plan(g) ==> FrameOf(g, p) in s.toRcv
    ensures PlanArrived(g, s, Continued(g, s, Deliveries(PlanFrames(g, n))), n)
  {
    if n == 0 {
      assert Deliveries(PlanFrames(g, 0)) == [];
    } else {
      var frames := PlanFrames(g, n);
      var p := Plan(g)[n - 1];
      PlanArrives(g, s, n - 1);
      OneMoreDelivery(g, s, frames);
      assert frames[..n - 1] == PlanFrames(g, n - 1);
      PlannedPiece(g, p);
      PieceArrives(g, Continued(g, s, Deliveries(PlanFrames(g, n - 1))), p);
    }
  }

  function PlanFrames(g: Setting, n: nat): (frames: seq<seq<byte>>)
    requires Admissible(g) && n <= |Plan(g)|
    ensures |frames| == n
  {
    seq(n, i requires 0 <= i < n => FrameOf(g, Plan(g)[i]))
  }

  lemma HonestFresh(g: Setting)
    requires Admissible(g)
    ensures Honest(g, Rcv.Fresh(g.mode, g.rcs))
  {
    InitialInvariant(g);
  }

  /** A receiver that has the full tiles and no All-1, and is asked, does not end: in session mode it
      never does; in compound mode unless its RCS register happens to hold the RCS of the full tiles. */
  predicate NoChanceEnd(g: Setting)
    requires Admissible(g)
  {
    g.mode == EndOfSession || Rcs.Crc32(Concat(PacketTiles(g.packet))) != g.rcs
  }

  lemma AskedWithAllTiles(g: Setting, x: Rcv.Ctx, w: nat)
    requires Admissible(g) && NoChanceEnd(g) && Honest(g, x) && x.state == Rcv.RcvWindow && x.enabled && w < W(g)
    requires HasAll(g, x.bitmap) && x.lastTileSize == 0 && x.rcs == g.rcs
    ensures var y := Rcv.Receive(x, AckRequestMsg(w)).ctx; y.state == Rcv.WaitMissing && y.bitmap == x.bitmap
  {
    TilingExact(g.packet);
    ReadFragments(w, 0, [0]);
    AllTiles(g, x);
    assert Rcv.Buffer(x) == Concat(PacketTiles(g.packet));
  }

  /** A run in which all full tiles have arrived in RCV_WINDOW, an ACK request is under way, and the
      All-1 has not arrived. */
  lemma TilesRun(g: Setting) returns (events: seq<Event>, w: nat)
    requires Admissible(g) && N(g) > 0
    ensures w < W(g)
    ensures var s := After(g, events);
            && AckRequestMsg(w) in s.toRcv && Honest(g, s.rcv) && s.rcv.state == Rcv.RcvWindow && s.rcv.enabled
            && HasAll(g, s.rcv.bitmap) && s.rcv.lastTileSize == 0 && s.rcv.rcs == g.rcs
  {
    var asked;
    asked, w := AskedRun(g);
    HonestFresh(g);
    var n := |Plan(g)|;
    PlanArrives(g, After(g, asked), n);
    events := asked + Deliveries(PlanFrames(g, n));
    ContinuedTwice(g, Initial(g), asked, Deliveries(PlanFrames(g, n)));
    AllTilesArrived(g, After(g, events).rcv.bitmap);
  }

  /** A run in which the receiver, asked with all full tiles stored, waits for the All-1 as for any
      missing fragment. */
  lemma WaitsWithAllTiles(g: Setting) returns (events: seq<Event>)
    requires Admissible(g) && NoChanceEnd(g) && N(g) > 0
    ensures HasAllWaiting(g, events)
  {
    var before, w := TilesRun(g);
    AskedWithAllTiles(g, After(g, before).rcv, w);
    events := before + [Deliver(AckRequestMsg(w))];
    OneMoreEvent(g, Initial(g), before, Deliver(AckRequestMsg(w)));
  }

  lemma AllTilesArrived(g: Setting, bitmap: seq<seq<bit>>)
    requires Admissible(g) && Bitmaps(bitmap, MAX_WINDOWS)
    requires forall i: nat, t: nat :: i < |Plan(g)| && Carries(Plan(g)[i], t) && t < N(g) ==> Has(bitmap, t)
    ensures HasAll(g, bitmap)
  {
    TilingExact(g.packet);
    SendPlanExact(START, N(g), g.available);
    forall t: nat | t < N(g) ensures Has(bitmap, t) {
      var i := Covers(Plan(g), 0, N(g), t);
    }
  }

  /** In numbers: some run makes the receiver leave a buffer if and only if there is more than one
      window and the tiles of a frame do not divide it. */
  lemma FaultsInNumbers(g: Setting)
    requires Admissible(g) && NoChanceEnd(g)
    ensures (exists events :: Reaches(g, events, Rcv.Fault)) <==> N(g) > WINDOW_SIZE && WINDOW_SIZE % g.available != 0
  {
    FaultsExactly(g);
    SpansInNumbers(g);
    if N(g) > 0 {
      var events := WaitsWithAllTiles(g);
    }
  }

  // ---- When a complete packet is refused ----------------------------------------------------------

  /** The All-1 arrives in the repair phase, all tiles are there, the receiver ends, and its answer
      says C = 0. */
  predicate Refused(g: Setting, events: seq<Event>, m: seq<byte>)
    requires Admissible(g)
  {
    && HasAllWaiting(g, events) && m in After(g, events).toRcv && m != [] && FragmentType(m) == AllOneFragment
    && var o := Rcv.Receive(After(g, events).rcv, m);
       o.ctx.state == Rcv.End && |o.replies| == 1 && o.replies[0] != [] && COf(o.replies[0]) == 0
  }

  lemma RefusalRun(g: Setting, events: seq<Event>) returns (more: seq<Event>)
    requires Admissible(g) && HasAllWaiting(g, events) && ClosesItself(g) && N(g) != WINDOW_SIZE * W(g) - 1
    ensures Refused(g, events + more, ClosingFrame(g))
  {
    RunAccounted(g, events);
    more := AllSent(g, events);
    RunAccounted(g, events + more);
    TilingExact(g.packet);
    ReadAllOne(W(g) - 1, Rcs.Crc32(g.packet), LastTile(g.packet));
    var m := ClosingFrame(g);
    var x := After(g, events + more).rcv;
    LateAllOneAnswer(g, x, m);
    OneBit(Rcv.Receive(x, m).replies[0]);
  }

  lemma OneBit(m: seq<byte>)
    requires m != []
    ensures COf(m) == 0 || COf(m) == 1
  {
  }

  /** Some run refuses a complete packet exactly when the All-1 is sent, the last window has room for
      it to spare, and some run waits with all full tiles stored. */
  lemma RefusesExactly(g: Setting)
    requires Admissible(g)
    ensures (exists events, m :: Refused(g, events, m))
            <==> ClosesItself(g) && N(g) != WINDOW_SIZE * W(g) - 1 && exists events :: HasAllWaiting(g, events)
  {
    if exists events, m :: Refused(g, events, m) {
      var events, m :| Refused(g, events, m);
      RunAccounted(g, events);
      LateAllOneAnswer(g, After(g, events).rcv, m);
      assert Explained(g, m);
    }
    if ClosesItself(g) && N(g) != WINDOW_SIZE * W(g) - 1 && exists events :: HasAllWaiting(g, events) {
      var events :| HasAllWaiting(g, events);
      var more := RefusalRun(g, events);
    }
  }

  /** In numbers: some run refuses a complete packet if and only if the All-1 is sent, there is a full
      tile, and the last window is not full. */
  lemma RefusesInNumbers(g: Setting)
    requires Admissible(g) && NoChanceEnd(g)
    ensures (exists events, m :: Refused(g, events, m))
            <==> ClosesItself(g) && N(g) > 0 && N(g) != WINDOW_SIZE * W(g) - 1
  {
    RefusesExactly(g);
    if N(g) > 0 {
      var events := WaitsWithAllTiles(g);
    }
    if exists events :: HasAllWaiting(g, events) {
      var events :| HasAllWaiting(g, events);
      RunAccounted(g, events);
    }
  }

  /** The receiver has ended and nothing under way acknowledges. */
  predicate Unacknowledged(s: Session) {
    s.rcv.state == Rcv.End && s.snd.state != Snd.End && forall m :: m in s.toSnd && m != [] ==> COf(m) != 1
  }

  lemma {:induction false} StaysUnacknowledged(g: Setting, s: Session, events: seq<Event>)
    requires Admissible(g) && Invariant(g, s) && Unacknowledged(s)
    ensures Invariant(g, Continued(g, s, events)) && Unacknowledged(Continued(g, s, events))
  {
    if events == [] {
    } else {
      var init, e := events[..|events| - 1], events[|events| - 1];
      StaysUnacknowledged(g, s, init);
      UnacknowledgedStep(g, Continued(g, s, init), e);
    }
  }

  lemma UnacknowledgedStep(g: Setting, s: Session, e: Event)
    requires Admissible(g) && Invariant(g, s) && Unacknowledged(s)
    ensures Invariant(g, Step(g, s, e)) && Unacknowledged(Step(g, s, e))
  {
    match e
    case Deliver(m) =>
      FrameArrives(g, s, m);
      EndAbsorbs(g, s, m);
    case Answer(m) =>
      AnswerArrives(g, s, m);
      AnswerDoesNotEnd(g, s, m);
    case _ =>
      SenderSteps(g, s, e);
      OwnStepDoesNotEnd(g, s, e);
  }

  lemma EndAbsorbs(g: Setting, s: Session, m: seq<byte>)
    requires Admissible(g) && Typed(s) && s.rcv.state == Rcv.End
    ensures Step(g, s, Deliver(m)) == s
  {
    assert s.toSnd + Elements([]) == s.toSnd;
  }

  lemma AnswerDoesNotEnd(g: Setting, s: Session, m: seq<byte>)
    requires Admissible(g) && Invariant(g, s) && s.snd.state != Snd.End && (m in s.toSnd && m != [] ==> COf(m) != 1)
    ensures var t := Step(g, s, Answer(m)); t.snd.state != Snd.End && t.rcv == s.rcv && t.toSnd == s.toSnd
  {
    if m in s.toSnd && m != [] {
      SenderReceives(g, s.snd, m);
    }
  }

  lemma OwnStepDoesNotEnd(g: Setting, s: Session, e: Event)
    requires Admissible(g) && Invariant(g, s) && s.snd.state != Snd.End && (e.Start? || e.Execute? || e.Timeout?)
    ensures var t := Step(g, s, e); t.snd.state != Snd.End && t.rcv == s.rcv && t.toSnd == s.toSnd
  {
    if s.snd.state == Snd.Send {
      SenderSends(g, s.snd);
    } else if s.snd.state == Snd.Resending {
      SenderResends(g, s.snd);
    }
  }

  /** After a refusal the sender never ends, whatever happens. */
  lemma RefusedForGood(g: Setting, events: seq<Event>, m: seq<byte>, more: seq<Event>)
    requires Admissible(g) && Refused(g, events, m)
    ensures After(g, events + [Deliver(m)] + more).snd.state != Snd.End
  {
    RunKeepsInvariant(g, events + [Deliver(m)]);
    RefusalUnacknowledged(g, events, m);
    StaysUnacknowledged(g, After(g, events + [Deliver(m)]), more);
    ContinuedTwice(g, Initial(g), events + [Deliver(m)], more);
  }

  /** While the receiver waits for missing fragments nothing acknowledges. */
  lemma NothingConfirmed(g: Setting, s: Session)
    requires Admissible(g) && Invariant(g, s) && s.rcv.state == Rcv.WaitMissing
    ensures s.snd.state != Snd.End && forall m :: m in s.toSnd && m != [] ==> COf(m) != 1
  {
  }

  lemma RefusingStep(g: Setting, s: Session, m: seq<byte>, o: Rcv.Reaction, r: seq<byte>)
    requires Admissible(g) && Typed(s) && m in s.toRcv && m != [] && o == Rcv.Receive(s.rcv, m)
    requires s.snd.state != Snd.End && forall m :: m in s.toSnd && m != [] ==> COf(m) != 1
    requires o.ctx.state == Rcv.End && o.replies == [r] && r != [] && COf(r) == 0
    ensures Unacknowledged(Step(g, s, Deliver(m)))
  {
    assert Step(g, s, Deliver(m)) == s.(rcv := o.ctx, toSnd := s.toSnd + Elements([r]));
  }

  lemma RefusalUnacknowledged(g: Setting, events: seq<Event>, m: seq<byte>)
    requires Admissible(g) && Refused(g, events, m)
    ensures Unacknowledged(After(g, events + [Deliver(m)]))
  {
    RunKeepsInvariant(g, events);
    OneMoreEvent(g, Initial(g), events, Deliver(m));
    var s := After(g, events);
    var o := Rcv.Receive(s.rcv, m);
    NothingConfirmed(g, s);
    assert o.replies == [o.replies[0]];
    RefusingStep(g, s, m, o, o.replies[0]);
  }
}
