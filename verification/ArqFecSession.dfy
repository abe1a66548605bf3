/** An ARQ-FEC session: sender and receiver joined by two channels that lose, reorder and duplicate.
    Unless an All-1 sent without being asked for is duplicated, the receiver hands over the sender's
    packet at most once and nothing else, and the sender only ends after that. */
module ArqFecSession {
  import opened Bytes
  import opened Message
  import opened Tiling
  import opened Numbering
  import opened FecMatrix
  import opened Retransmission
  import opened WindowBitmaps
  import Rcs
  import Snd = ArqFecSender
  import Rcv = ArqFecReceiver

  datatype Setting = Setting(packet: seq<byte>, code: Code, overhead: Rcv.fraction, available: nat)

  function K(g: Setting): nat { Symbols(g.packet) }
  function R(g: Setting): nat { Snd.ParityOf(g.packet, g.overhead) }
  function N(g: Setting): nat { K(g) + R(g) }
  function W(g: Setting): nat { WindowsFor(TILE_SIZE * N(g)) }
  function Sent(g: Setting): matrix { Snd.EncodedPacket(g.packet, g.code, g.overhead) }

  /** A packet of ten bytes or more, at most 252 symbols in a row, room for a tile in a frame, and a
      code that recovers as many erasures as there are parity symbols. */
  ghost predicate Admissible(g: Setting) {
    |g.packet| >= TILE_SIZE && N(g) <= MAX_WINDOWS * WINDOW_SIZE && g.available > 0 && Recovers(g.code, K(g), R(g))
  }

  lemma AdmissibleEncodable(g: Setting)
    requires Admissible(g)
    ensures Snd.Encodable(g.packet, g.code, g.overhead)
    ensures Coded(g.code, g.packet, R(g), Sent(g)) && Shaped(Sent(g), N(g)) && 1 <= K(g) <= N(g)
  {
    CodedShape(g.code, g.packet, R(g), Sent(g));
  }

  // ---- Runs -----------------------------------------------------------------------------------

  datatype Session = Session(snd: Snd.Ctx, rcv: Rcv.Ctx, toRcv: multiset<seq<byte>>, toSnd: multiset<seq<byte>>,
                             delivered: seq<seq<byte>>)

  datatype Event =
    | Start // the packet is handed to the sender
    | Execute // the sender runs without a message
    | Deliver(m: seq<byte>) // a frame reaches the receiver
    | Answer(m: seq<byte>) // an answer reaches the sender
    | LoseFrame(m: seq<byte>)
    | LoseAnswer(m: seq<byte>)
    | DuplicateFrame(m: seq<byte>)
    | DuplicateAnswer(m: seq<byte>)

  predicate Typed(s: Session) {
    Snd.Valid(s.snd) && Rcv.Valid(s.rcv) && (s.snd.state == Snd.Init ==> s.snd.cursor == START)
  }

  function Initial(g: Setting): (s: Session)
    requires Snd.Encodable(g.packet, g.code, g.overhead)
    ensures Typed(s)
  {
    Session(Snd.Prepared(g.packet, g.code, g.overhead), Rcv.Fresh(g.code, g.overhead), multiset{}, multiset{}, [])
  }

  /** An event that is not possible leaves everything as it is. */
  function Step(g: Setting, s: Session, e: Event): (t: Session)
    requires Typed(s) && g.available > 0
    ensures Typed(t)
  {
    match e
    case Start =>
      if s.snd.state != Snd.Init then s
      else
        var o := Snd.First(s.snd, g.available);
        s.(snd := o.ctx, toRcv := s.toRcv + multiset(o.frames))
    case Execute =>
      var o := Snd.Execute(s.snd, g.available);
      s.(snd := o.ctx, toRcv := s.toRcv + multiset(o.frames))
    case Deliver(m) =>
      if m !in s.toRcv || m == [] then s
      else
        var o := Rcv.Receive(s.rcv, m);
        s.(rcv := o.ctx, toRcv := s.toRcv - multiset{m}, toSnd := s.toSnd + multiset(o.replies),
           delivered := s.delivered + o.delivered)
    case Answer(m) =>
      if m !in s.toSnd || m == [] then s
      else
        var o := Snd.Receive(s.snd, m);
        s.(snd := o.ctx, toSnd := s.toSnd - multiset{m}, toRcv := s.toRcv + multiset(o.frames))
    case LoseFrame(m) => s.(toRcv := s.toRcv - multiset{m})
    case LoseAnswer(m) => s.(toSnd := s.toSnd - multiset{m})
    case DuplicateFrame(m) => if m in s.toRcv then s.(toRcv := s.toRcv + multiset{m}) else s
    case DuplicateAnswer(m) => if m in s.toSnd then s.(toSnd := s.toSnd + multiset{m}) else s
  }

  function Continued(g: Setting, s: Session, events: seq<Event>): (t: Session)
    requires Typed(s) && g.available > 0
    ensures Typed(t)
  {
    if events == [] then s else Step(g, Continued(g, s, events[..|events| - 1]), events[|events| - 1])
  }

  function After(g: Setting, events: seq<Event>): (s: Session)
    requires Snd.Encodable(g.packet, g.code, g.overhead) && g.available > 0
    ensures Typed(s)
  {
    Continued(g, Initial(g), events)
  }

  lemma {:induction false} ContinuedTwice(g: Setting, s: Session, a: seq<Event>, b: seq<Event>)
    requires Typed(s) && g.available > 0
    ensures Continued(g, s, a + b) == Continued(g, Continued(g, s, a), b)
  {
    if b == [] {
      assert a + b == a;
    } else {
      var init := b[..|b| - 1];
      assert (a + b)[..|a + b| - 1] == a + init;
      ContinuedTwice(g, s, a, init);
    }
  }

  // ---- What travels ---------------------------------------------------------------------------

  /** A piece of the sender's tiles under its right number that fits a frame. */
  predicate Cutting(g: Setting, p: Piece) {
    Numbered(p.at) && p.at.w < W(g) && p.count <= WINDOW_SIZE && p.count <= g.available && p.at.ptr + p.count <= N(g)
  }

  predicate IsFragment(g: Setting, m: seq<byte>, p: Piece)
    requires Shaped(Sent(g), N(g)) && K(g) < 256
  {
    Cutting(g, p) && m == Snd.Fragment(K(g), Columns(Sent(g), N(g)), p)
  }

  ghost predicate Frame(g: Setting, m: seq<byte>)
    requires Shaped(Sent(g), N(g)) && K(g) < 256
  {
    && m != []
    && match FragmentType(m)
       case RegularFragment => exists p :: IsFragment(g, m, p)
       case AllOneFragment => |m| >= 5 && WOf(m) < W(g) && RcsOf(m) == Rcs.Crc32(g.packet) && LastTileOf(m) == Residue(g.packet)
       case AckRequest => true
       case _ => false
  }

  /** A compound ACK any sender of this session can decode, naming windows of this session. */
  ghost predicate Report(g: Setting, m: seq<byte>) {
    && m != [] && COf(m) == 0
    && forall rows :: Bitmaps(rows, W(g)) ==>
         var a := ReadAck(m, Compound, rows);
         && a.AckContents? && a.windows != [] && Bitmaps(a.rows, W(g))
         && forall i :: 0 <= i < |a.windows| ==> a.windows[i] < W(g)
  }

  lemma FragmentIsFrame(g: Setting, p: Piece)
    requires Admissible(g) && Shaped(Sent(g), N(g)) && Cutting(g, p)
    ensures var m := Snd.Fragment(K(g), Columns(Sent(g), N(g)), p);
            && IsFragment(g, m, p) && Frame(g, m) && FragmentType(m) == RegularFragment
            && WOf(m) == p.at.w && FcnOf(m) == p.at.fcn
            && |m| == 2 + TILE_SIZE * p.count
            && PayloadOf(m) == [K(g) as int] + Concat(Columns(Sent(g), N(g))[p.at.ptr..p.at.ptr + p.count])
  {
    ReadFragments(p.at.w, p.at.fcn, [K(g)] + Concat(Columns(Sent(g), N(g))[p.at.ptr..p.at.ptr + p.count]));
    ConcatTiles(Columns(Sent(g), N(g))[p.at.ptr..p.at.ptr + p.count]);
    assert IsFragment(g, Snd.Fragment(K(g), Columns(Sent(g), N(g)), p), p);
  }

  lemma ReportIsReport(g: Setting, x: Rcv.Ctx)
    requires Admissible(g) && Rcv.Valid(x) && x.lastWindow < W(g)
    ensures Report(g, Rcv.Report(x))
  {
    var windows := ErrorWindows(x.bitmap, x.lastWindow);
    assert forall i :: 0 <= i < |windows| ==> windows[i] < W(g) && windows[i] < MAX_WINDOWS;
    assert windows != [] && Reportable(windows, x.bitmap);
    forall rows | Bitmaps(rows, W(g))
      ensures var a := ReadAck(Rcv.Report(x), Compound, rows);
              && a == AckContents(windows, CopiedOrSame(windows, x.bitmap, rows))
              && Bitmaps(a.rows, W(g))
    {
      CompoundRoundTrip(x.lastWindow, windows, x.bitmap, rows);
    }
    CompoundRoundTrip(x.lastWindow, windows, x.bitmap, x.bitmap);
  }

  function CopiedOrSame(windows: seq<nat>, rows: seq<seq<bit>>, target: seq<seq<bit>>): seq<seq<bit>> {
    if Reportable(windows, rows) && Reportable(windows, target) then Copied(windows, rows, target) else target
  }

  // ---- The receiver on its own ----------------------------------------------------------------

  /** With an honest sender: waiting for the All-1 means enough symbols; waiting for missing
      fragments means not enough, with the All-1 already stored; no access leaves a buffer. */
  ghost predicate ReceiverOk(g: Setting, x: Rcv.Ctx)
    requires Shaped(Sent(g), N(g))
  {
    && Rcv.Valid(x) && x.state != Rcv.Fault && x.code == g.code && x.overhead == g.overhead && x.lastWindow < W(g)
    && (Rcv.Receiving(x.state) ==>
          x.k == K(g) && x.r == R(g) && x.n == N(g) && Faithful(x.c, x.m, Sent(g), N(g)) && Uniform(x.m, N(g)))
    && (x.state == Rcv.WaitAllOne ==> EnoughSymbols(x.m, x.k))
    && (x.state == Rcv.WaitMissing ==> !EnoughSymbols(x.m, x.k) && Closed(g, x) && x.lastWindow == W(g) - 1)
    && (x.state == Rcv.Init || Rcv.Receiving(x.state) ==> FlagsAre(x.bitmap, Flagged(g, x)))
  }

  /** The tiles the bitmaps show as received; the All-1 occupies the last position of the last window. */
  function Flagged(g: Setting, x: Rcv.Ctx): set<nat>
    requires Rcv.Receiving(x.state) ==> Shaped(x.m, N(g))
  {
    if !Rcv.Receiving(x.state) then {}
    else if x.state == Rcv.WaitMissing then MarkedSet(x.m, N(g)) + {AllOnePosition(g)}
    else MarkedSet(x.m, N(g))
  }

  function AllOnePosition(g: Setting): nat { WINDOW_SIZE * (W(g) - 1) + WINDOW_SIZE - 1 }

  predicate Closed(g: Setting, x: Rcv.Ctx) {
    x.lastTile == Residue(g.packet) && x.rcs == Rcs.Crc32(g.packet)
  }

  lemma StoreFragment(g: Setting, x: Rcv.Ctx, p: Piece, body: seq<byte>, tiles: set<nat>)
    requires Admissible(g) && Shaped(Sent(g), N(g)) && Cutting(g, p)
    requires Rcv.Valid(x) && x.n == N(g) && Faithful(x.c, x.m, Sent(g), N(g)) && Uniform(x.m, N(g))
    requires body == Concat(Columns(Sent(g), N(g))[p.at.ptr..p.at.ptr + p.count]) && FlagsAre(x.bitmap, tiles)
    ensures |body| == TILE_SIZE * p.count && Rcv.Storable(x.n, p.at.w, p.at.fcn, body, p.count)
    ensures var y := Rcv.Store(x, p.at.w, p.at.fcn, body, p.count);
            && Faithful(y.c, y.m, Sent(g), N(g)) && Rcv.Valid(y) && Uniform(y.m, N(g))
            && MarkedSet(y.m, N(g)) == MarkedSet(x.m, N(g)) + TileRange(p.at.ptr, p.count)
    ensures FlagsAre(Rcv.Store(x, p.at.w, p.at.fcn, body, p.count).bitmap, tiles + TileRange(p.at.ptr, p.count))
  {
    ReceiverFindsTile(p.at);
    StoringKeepsFaithful(x.c, x.m, Sent(g), N(g), p.at.ptr, p.count);
    MarksTiles(x.m, N(g), p.at.ptr, p.count);
    FlagsOfStored(g, x, p, body, tiles);
  }

  lemma FlagsOfStored(g: Setting, x: Rcv.Ctx, p: Piece, body: seq<byte>, tiles: set<nat>)
    requires Cutting(g, p) && W(g) <= MAX_WINDOWS && Rcv.Valid(x) && Shaped(x.c, x.n) && Shaped(x.m, x.n)
    requires Rcv.Storable(x.n, p.at.w, p.at.fcn, body, p.count) && FlagsAre(x.bitmap, tiles)
    ensures FlagsAre(Rcv.Store(x, p.at.w, p.at.fcn, body, p.count).bitmap, tiles + TileRange(p.at.ptr, p.count))
  {
    ReceiverFindsTile(p.at);
    MarkedFlags(x.bitmap, tiles, p.at.ptr, p.count);
    if p.count == 0 {
      assert tiles + TileRange(p.at.ptr, p.count) == tiles;
    }
  }

  /** The tiles a fragment carries, by its header and its length. */
  function TilesOf(m: seq<byte>): set<nat>
    requires |m| >= 2
  {
    TileRange(TilePtr(WOf(m), FcnOf(m)), (|m| - 2) / TILE_SIZE)
  }

  /** The distinct tiles received. */
  function Got(g: Setting, x: Rcv.Ctx): set<nat>
    requires Shaped(x.m, N(g))
  {
    MarkedSet(x.m, N(g))
  }

  /** Enough symbols and the All-1's contents: the packet comes out, so the RCS check passes. */
  lemma ConcludesWithPacket(g: Setting, x: Rcv.Ctx, onMismatch: Rcv.State)
    requires Admissible(g) && Shaped(Sent(g), N(g)) && Rcv.Valid(x) && Rcv.Receiving(x.state)
    requires x.code == g.code && x.k == K(g) && x.r == R(g) && x.n == N(g)
    requires Faithful(x.c, x.m, Sent(g), N(g)) && EnoughSymbols(x.m, x.k) && Closed(g, x)
    ensures var o := Rcv.Conclude(x, onMismatch);
            o.ctx.state == Rcv.End && o.replies == [PositiveAckMsg(3)] && o.delivered == [g.packet]
  {
    AdmissibleEncodable(g);
    Reconstruction(g.code, g.packet, R(g), Sent(g), x.c, x.m, x.d);
  }

  lemma TilesOfPiece(g: Setting, m: seq<byte>, p: Piece)
    requires Admissible(g) && Shaped(Sent(g), N(g)) && IsFragment(g, m, p)
    ensures |m| >= 2 && FragmentType(m) == RegularFragment && TilesOf(m) == TileRange(p.at.ptr, p.count)
  {
    FragmentIsFrame(g, p);
    ReceiverFindsTile(p.at);
    assert (|m| - 2) / TILE_SIZE == p.count;
  }

  /** What a regular fragment does in each state. The receiver counts distinct tiles, this fragment's
      included: as soon as they number `k` it asks for the All-1 with ACK(1, 1) or, in the repair
      phase, delivers; until then it stays where it is and is silent. */
  lemma ReceivesFragment(g: Setting, x: Rcv.Ctx, m: seq<byte>, p: Piece)
    requires Admissible(g) && Shaped(Sent(g), N(g)) && ReceiverOk(g, x) && IsFragment(g, m, p)
    ensures |m| >= 2 && ReceiverOk(g, Rcv.Receive(x, m).ctx)
    ensures var o := Rcv.Receive(x, m);
            && (x.state == Rcv.Init ==>
                  o.ctx.state == Rcv.RcvWindow && o.replies == [] && o.delivered == [] && Got(g, o.ctx) == TilesOf(m))
            && (x.state == Rcv.RcvWindow ==>
                  && Shaped(o.ctx.m, N(g)) && Got(g, o.ctx) == Got(g, x) + TilesOf(m) && o.delivered == []
                  && if |Got(g, x) + TilesOf(m)| >= K(g) then o.ctx.state == Rcv.WaitAllOne && o.replies == [PositiveAckMsg(1)]
                     else o.ctx.state == Rcv.RcvWindow && o.replies == [])
            && (x.state == Rcv.WaitMissing ==>
                  && Shaped(o.ctx.m, N(g)) && Got(g, o.ctx) == Got(g, x) + TilesOf(m)
                  && if |Got(g, x) + TilesOf(m)| >= K(g)
                     then o.ctx.state == Rcv.End && o.replies == [PositiveAckMsg(3)] && o.delivered == [g.packet]
                     else o.ctx.state == Rcv.WaitMissing && o.replies == [] && o.delivered == [])
            && (x.state == Rcv.WaitAllOne || x.state == Rcv.End ==> o == Rcv.Reaction(x, [], []))
  {
    TilesOfPiece(g, m, p);
    match x.state
    case Init => FirstFragment(g, x, m, p);
    case RcvWindow => WindowFragment(g, x, m, p);
    case WaitMissing => RepairFragment(g, x, m, p);
    case _ =>
  }

  lemma FirstFragment(g: Setting, x: Rcv.Ctx, m: seq<byte>, p: Piece)
    requires Admissible(g) && Shaped(Sent(g), N(g)) && ReceiverOk(g, x) && IsFragment(g, m, p) && x.state == Rcv.Init
    ensures |m| >= 2
    ensures var o := Rcv.OnFirst(x, m);
            && ReceiverOk(g, o.ctx) && o.ctx.state == Rcv.RcvWindow && o.replies == [] && o.delivered == []
            && Got(g, o.ctx) == TilesOf(m)
  {
    TilesOfPiece(g, m, p);
    var body := Concat(Columns(Sent(g), N(g))[p.at.ptr..p.at.ptr + p.count]);
    var sized := Rcv.Learnt(x, p.at.w, K(g));
    LearntFirst(g, x, p.at.w);
    StoredFirst(g, sized, m, p, body);
    OnFirstStores(g, x, m, p, body);
  }

  lemma LearntFirst(g: Setting, x: Rcv.Ctx, w: nat)
    requires Admissible(g) && Rcv.Valid(x) && w < W(g) && x.overhead == g.overhead && x.state == Rcv.Init
    requires x.code == g.code && x.lastWindow < W(g)
    ensures var y := Rcv.Learnt(x, w, K(g));
            && y.n == N(g) && y.k == K(g) && y.r == R(g) && y.c == Rcv.Blank<byte>(0, N(g)) && y.m == Rcv.Blank<bit>(0, N(g))
            && y.bitmap == x.bitmap && y.lastWindow < W(g)
  {
  }

  lemma OnFirstStores(g: Setting, x: Rcv.Ctx, m: seq<byte>, p: Piece, body: seq<byte>)
    requires Admissible(g) && Shaped(Sent(g), N(g)) && IsFragment(g, m, p) && Rcv.Valid(x)
    requires body == Concat(Columns(Sent(g), N(g))[p.at.ptr..p.at.ptr + p.count]) && |body| == TILE_SIZE * p.count
    requires Rcv.Storable(Rcv.Learnt(x, p.at.w, K(g)).n, p.at.w, p.at.fcn, body, p.count)
    ensures m != []
    ensures Rcv.OnFirst(x, m)
            == Rcv.Reaction(Rcv.Store(Rcv.Learnt(x, p.at.w, K(g)), p.at.w, p.at.fcn, body, p.count).(state := Rcv.RcvWindow), [], [])
  {
    FragmentIsFrame(g, p);
    var payload := PayloadOf(m);
    assert payload[0] == K(g) && payload[1..] == body;
    assert |body| / TILE_SIZE == p.count;
  }

  lemma StoredFirst(g: Setting, sized: Rcv.Ctx, m: seq<byte>, p: Piece, body: seq<byte>)
    requires Admissible(g) && Shaped(Sent(g), N(g)) && IsFragment(g, m, p)
    requires |m| >= 2 && TilesOf(m) == TileRange(p.at.ptr, p.count)
    requires body == Concat(Columns(Sent(g), N(g))[p.at.ptr..p.at.ptr + p.count])
    requires Rcv.Valid(sized) && sized.n == N(g) && sized.c == Rcv.Blank<byte>(0, N(g)) && sized.m == Rcv.Blank<bit>(0, N(g))
    requires FlagsAre(sized.bitmap, {})
    ensures |body| == TILE_SIZE * p.count && Rcv.Storable(sized.n, p.at.w, p.at.fcn, body, p.count)
    ensures var y := Rcv.Store(sized, p.at.w, p.at.fcn, body, p.count);
            && Faithful(y.c, y.m, Sent(g), N(g)) && Rcv.Valid(y) && Uniform(y.m, N(g))
            && MarkedSet(y.m, N(g)) == TilesOf(m) && FlagsAre(y.bitmap, TilesOf(m))
  {
    BlankFaithful(Sent(g), N(g));
    StoreFragment(g, sized, p, body, {});
    assert {} + TilesOf(m) == TilesOf(m);
  }

  lemma BlankFaithful(sent: matrix, n: nat)
    requires Shaped(sent, n)
    ensures Faithful(Rcv.Blank<byte>(0, n), Rcv.Blank<bit>(0, n), sent, n)
    ensures Uniform(Rcv.Blank<bit>(0, n), n) && MarkedSet(Rcv.Blank<bit>(0, n), n) == {}
  {
  }

  lemma WindowFragment(g: Setting, x: Rcv.Ctx, m: seq<byte>, p: Piece)
    requires Admissible(g) && Shaped(Sent(g), N(g)) && ReceiverOk(g, x) && IsFragment(g, m, p) && x.state == Rcv.RcvWindow
    ensures |m| >= 2
    ensures var o, now := Rcv.OnWindow(x, m), Got(g, x) + TilesOf(m);
            && ReceiverOk(g, o.ctx) && Shaped(o.ctx.m, N(g)) && Got(g, o.ctx) == now && o.delivered == []
            && if |now| >= K(g) then o.ctx.state == Rcv.WaitAllOne && o.replies == [PositiveAckMsg(1)]
               else o.ctx.state == Rcv.RcvWindow && o.replies == []
  {
    StoredFragment(g, x, m, p);
    EnoughTiles(Rcv.Stored(x, m).m, N(g), K(g));
  }

  lemma RepairFragment(g: Setting, x: Rcv.Ctx, m: seq<byte>, p: Piece)
    requires Admissible(g) && Shaped(Sent(g), N(g)) && ReceiverOk(g, x) && IsFragment(g, m, p) && x.state == Rcv.WaitMissing
    ensures |m| >= 2
    ensures var o, now := Rcv.OnMissing(x, m), Got(g, x) + TilesOf(m);
            && ReceiverOk(g, o.ctx) && Shaped(o.ctx.m, N(g)) && Got(g, o.ctx) == now
            && if |now| >= K(g) then o.ctx.state == Rcv.End && o.replies == [PositiveAckMsg(3)] && o.delivered == [g.packet]
               else o.ctx.state == Rcv.WaitMissing && o.replies == [] && o.delivered == []
  {
    StoredFragment(g, x, m, p);
    var y := Rcv.Stored(x, m);
    EnoughTiles(y.m, N(g), K(g));
    assert Got(g, x) + {AllOnePosition(g)} + TilesOf(m) == Got(g, x) + TilesOf(m) + {AllOnePosition(g)};
    if EnoughSymbols(y.m, y.k) {
      ConcludesWithPacket(g, y, Rcv.End);
    }
  }

  lemma StoredFragment(g: Setting, x: Rcv.Ctx, m: seq<byte>, p: Piece)
    requires Admissible(g) && Shaped(Sent(g), N(g)) && ReceiverOk(g, x) && IsFragment(g, m, p)
    requires Rcv.Receiving(x.state)
    ensures Rcv.TypeOf(m) == RegularFragment && |m| >= 2
    ensures var y := Rcv.Stored(x, m);
            && y.state == x.state && y.lastWindow == Max(x.lastWindow, p.at.w) && y.lastTile == x.lastTile && y.rcs == x.rcs
            && y.code == x.code && y.overhead == x.overhead && y.k == K(g) && y.r == R(g) && y.n == N(g)
            && Faithful(y.c, y.m, Sent(g), N(g)) && Uniform(y.m, N(g)) && Got(g, y) == Got(g, x) + TilesOf(m)
            && FlagsAre(y.bitmap, Flagged(g, x) + TilesOf(m))
  {
    TilesOfPiece(g, m, p);
    FragmentIsFrame(g, p);
    var payload := PayloadOf(m);
    var body := Concat(Columns(Sent(g), N(g))[p.at.ptr..p.at.ptr + p.count]);
    assert payload[0] == K(g) && payload[1..] == body;
    var learnt := x.(lastWindow := Max(x.lastWindow, WOf(m)), k := payload[0]);
    StoreFragment(g, learnt, p, body, Flagged(g, x));
    assert |payload| / TILE_SIZE == p.count;
  }

  /** What the All-1 does in each state. One that finds RCV_WINDOW comes from the last window. */
  lemma ReceivesAllOne(g: Setting, x: Rcv.Ctx, m: seq<byte>)
    requires Admissible(g) && Shaped(Sent(g), N(g)) && ReceiverOk(g, x) && Frame(g, m) && FragmentType(m) == AllOneFragment
    requires x.state == Rcv.RcvWindow ==> WOf(m) == W(g) - 1
    ensures ReceiverOk(g, Rcv.Receive(x, m).ctx)
    ensures var o := Rcv.Receive(x, m);
            if x.state == Rcv.Init then o == Rcv.Reaction(x.(state := Rcv.End), [], [])
            else if x.state == Rcv.WaitMissing then o == Rcv.Reaction(x, [], [])
            else if x.state == Rcv.End then o == Rcv.Reaction(x, [PositiveAckMsg(3)], [])
            else if |Got(g, x)| >= K(g) then
              o.ctx.state == Rcv.End && o.replies == [PositiveAckMsg(3)] && o.delivered == [g.packet]
            else
              && o.ctx.state == Rcv.WaitMissing && o.delivered == [] && o.replies == [Rcv.Report(o.ctx)]
              && Report(g, Rcv.Report(o.ctx)) && Shaped(o.ctx.m, N(g)) && Got(g, o.ctx) == Got(g, x)
  {
    if x.state == Rcv.RcvWindow || x.state == Rcv.WaitAllOne {
      EnoughTiles(x.m, N(g), K(g));
      if EnoughSymbols(x.m, x.k) {
        ConcludesWithPacket(g, Rcv.Closing(x, m), x.state);
      } else {
        ShortAtAllOne(g, x, m);
      }
    }
  }

  lemma ShortAtAllOne(g: Setting, x: Rcv.Ctx, m: seq<byte>)
    requires Admissible(g) && Shaped(Sent(g), N(g)) && ReceiverOk(g, x) && Frame(g, m) && FragmentType(m) == AllOneFragment
    requires x.state == Rcv.RcvWindow && WOf(m) == W(g) - 1 && !EnoughSymbols(x.m, x.k)
    ensures var closed := Rcv.Closing(x, m).(state := Rcv.WaitMissing);
            && Rcv.OnAllOne(x, m) == Rcv.Reaction(closed, [Rcv.Report(closed)], [])
            && ReceiverOk(g, closed) && Report(g, Rcv.Report(closed))
  {
    LastFlagSet(x.bitmap, Got(g, x), W(g) - 1);
    ReportIsReport(g, Rcv.Closing(x, m).(state := Rcv.WaitMissing));
  }

  /** An ACK request ends a session that has not begun, gets a report in the repair phase, and is
      ignored otherwise. */
  lemma ReceivesAckRequest(g: Setting, x: Rcv.Ctx, m: seq<byte>)
    requires Admissible(g) && Shaped(Sent(g), N(g)) && ReceiverOk(g, x)
    requires m != [] && FragmentType(m) == AckRequest
    ensures ReceiverOk(g, Rcv.Receive(x, m).ctx)
    ensures Rcv.Receive(x, m)
            == if x.state == Rcv.Init then Rcv.Reaction(x.(state := Rcv.End), [], [])
               else Rcv.Reaction(x, if x.state == Rcv.WaitMissing then [Rcv.Report(x)] else [], [])
    ensures x.state == Rcv.WaitMissing ==> Report(g, Rcv.Report(x))
  {
    if x.state == Rcv.WaitMissing {
      ReportIsReport(g, x);
    }
  }

  // ---- The sender on its own ------------------------------------------------------------------

  predicate Sending(s: Snd.State) { s == Snd.Init || s == Snd.Send }

  /** The transmission ends with an All-1 nobody asked for: it does when the last fragment starts in
      the last window, unless INIT stops for good after a frame that holds a whole window. */
  predicate ClosesItself(g: Setting) {
    && g.available > 0
    && (W(g) == 1 || (g.available < WINDOW_SIZE && LastPiece(START, N(g), g.available).at.w == W(g) - 1))
  }

  /** In SEND, the fragments still to come end as the whole transmission does. */
  predicate OnPlan(g: Setting, x: Snd.Ctx) {
    x.state == Snd.Send ==>
      && g.available > 0 && x.cursor.ptr <= N(g)
      && LastPiece(x.cursor, N(g), g.available) == LastPiece(START, N(g), g.available)
  }

  ghost predicate SenderOk(g: Setting, x: Snd.Ctx)
    requires Shaped(Sent(g), N(g))
  {
    && x.state != Snd.Fault && x.k == K(g) && x.tiles == Columns(Sent(g), N(g)) && x.nWindows == W(g)
    && x.lastTile == Residue(g.packet) && x.rcs == Rcs.Crc32(g.packet)
    && Bitmaps(x.rows, W(g)) && x.cursor.w < W(g)
    && (x.state == Snd.Init ==> x.cursor == START)
    && (x.state == Snd.Send ==> Numbered(x.cursor) && x.cursor.ptr < N(g) && g.available < WINDOW_SIZE)
    && (x.state == Snd.Resending ==> x.windows != [] && forall i :: 0 <= i < |x.windows| ==> x.windows[i] < W(g))
  }

  /** Whether frames may hold an All-1: one that closes the transmission, one that was asked for. */
  datatype AllOnes = NoneAllowed | OneCloses | OneAskedFor

  /** `frames` holds frames of the session: fragments, at most one All-1 unless none is allowed, an ACK
      request only if allowed. */
  ghost predicate Burst(g: Setting, frames: seq<seq<byte>>, allOnes: AllOnes, requests: bool)
    requires Shaped(Sent(g), N(g)) && K(g) < 256
  {
    && |frames| <= 2
    && (forall i :: 0 <= i < |frames| ==>
          && Frame(g, frames[i])
          && (FragmentType(frames[i]) == AckRequest ==> requests)
          && (FragmentType(frames[i]) == AllOneFragment ==> AllOneAllowed(g, frames[i], allOnes)))
    && (|frames| == 2 ==> FragmentType(frames[0]) == RegularFragment)
  }

  predicate AllOneAllowed(g: Setting, m: seq<byte>, allOnes: AllOnes)
    requires m != []
  {
    allOnes == OneAskedFor || (allOnes == OneCloses && WOf(m) == W(g) - 1)
  }

  lemma AllOneIsFrame(g: Setting, x: Snd.Ctx)
    requires Admissible(g) && Shaped(Sent(g), N(g)) && SenderOk(g, x)
    ensures Frame(g, Snd.AllOne(x)) && FragmentType(Snd.AllOne(x)) == AllOneFragment && WOf(Snd.AllOne(x)) == x.cursor.w
  {
    ReadAllOne(x.cursor.w, x.rcs, x.lastTile);
  }

  /** INIT: the first fragment, with the All-1 when everything fits one window and one frame. */
  lemma SenderStarts(g: Setting, x: Snd.Ctx)
    requires Admissible(g) && Shaped(Sent(g), N(g)) && Snd.Valid(x) && SenderOk(g, x) && x.state == Snd.Init
    ensures var o := Snd.First(x, g.available);
            && SenderOk(g, o.ctx) && OnPlan(g, o.ctx)
            && (o.ctx.state == Snd.Send || o.ctx.state == Snd.WaitAck)
            && Burst(g, o.frames, if o.ctx.state != Snd.Send && ClosesItself(g) then OneCloses else NoneAllowed, false)
  {
    var remaining := if x.nWindows == 1 then |x.tiles| else WINDOW_SIZE;
    FragmentIsFrame(g, Piece(START, if remaining > g.available then g.available else remaining));
    AllOneIsFrame(g, x);
    FirstOnPlan(g, x);
  }

  lemma FirstOnPlan(g: Setting, x: Snd.Ctx)
    requires Admissible(g) && Snd.Valid(x) && |x.tiles| == N(g) && x.nWindows == W(g) && x.state == Snd.Init && x.cursor == START
    ensures OnPlan(g, Snd.First(x, g.available).ctx)
  {
    if (if x.nWindows == 1 then |x.tiles| else WINDOW_SIZE) > g.available {
      LastPieceAhead(START, N(g), g.available);
      assert Advance(START, g.available) == Cursor(0, WINDOW_SIZE - 1 - g.available, g.available);
    }
  }

  /** The fragment SEND cuts from its cursor. */
  function NextPiece(g: Setting, x: Snd.Ctx): Piece
    requires x.cursor.ptr <= N(g)
  {
    Piece(x.cursor, if N(g) - x.cursor.ptr > g.available then g.available else N(g) - x.cursor.ptr)
  }

  lemma CursorMoves(g: Setting, x: Snd.Ctx)
    requires Admissible(g) && Shaped(Sent(g), N(g)) && Snd.Valid(x) && SenderOk(g, x) && x.state == Snd.Send
    requires N(g) - x.cursor.ptr > g.available
    ensures var c := Advance(x.cursor, g.available);
            Numbered(c) && c.ptr == x.cursor.ptr + g.available && c.ptr < N(g) && c.w < W(g)
  {
    AdvanceExact(x.cursor, g.available);
  }

  lemma StaysOnPlan(g: Setting, x: Snd.Ctx)
    requires Admissible(g) && Snd.Valid(x) && |x.tiles| == N(g) && OnPlan(g, x) && x.state == Snd.Send
    ensures OnPlan(g, Snd.SendNext(x, g.available).ctx)
    ensures N(g) - x.cursor.ptr <= g.available < WINDOW_SIZE && x.cursor.w == W(g) - 1 ==> ClosesItself(g)
  {
    LastPieceAhead(x.cursor, N(g), g.available);
  }

  lemma StaysOk(g: Setting, x: Snd.Ctx)
    requires Admissible(g) && Shaped(Sent(g), N(g)) && Snd.Valid(x) && SenderOk(g, x) && x.state == Snd.Send
    ensures var y := Snd.SendNext(x, g.available).ctx;
            SenderOk(g, y) && (y.state == Snd.Send || y.state == Snd.WaitAck)
  {
    if N(g) - x.cursor.ptr > g.available {
      CursorMoves(g, x);
    }
  }

  lemma SenderSends(g: Setting, x: Snd.Ctx)
    requires Admissible(g) && Shaped(Sent(g), N(g)) && Snd.Valid(x) && SenderOk(g, x) && OnPlan(g, x) && x.state == Snd.Send
    ensures var o := Snd.SendNext(x, g.available);
            && SenderOk(g, o.ctx) && OnPlan(g, o.ctx)
            && (o.ctx.state == Snd.Send || o.ctx.state == Snd.WaitAck)
            && Burst(g, o.frames, if o.ctx.state != Snd.Send && ClosesItself(g) then OneCloses else NoneAllowed, false)
  {
    StaysOk(g, x);
    StaysOnPlan(g, x);
    SendNextFrames(g, x);
    FragmentIsFrame(g, NextPiece(g, x));
    AllOneIsFrame(g, x);
    SmallBurst(g, Snd.Fragment(K(g), Columns(Sent(g), N(g)), NextPiece(g, x)), Snd.AllOne(x));
  }

  lemma SendNextFrames(g: Setting, x: Snd.Ctx)
    requires Shaped(Sent(g), N(g)) && K(g) < 256 && g.available > 0
    requires Snd.Valid(x) && x.state == Snd.Send && x.k == K(g) && x.tiles == Columns(Sent(g), N(g)) && x.nWindows == W(g)
    requires x.cursor.ptr <= N(g)
    ensures var f, o := Snd.Fragment(K(g), Columns(Sent(g), N(g)), NextPiece(g, x)), Snd.SendNext(x, g.available);
            o.frames == if N(g) - x.cursor.ptr <= g.available && x.cursor.w == W(g) - 1 then [f] + [Snd.AllOne(x)] else [f]
  {
    var f := Snd.Fragment(K(g), Columns(Sent(g), N(g)), NextPiece(g, x));
    assert [f] + [] == [f];
  }

  /** A fragment alone, or with the All-1. */
  lemma SmallBurst(g: Setting, f: seq<byte>, allOne: seq<byte>)
    requires Shaped(Sent(g), N(g)) && K(g) < 256
    requires Frame(g, f) && FragmentType(f) == RegularFragment && Frame(g, allOne) && FragmentType(allOne) == AllOneFragment
    ensures Burst(g, [f], NoneAllowed, false) && Burst(g, [f], OneCloses, false)
    ensures WOf(allOne) == W(g) - 1 ==> Burst(g, [f] + [allOne], OneCloses, false)
  {
  }

  lemma SenderResends(g: Setting, x: Snd.Ctx)
    requires Admissible(g) && Shaped(Sent(g), N(g)) && Snd.Valid(x) && SenderOk(g, x) && x.state == Snd.Resending
    ensures var o := Snd.ResendNext(x, g.available);
            && SenderOk(g, o.ctx) && Burst(g, o.frames, NoneAllowed, true)
            && (o.ctx.state == Snd.Resending || o.ctx.state == Snd.WaitAck)
  {
    var r := Snd.RepairOf(x, g.available);
    ResendDecreases(r);
    ResentRows(r);
    ResendBursts(g, r, x.cursor.w);
  }

  /** The fragments of one execution, alone or followed by an ACK request. */
  lemma ResendBursts(g: Setting, r: Repair, w: nat)
    requires Admissible(g) && Shaped(Sent(g), N(g)) && RepairsSession(g, r) && w < MAX_WINDOWS
    ensures Within(Emitted(r), N(g))
    ensures var frames := Snd.Fragments(K(g), Columns(Sent(g), N(g)), Emitted(r));
            Burst(g, frames, NoneAllowed, true) && Burst(g, frames + [AckRequestMsg(w)], NoneAllowed, true)
  {
    EmittedFrames(g, r);
    ReadFragments(w, 0, [0]);
    var frames := Snd.Fragments(K(g), Columns(Sent(g), N(g)), Emitted(r));
    if frames != [] {
      assert frames[0] in frames;
    }
  }

  /** A repair of this session. */
  predicate RepairsSession(g: Setting, r: Repair) {
    Sound(r) && r.windows != [] && r.nWindows == W(g) && r.nFullTiles == N(g) && r.available == g.available
  }

  lemma EmittedFrames(g: Setting, r: Repair)
    requires Admissible(g) && Shaped(Sent(g), N(g)) && RepairsSession(g, r)
    ensures Within(Emitted(r), N(g)) && |Emitted(r)| <= 1
    ensures forall f :: f in Snd.Fragments(K(g), Columns(Sent(g), N(g)), Emitted(r)) ==>
              Frame(g, f) && FragmentType(f) == RegularFragment
  {
    Snd.InRange(r);
    if Emitted(r) != [] {
      assert Emitted(r)[0] in Emitted(r);
      EmittedWellFormed(r);
      assert Cutting(g, Emitted(r)[0]);
      FragmentIsFrame(g, Emitted(r)[0]);
    }
  }

  lemma ResentRows(r: Repair)
    requires Sound(r) && Target(r) < r.nWindows && Bitmaps(r.rows, r.nWindows)
    ensures Bitmaps(Resend(r).repair.rows, r.nWindows)
  {
  }

  /** What an answer does in each state: ACK(1, 1) makes SEND emit the All-1 and wait, ACK(3, 1) ends a
      sender that waits or resends, a compound ACK makes a waiting sender take up a repair; anything
      else is ignored. */
  lemma SenderReceives(g: Setting, x: Snd.Ctx, m: seq<byte>)
    requires Admissible(g) && Shaped(Sent(g), N(g)) && Snd.Valid(x) && SenderOk(g, x)
    requires m == PositiveAckMsg(1) || m == PositiveAckMsg(3) || Report(g, m)
    ensures m != []
    ensures var o := Snd.Receive(x, m);
            && SenderOk(g, o.ctx)
            && (if x.state == Snd.Send && m == PositiveAckMsg(1) then
                  && o == Snd.Reaction(x.(state := Snd.WaitAck), [AllOneMsg(x.cursor.w, Rcs.Crc32(g.packet), Residue(g.packet))])
                  && Burst(g, o.frames, OneAskedFor, false)
                else if (x.state == Snd.WaitAck || x.state == Snd.Resending) && m == PositiveAckMsg(3) then
                  o == Snd.Reaction(x.(state := Snd.End), [])
                else if x.state == Snd.WaitAck && AckType(m) == CompoundAck then
                  && Report(g, m) && o.ctx.state == Snd.Resending && o.frames == []
                  && AckContents(o.ctx.windows, o.ctx.rows) == ReadAck(m, Compound, x.rows)
                  && o.ctx == x.(state := Snd.Resending, rows := o.ctx.rows, windows := o.ctx.windows)
                else o == Snd.Reaction(x, []))
  {
    ReadPositiveAck(1, ArqFec, x.rows);
    ReadPositiveAck(3, ArqFec, x.rows);
    if x.state == Snd.Send {
      AllOneIsFrame(g, x);
    }
  }

  /** The receiver's report at a waiting sender. With two windows or more it starts a repair of exactly
      the windows reported, with the receiver's flags for them; with one window it is ignored. */
  lemma ReportTaken(g: Setting, x: Rcv.Ctx, y: Snd.Ctx)
    requires Admissible(g) && Shaped(Sent(g), N(g)) && Rcv.Valid(x) && x.lastWindow < W(g)
    requires Snd.Valid(y) && SenderOk(g, y) && y.state == Snd.WaitAck
    ensures var windows := ErrorWindows(x.bitmap, x.lastWindow);
            && Rcv.Report(x) != [] && Reportable(windows, x.bitmap) && Reportable(windows, y.rows)
            && Snd.Receive(y, Rcv.Report(x))
               == if |windows| == 1 then Snd.Reaction(y, [])
                  else Snd.Reaction(y.(state := Snd.Resending, windows := windows, rows := Copied(windows, x.bitmap, y.rows)), [])
  {
    var windows := ErrorWindows(x.bitmap, x.lastWindow);
    assert forall i :: 0 <= i < |windows| ==> windows[i] < W(g) && windows[i] < MAX_WINDOWS;
    assert windows != [];
    CompoundRoundTrip(x.lastWindow, windows, x.bitmap, y.rows);
  }

  // ---- Both together --------------------------------------------------------------------------

  /** At most one All-1 is under way. */
  predicate AtMostOneAllOne(toRcv: multiset<seq<byte>>) {
    forall m, m' :: m in toRcv && m' in toRcv && IsAllOne(m) && IsAllOne(m') ==> m == m' && toRcv[m] == 1
  }

  predicate NoAllOne(toRcv: multiset<seq<byte>>) {
    forall m :: m in toRcv ==> !IsAllOne(m)
  }

  predicate IsAllOne(m: seq<byte>) { m != [] && FragmentType(m) == AllOneFragment }
  predicate IsRequest(m: seq<byte>) { m != [] && FragmentType(m) == AckRequest }

  /** An All-1 nobody asked for exists only once. */
  predicate FewAllOnes(g: Setting, toRcv: multiset<seq<byte>>) {
    ClosesItself(g) ==> AtMostOneAllOne(toRcv)
  }

  ghost predicate Wires(g: Setting, s: Session)
    requires Shaped(Sent(g), N(g)) && K(g) < 256
  {
    && (forall m :: m in s.toRcv ==> Frame(g, m))
    && FewAllOnes(g, s.toRcv)
    && (Sending(s.snd.state) ==> NoAllOne(s.toRcv))
    && (forall m :: m in s.toSnd ==> m == PositiveAckMsg(1) || m == PositiveAckMsg(3) || Report(g, m))
  }

  /** The receiver knows of the All-1, so none will be sent and none nobody asked for is under way. */
  predicate Used(g: Setting, s: Session) {
    !Sending(s.snd.state) && (ClosesItself(g) ==> NoAllOne(s.toRcv))
  }

  predicate Repairing(s: Session) {
    s.rcv.state == Rcv.WaitMissing || s.rcv.state == Rcv.End
  }

  /** An All-1 that was asked for finds a receiver with enough symbols, or one that has delivered. */
  predicate Welcome(g: Setting, s: Session) {
    s.rcv.state == Rcv.WaitAllOne || (s.rcv.state == Rcv.End && s.delivered == [g.packet])
  }

  /** An All-1 that only exists because it was asked for. */
  predicate AskedFor(g: Setting, m: seq<byte>)
    requires m != []
  {
    !ClosesItself(g) || WOf(m) != W(g) - 1
  }

  /** What the answers under way tell. */
  predicate AnswersTell(g: Setting, s: Session) {
    && (s.rcv.state == Rcv.Init || s.rcv.state == Rcv.RcvWindow ==> s.toSnd == multiset{})
    && (s.rcv.state == Rcv.WaitAllOne ==> forall m :: m in s.toSnd ==> m == PositiveAckMsg(1))
    && (PositiveAckMsg(3) in s.toSnd || s.snd.state == Snd.End ==> s.delivered == [g.packet])
  }

  predicate Progress(g: Setting, s: Session) {
    && (Repairing(s) ==> Used(g, s))
    && (s.snd.state == Snd.Resending ==> Repairing(s))
    && (forall m :: m in s.toRcv && IsRequest(m) ==> Repairing(s))
    && (forall m :: m in s.toRcv && IsAllOne(m) && AskedFor(g, m) ==> Welcome(g, s))
    && (s.delivered == [] || s.delivered == [g.packet])
    && (s.rcv.state != Rcv.End ==> s.delivered == [])
  }

  ghost predicate Invariant(g: Setting, s: Session)
    requires Shaped(Sent(g), N(g)) && K(g) < 256
  {
    && Typed(s) && SenderOk(g, s.snd) && OnPlan(g, s.snd) && ReceiverOk(g, s.rcv)
    && Wires(g, s) && AnswersTell(g, s) && Progress(g, s)
  }

  lemma InitialInvariant(g: Setting)
    requires Admissible(g) && Shaped(Sent(g), N(g)) && Snd.Encodable(g.packet, g.code, g.overhead)
    ensures Invariant(g, Initial(g))
  {
  }

  lemma BurstFrames(g: Setting, frames: seq<seq<byte>>, allOnes: AllOnes, requests: bool)
    requires Shaped(Sent(g), N(g)) && K(g) < 256 && Burst(g, frames, allOnes, requests)
    ensures AtMostOneAllOne(multiset(frames)) && (allOnes == NoneAllowed ==> NoAllOne(multiset(frames)))
    ensures forall m :: m in multiset(frames) ==>
              Frame(g, m) && (IsRequest(m) ==> requests) && (IsAllOne(m) ==> AllOneAllowed(g, m, allOnes))
  {
    if |frames| == 0 {
      assert frames == [];
    } else if |frames| == 1 {
      assert frames == [frames[0]];
    } else {
      assert frames == [frames[0], frames[1]];
      assert !IsAllOne(frames[0]);
    }
  }

  lemma JoinAllOne(a: multiset<seq<byte>>, b: multiset<seq<byte>>)
    requires AtMostOneAllOne(a) && AtMostOneAllOne(b) && (NoAllOne(a) || NoAllOne(b))
    ensures AtMostOneAllOne(a + b) && (NoAllOne(a) && NoAllOne(b) ==> NoAllOne(a + b))
  {
  }

  lemma JoinFrames(g: Setting, a: multiset<seq<byte>>, b: multiset<seq<byte>>)
    requires FewAllOnes(g, a) && AtMostOneAllOne(b) && (NoAllOne(a) || NoAllOne(b))
    ensures FewAllOnes(g, a + b) && (NoAllOne(a) && NoAllOne(b) ==> NoAllOne(a + b))
  {
    if ClosesItself(g) {
      JoinAllOne(a, b);
    }
  }

  /** Frames added by the sender: nothing ill-formed, and one All-1 only when there was none. */
  lemma Sends(g: Setting, s: Session, frames: seq<seq<byte>>, allOnes: AllOnes, requests: bool, t: Session)
    requires Admissible(g) && Shaped(Sent(g), N(g)) && Invariant(g, s)
    requires Snd.Valid(t.snd) && SenderOk(g, t.snd) && OnPlan(g, t.snd)
    requires Burst(g, frames, allOnes, requests)
    requires t == s.(snd := t.snd, toRcv := s.toRcv + multiset(frames))
    requires allOnes != NoneAllowed ==> Sending(s.snd.state) && !Sending(t.snd.state)
    requires allOnes == OneCloses ==> ClosesItself(g)
    requires allOnes == OneAskedFor ==> s.rcv.state == Rcv.WaitAllOne
    requires requests ==> s.snd.state == Snd.Resending
    requires Sending(t.snd.state) ==> Sending(s.snd.state)
    requires t.snd.state == Snd.Resending ==> s.snd.state == Snd.Resending || Repairing(s)
    requires t.snd.state == Snd.End ==> s.delivered == [g.packet]
    ensures Invariant(g, t)
  {
    BurstFrames(g, frames, allOnes, requests);
    JoinFrames(g, s.toRcv, multiset(frames));
    SendsProgress(g, s, multiset(frames), allOnes, requests, t);
  }

  lemma SendsProgress(g: Setting, s: Session, added: multiset<seq<byte>>, allOnes: AllOnes, requests: bool, t: Session)
    requires AnswersTell(g, s) && Progress(g, s) && t == s.(snd := t.snd, toRcv := s.toRcv + added)
    requires NoAllOne(s.toRcv) && NoAllOne(added) ==> NoAllOne(t.toRcv)
    requires allOnes == NoneAllowed ==> NoAllOne(added)
    requires forall m :: m in added && IsAllOne(m) ==> AllOneAllowed(g, m, allOnes)
    requires forall m :: m in added && IsRequest(m) ==> requests
    requires allOnes != NoneAllowed ==> Sending(s.snd.state) && !Sending(t.snd.state)
    requires allOnes == OneCloses ==> ClosesItself(g)
    requires allOnes == OneAskedFor ==> s.rcv.state == Rcv.WaitAllOne
    requires requests ==> s.snd.state == Snd.Resending
    requires Sending(t.snd.state) ==> Sending(s.snd.state)
    requires t.snd.state == Snd.Resending ==> s.snd.state == Snd.Resending || Repairing(s)
    requires t.snd.state == Snd.End ==> s.delivered == [g.packet]
    ensures AnswersTell(g, t) && Progress(g, t)
  {
  }

  lemma SenderBegins(g: Setting, s: Session)
    requires Admissible(g) && Shaped(Sent(g), N(g)) && Invariant(g, s)
    ensures Invariant(g, Step(g, s, Start))
  {
    if s.snd.state == Snd.Init {
      SenderStarts(g, s.snd);
      var o := Snd.First(s.snd, g.available);
      Sends(g, s, o.frames, if o.ctx.state != Snd.Send && ClosesItself(g) then OneCloses else NoneAllowed, false, Step(g, s, Start));
    }
  }

  lemma SenderExecutes(g: Setting, s: Session)
    requires Admissible(g) && Shaped(Sent(g), N(g)) && Invariant(g, s)
    ensures Invariant(g, Step(g, s, Execute))
  {
    if s.snd.state == Snd.Send {
      SenderSends(g, s.snd);
      var o := Snd.SendNext(s.snd, g.available);
      Sends(g, s, o.frames, if o.ctx.state != Snd.Send && ClosesItself(g) then OneCloses else NoneAllowed, false, Step(g, s, Execute));
    } else if s.snd.state == Snd.Resending {
      SenderResends(g, s.snd);
      var o := Snd.ResendNext(s.snd, g.available);
      Sends(g, s, o.frames, NoneAllowed, true, Step(g, s, Execute));
    } else {
      assert s.toRcv + multiset([]) == s.toRcv;
      assert Step(g, s, Execute) == s;
    }
  }

  lemma AnswerLost(g: Setting, s: Session, m: seq<byte>)
    requires Admissible(g) && Shaped(Sent(g), N(g)) && Invariant(g, s)
    ensures Invariant(g, s.(toSnd := s.toSnd - multiset{m}))
  {
  }

  lemma FrameLost(g: Setting, s: Session, m: seq<byte>)
    requires Admissible(g) && Shaped(Sent(g), N(g)) && Invariant(g, s)
    ensures Invariant(g, s.(toRcv := s.toRcv - multiset{m}))
  {
    FewerFrames(s.toRcv, m);
  }

  lemma FewerFrames(toRcv: multiset<seq<byte>>, m: seq<byte>)
    ensures AtMostOneAllOne(toRcv) ==> AtMostOneAllOne(toRcv - multiset{m})
    ensures NoAllOne(toRcv) ==> NoAllOne(toRcv - multiset{m})
  {
  }

  /** Two of the same answer tell no more than one. */
  lemma AnswerDuplicated(g: Setting, s: Session, m: seq<byte>)
    requires Admissible(g) && Shaped(Sent(g), N(g)) && Invariant(g, s)
    ensures Invariant(g, Step(g, s, DuplicateAnswer(m)))
  {
    if m in s.toSnd {
      assert forall a :: a in s.toSnd + multiset{m} <==> a in s.toSnd;
    }
  }

  /** A frame is duplicated: any frame but an All-1 nobody asked for. */
  lemma FrameDuplicated(g: Setting, s: Session, m: seq<byte>)
    requires Admissible(g) && Shaped(Sent(g), N(g)) && Invariant(g, s) && (IsAllOne(m) ==> !ClosesItself(g))
    ensures Invariant(g, Step(g, s, DuplicateFrame(m)))
  {
    if m in s.toRcv {
      SameFrames(s.toRcv, m);
      MoreOfTheSame(g, s, s.toRcv + multiset{m});
      assert Step(g, s, DuplicateFrame(m)) == s.(toRcv := s.toRcv + multiset{m});
    }
  }

  lemma MoreOfTheSame(g: Setting, s: Session, toRcv: multiset<seq<byte>>)
    requires Admissible(g) && Shaped(Sent(g), N(g)) && Invariant(g, s)
    requires forall f :: f in toRcv <==> f in s.toRcv
    requires NoAllOne(toRcv) <==> NoAllOne(s.toRcv)
    requires FewAllOnes(g, toRcv)
    ensures Invariant(g, s.(toRcv := toRcv))
  {
  }

  lemma SameFrames(toRcv: multiset<seq<byte>>, m: seq<byte>)
    requires m in toRcv
    ensures forall f :: f in toRcv + multiset{m} <==> f in toRcv
    ensures NoAllOne(toRcv + multiset{m}) <==> NoAllOne(toRcv)
    ensures !IsAllOne(m) && AtMostOneAllOne(toRcv) ==> AtMostOneAllOne(toRcv + multiset{m})
  {
  }

  lemma AnswerArrives(g: Setting, s: Session, m: seq<byte>)
    requires Admissible(g) && Shaped(Sent(g), N(g)) && Invariant(g, s) && m in s.toSnd
    ensures Invariant(g, Step(g, s, Answer(m)))
  {
    SenderReceives(g, s.snd, m);
    AnswerLost(g, s, m);
    AnswerFinds(g, s, m);
    var o := Snd.Receive(s.snd, m);
    var without := s.(toSnd := s.toSnd - multiset{m});
    var t := without.(snd := o.ctx, toRcv := s.toRcv + multiset(o.frames));
    assert Step(g, s, Answer(m)) == t;
    AnswerTaken(g, without, o, m, t);
  }

  lemma AnswerTaken(g: Setting, s: Session, o: Snd.Reaction, m: seq<byte>, t: Session)
    requires Admissible(g) && Shaped(Sent(g), N(g)) && Invariant(g, s)
    requires Snd.Valid(o.ctx) && SenderOk(g, o.ctx) && OnPlan(g, o.ctx)
    requires t == s.(snd := o.ctx, toRcv := s.toRcv + multiset(o.frames))
    requires if o.frames == [] then !Sending(s.snd.state) ==> !Sending(o.ctx.state)
             else Burst(g, o.frames, OneAskedFor, false) && Sending(s.snd.state) && !Sending(o.ctx.state) && s.rcv.state == Rcv.WaitAllOne
    requires o.ctx.state == Snd.Resending ==> s.snd.state == Snd.Resending || Repairing(s)
    requires o.ctx.state == Snd.End ==> s.delivered == [g.packet]
    ensures Invariant(g, t)
  {
    Sends(g, s, o.frames, if o.frames == [] then NoneAllowed else OneAskedFor, false, t);
  }

  /** A report under way means that the repair phase has begun; an answer that reaches SEND comes
      from a receiver that waits for the All-1. */
  lemma AnswerFinds(g: Setting, s: Session, m: seq<byte>)
    requires Admissible(g) && Shaped(Sent(g), N(g)) && Invariant(g, s) && m in s.toSnd
    ensures Report(g, m) ==> Repairing(s)
    ensures Sending(s.snd.state) ==> s.rcv.state == Rcv.WaitAllOne
  {
    ReadPositiveAck(1, ArqFec, []);
  }

  lemma TakeOut(toRcv: multiset<seq<byte>>, m: seq<byte>)
    requires m in toRcv && AtMostOneAllOne(toRcv)
    ensures AtMostOneAllOne(toRcv - multiset{m}) && (IsAllOne(m) || NoAllOne(toRcv) ==> NoAllOne(toRcv - multiset{m}))
  {
  }

  /** A frame has been taken in: what must be known of the outcome. */
  predicate Plausible(g: Setting, s: Session, m: seq<byte>, o: Rcv.Reaction) {
    && (o.delivered == [] || (o.delivered == [g.packet] && s.rcv.state != Rcv.End && o.ctx.state == Rcv.End))
    && (o.ctx.state == Rcv.Init || o.ctx.state == Rcv.RcvWindow ==>
          (s.rcv.state == Rcv.Init || s.rcv.state == Rcv.RcvWindow) && o.replies == [])
    && (o.ctx.state == Rcv.WaitAllOne ==> !Repairing(s))
    && s.rcv.state != Rcv.Fault && (s.rcv.state == Rcv.End ==> o.ctx.state == Rcv.End)
    && (Repairing(s) ==> o.ctx.state == Rcv.WaitMissing || o.ctx.state == Rcv.End)
    && (o.ctx.state == Rcv.WaitMissing || o.ctx.state == Rcv.End ==> Repairing(s) || IsAllOne(m))
    && (s.rcv.state == Rcv.WaitAllOne ==>
          if IsAllOne(m) then o.ctx.state == Rcv.End && o.delivered == [g.packet] else o.ctx.state == Rcv.WaitAllOne)
  }

  ghost predicate Answers(g: Setting, before: seq<seq<byte>>, o: Rcv.Reaction) {
    forall r :: r in o.replies ==>
      || (r == PositiveAckMsg(3) && before + o.delivered == [g.packet])
      || (r == PositiveAckMsg(1) && o.ctx.state == Rcv.WaitAllOne)
      || (Report(g, r) && o.ctx.state == Rcv.WaitMissing)
  }

  lemma ReceivesWires(g: Setting, s: Session, m: seq<byte>, o: Rcv.Reaction)
    requires Admissible(g) && Shaped(Sent(g), N(g)) && Wires(g, s) && m in s.toRcv && Answers(g, s.delivered, o)
    ensures Wires(g, s.(rcv := o.ctx, toRcv := s.toRcv - multiset{m}, toSnd := s.toSnd + multiset(o.replies),
                        delivered := s.delivered + o.delivered))
  {
    FewerFrames(s.toRcv, m);
    assert forall r :: r in multiset(o.replies) <==> r in o.replies;
  }

  lemma ReceivesTell(g: Setting, s: Session, m: seq<byte>, o: Rcv.Reaction, t: Session)
    requires AnswersTell(g, s) && Progress(g, s) && Plausible(g, s, m, o) && Answers(g, s.delivered, o)
    requires t.rcv == o.ctx && t.snd == s.snd && t.toSnd == s.toSnd + multiset(o.replies) && t.delivered == s.delivered + o.delivered
    ensures AnswersTell(g, t)
  {
    ReadPositiveAck(1, ArqFec, []);
    ReadPositiveAck(3, ArqFec, []);
    forall r | r in t.toSnd ensures r in s.toSnd || r in o.replies {
    }
    if PositiveAckMsg(3) in o.replies {
      assert !Report(g, PositiveAckMsg(3));
    }
    if t.rcv.state == Rcv.Init || t.rcv.state == Rcv.RcvWindow {
      assert multiset(o.replies) == multiset{};
    }
  }

  lemma ReceivesProgress(g: Setting, s: Session, m: seq<byte>, o: Rcv.Reaction, t: Session)
    requires Progress(g, s) && Plausible(g, s, m, o) && m in s.toRcv && FewAllOnes(g, s.toRcv)
    requires Sending(s.snd.state) ==> NoAllOne(s.toRcv)
    requires t.rcv == o.ctx && t.snd == s.snd && t.toRcv == s.toRcv - multiset{m} && t.delivered == s.delivered + o.delivered
    ensures Progress(g, t)
  {
    if ClosesItself(g) {
      TakeOut(s.toRcv, m);
    } else {
      FewerFrames(s.toRcv, m);
    }
  }

  /** What a regular fragment may lead to. */
  predicate FragmentLeads(g: Setting, before: Rcv.State, o: Rcv.Reaction) {
    && (before == Rcv.Init ==> o.ctx.state == Rcv.RcvWindow && o.replies == [] && o.delivered == [])
    && (before == Rcv.RcvWindow ==>
          && o.delivered == []
          && if o.ctx.state == Rcv.RcvWindow then o.replies == [] else o.ctx.state == Rcv.WaitAllOne && o.replies == [PositiveAckMsg(1)])
    && (before == Rcv.WaitMissing ==>
          if o.ctx.state == Rcv.WaitMissing then o.replies == [] && o.delivered == []
          else o.ctx.state == Rcv.End && o.replies == [PositiveAckMsg(3)] && o.delivered == [g.packet])
    && (before == Rcv.WaitAllOne || before == Rcv.End ==> o.ctx.state == before && o.replies == [] && o.delivered == [])
  }

  lemma LedPlausible(g: Setting, s: Session, m: seq<byte>, o: Rcv.Reaction)
    requires FragmentLeads(g, s.rcv.state, o) && !IsAllOne(m) && s.rcv.state != Rcv.Fault
    requires s.rcv.state != Rcv.End ==> s.delivered == []
    ensures Plausible(g, s, m, o) && Answers(g, s.delivered, o)
  {
  }

  lemma FragmentOutcome(g: Setting, s: Session, m: seq<byte>, p: Piece)
    requires Admissible(g) && Shaped(Sent(g), N(g)) && Invariant(g, s) && m in s.toRcv
    requires FragmentType(m) == RegularFragment && IsFragment(g, m, p)
    ensures var o := Rcv.Receive(s.rcv, m);
            ReceiverOk(g, o.ctx) && Plausible(g, s, m, o) && Answers(g, s.delivered, o)
  {
    ReceivesFragment(g, s.rcv, m, p);
    LedPlausible(g, s, m, Rcv.Receive(s.rcv, m));
  }

  lemma AllOneOutcome(g: Setting, s: Session, m: seq<byte>)
    requires Admissible(g) && Shaped(Sent(g), N(g)) && Invariant(g, s) && m in s.toRcv
    requires IsAllOne(m)
    ensures var o := Rcv.Receive(s.rcv, m);
            ReceiverOk(g, o.ctx) && Plausible(g, s, m, o) && Answers(g, s.delivered, o)
  {
    assert (ClosesItself(g) ==> !Repairing(s)) && (AskedFor(g, m) ==> Welcome(g, s));
    ReceivesAllOne(g, s.rcv, m);
    if s.rcv.state == Rcv.WaitAllOne {
      EnoughTiles(s.rcv.m, N(g), K(g));
    }
  }

  lemma RequestOutcome(g: Setting, s: Session, m: seq<byte>)
    requires Admissible(g) && Shaped(Sent(g), N(g)) && Invariant(g, s) && m in s.toRcv
    requires IsRequest(m)
    ensures var o := Rcv.Receive(s.rcv, m);
            ReceiverOk(g, o.ctx) && Plausible(g, s, m, o) && Answers(g, s.delivered, o)
  {
    ReceivesAckRequest(g, s.rcv, m);
  }

  lemma Outcome(g: Setting, s: Session, m: seq<byte>)
    requires Admissible(g) && Shaped(Sent(g), N(g)) && Invariant(g, s) && m in s.toRcv
    ensures var o := Rcv.Receive(s.rcv, m);
            ReceiverOk(g, o.ctx) && Plausible(g, s, m, o) && Answers(g, s.delivered, o)
  {
    if FragmentType(m) == RegularFragment {
      var p :| IsFragment(g, m, p);
      FragmentOutcome(g, s, m, p);
    } else if FragmentType(m) == AllOneFragment {
      AllOneOutcome(g, s, m);
    } else {
      RequestOutcome(g, s, m);
    }
  }

  lemma FrameArrives(g: Setting, s: Session, m: seq<byte>)
    requires Admissible(g) && Shaped(Sent(g), N(g)) && Invariant(g, s) && m in s.toRcv
    ensures Invariant(g, Step(g, s, Deliver(m)))
  {
    Outcome(g, s, m);
    var o := Rcv.Receive(s.rcv, m);
    var t := s.(rcv := o.ctx, toRcv := s.toRcv - multiset{m}, toSnd := s.toSnd + multiset(o.replies),
                delivered := s.delivered + o.delivered);
    assert Step(g, s, Deliver(m)) == t;
    ReceivesWires(g, s, m, o);
    ReceivesTell(g, s, m, o, t);
    ReceivesProgress(g, s, m, o, t);
  }

  /** The event does not duplicate an All-1, or the sender sends none without being asked. */
  predicate Tolerable(g: Setting, e: Event) {
    e.DuplicateFrame? && IsAllOne(e.m) ==> !ClosesItself(g)
  }

  lemma StepKeepsInvariant(g: Setting, s: Session, e: Event)
    requires Admissible(g) && Shaped(Sent(g), N(g)) && Invariant(g, s) && Tolerable(g, e)
    ensures Invariant(g, Step(g, s, e))
  {
    match e
    case Start => SenderBegins(g, s);
    case Execute => SenderExecutes(g, s);
    case Deliver(m) => if m in s.toRcv { FrameArrives(g, s, m); }
    case Answer(m) => if m in s.toSnd { AnswerArrives(g, s, m); }
    case LoseFrame(m) => FrameLost(g, s, m);
    case LoseAnswer(m) => AnswerLost(g, s, m);
    case DuplicateFrame(m) => FrameDuplicated(g, s, m);
    case DuplicateAnswer(m) => AnswerDuplicated(g, s, m);
  }

  predicate AllTolerable(g: Setting, events: seq<Event>) {
    forall e :: e in events ==> Tolerable(g, e)
  }

  lemma {:induction false} RunKeepsInvariant(g: Setting, events: seq<Event>)
    requires Admissible(g) && Shaped(Sent(g), N(g)) && Snd.Encodable(g.packet, g.code, g.overhead) && AllTolerable(g, events)
    ensures Invariant(g, After(g, events))
  {
    if events == [] {
      InitialInvariant(g);
    } else {
      RunKeepsInvariant(g, events[..|events| - 1]);
      StepKeepsInvariant(g, After(g, events[..|events| - 1]), events[|events| - 1]);
    }
  }

  /** Safety in every run: at most one delivery, of the sender's packet; the sender ends only after
      it; no side ever leaves a buffer. Frames and answers may be lost, reordered and duplicated, all
      but an All-1 nobody asked for. */
  lemma SessionSafety(g: Setting, events: seq<Event>)
    requires Admissible(g) && AllTolerable(g, events)
    ensures Snd.Encodable(g.packet, g.code, g.overhead)
    ensures var s := After(g, events);
            && (s.delivered == [] || s.delivered == [g.packet])
            && (s.snd.state == Snd.End ==> s.delivered == [g.packet])
            && s.snd.state != Snd.Fault && s.rcv.state != Rcv.Fault
  {
    AdmissibleEncodable(g);
    RunKeepsInvariant(g, events);
  }

  /** Receiver states in every run: waiting for the All-1 means enough symbols arrived; waiting for
      missing fragments means not enough did, and last tile and RCS are already the sender's. */
  lemma ReceiverStates(g: Setting, events: seq<Event>)
    requires Admissible(g) && AllTolerable(g, events)
    ensures Snd.Encodable(g.packet, g.code, g.overhead)
    ensures var x := After(g, events).rcv;
            && (x.state == Rcv.WaitAllOne ==> EnoughSymbols(x.m, K(g)))
            && (x.state == Rcv.WaitMissing ==>
                  !EnoughSymbols(x.m, K(g)) && x.lastTile == Residue(g.packet) && x.rcs == Rcs.Crc32(g.packet))
            && (Rcv.Receiving(x.state) ==> Faithful(x.c, x.m, Sent(g), N(g)))
  {
    AdmissibleEncodable(g);
    RunKeepsInvariant(g, events);
  }

  /** In every run, with as many tiles in a frame as the MTU holds behind the header and `k`, no
      fragment exceeds the MTU. */
  lemma FragmentsFitMtu(g: Setting, events: seq<Event>, mtu: nat, m: seq<byte>)
    requires Admissible(g) && AllTolerable(g, events) && mtu >= 2 && g.available == (mtu - 2) / TILE_SIZE
    ensures Snd.Encodable(g.packet, g.code, g.overhead)
    ensures m in After(g, events).toRcv && m != [] && FragmentType(m) == RegularFragment ==> |m| <= mtu
  {
    AdmissibleEncodable(g);
    RunKeepsInvariant(g, events);
    if m in After(g, events).toRcv && m != [] && FragmentType(m) == RegularFragment {
      var p :| IsFragment(g, m, p);
      FragmentIsFrame(g, p);
    }
  }

  // ---- When duplication does harm ---------------------------------------------------------------

  /** Executions of SEND, one event each, until the sender waits. */
  lemma {:induction false} ExecuteAll(g: Setting, s: Session) returns (n: nat)
    requires Typed(s) && g.available > 0 && s.snd.state == Snd.Send && s.snd.cursor.ptr <= |s.snd.tiles|
    ensures var o := Snd.SendAll(s.snd, g.available);
            Continued(g, s, Repeat(Execute, n)) == s.(snd := o.ctx, toRcv := s.toRcv + multiset(o.frames))
    decreases |s.snd.tiles| - s.snd.cursor.ptr
  {
    var o := Snd.SendNext(s.snd, g.available);
    if o.ctx.state != Snd.Send {
      n := 1;
      OneEvent(g, s, Execute);
      assert Repeat(Execute, 1) == [Execute];
    } else {
      Snd.SendNextIsPlanned(s.snd, g.available);
      var k := ExecuteAll(g, Step(g, s, Execute));
      ExecutesFirst(g, s, k);
      Pooled(s.toRcv, o.frames, Snd.SendAll(o.ctx, g.available).frames);
      n := k + 1;
    }
  }

  lemma ExecutesFirst(g: Setting, s: Session, k: nat)
    requires Typed(s) && g.available > 0
    ensures Continued(g, s, Repeat(Execute, k + 1)) == Continued(g, Step(g, s, Execute), Repeat(Execute, k))
  {
    OneEvent(g, s, Execute);
    ContinuedTwice(g, s, [Execute], Repeat(Execute, k));
    assert [Execute] + Repeat(Execute, k) == Repeat(Execute, k + 1);
  }

  lemma Pooled(toRcv: multiset<seq<byte>>, a: seq<seq<byte>>, b: seq<seq<byte>>)
    ensures toRcv + multiset(a) + multiset(b) == toRcv + multiset(a + b)
  {
  }

  lemma OneEvent(g: Setting, s: Session, e: Event)
    requires Typed(s) && g.available > 0
    ensures Continued(g, s, [e]) == Step(g, s, e)
  {
    assert [e][..0] == [];
  }

  lemma OneMoreEvent(g: Setting, s: Session, events: seq<Event>, e: Event)
    requires Typed(s) && g.available > 0
    ensures Continued(g, s, events + [e]) == Step(g, Continued(g, s, events), e)
  {
    assert (events + [e])[..|events|] == events;
  }

  /** A run in which the whole transmission is under way and nothing has arrived. */
  lemma TransmissionRun(g: Setting) returns (events: seq<Event>)
    requires Admissible(g)
    ensures Snd.Encodable(g.packet, g.code, g.overhead)
    ensures var o := Snd.Transmission(Initial(g).snd, g.available);
            After(g, events) == Initial(g).(snd := o.ctx, toRcv := multiset(o.frames))
    ensures forall e :: e in events ==> e.Start? || e.Execute?
  {
    AdmissibleEncodable(g);
    var s := Initial(g);
    var o := Snd.First(s.snd, g.available);
    var t := Step(g, s, Start);
    OneEvent(g, s, Start);
    assert multiset{} + multiset(o.frames) == multiset(o.frames);
    if o.ctx.state != Snd.Send {
      events := [Start];
    } else {
      var n := ExecuteAll(g, t);
      ContinuedTwice(g, s, [Start], Repeat(Execute, n));
      var rest := Snd.SendAll(o.ctx, g.available).frames;
      assert multiset(o.frames) + multiset(rest) == multiset(o.frames + rest);
      events := [Start] + Repeat(Execute, n);
    }
  }

  /** The last planned piece starts in the last window exactly when `ClosesItself` says so. */
  lemma ClosingExactly(g: Setting)
    requires Admissible(g)
    ensures Snd.Encodable(g.packet, g.code, g.overhead)
    ensures Snd.PlanEnd(Initial(g).snd, g.available).at.w == W(g) - 1 <==> ClosesItself(g)
  {
    AdmissibleEncodable(g);
    var x := Initial(g).snd;
    if (if x.nWindows == 1 then |x.tiles| else WINDOW_SIZE) > g.available {
      Snd.PlanIsSendPlan(x, g.available);
      OneWindow(g);
    }
  }

  /** In a session of one window every piece starts in it. */
  lemma OneWindow(g: Setting)
    requires Admissible(g) && g.available < WINDOW_SIZE
    ensures W(g) == 1 ==> LastPiece(START, N(g), g.available).at.w == 0
  {
    SendPlanExact(START, N(g), g.available);
    var plan := SendPlan(START, N(g), g.available);
    SendPlanWithin(START, N(g), g.available);
    assert plan[|plan| - 1] in plan;
  }

  /** The same in numbers a caller has: the last piece starts at the last multiple of a frame's tiles. */
  lemma ClosesItselfInNumbers(g: Setting)
    requires Admissible(g)
    ensures ClosesItself(g) <==>
              W(g) == 1 || (g.available < WINDOW_SIZE && RoundedDown(g.available, N(g) - 1) >= WINDOW_SIZE * (W(g) - 1))
  {
    if W(g) != 1 && g.available < WINDOW_SIZE {
      LastPieceStarts(START, N(g), g.available);
      SendPlanExact(START, N(g), g.available);
      SendPlanWithin(START, N(g), g.available);
      var p := LastPiece(START, N(g), g.available);
      assert p in SendPlan(START, N(g), g.available);
      assert p.at.ptr == RoundedDown(g.available, N(g) - 1);
    }
  }

  lemma EmptyHandedEnd(g: Setting, s: Session, m: seq<byte>)
    requires Typed(s) && g.available > 0 && s.rcv.state == Rcv.Init && m in s.toRcv && IsAllOne(m)
    ensures Step(g, Step(g, s, DuplicateFrame(m)), Deliver(m)) == s.(rcv := s.rcv.(state := Rcv.End))
  {
    assert Rcv.Receive(s.rcv, m) == Rcv.Reaction(s.rcv.(state := Rcv.End), [], []);
    assert s.toRcv + multiset{m} - multiset{m} == s.toRcv && s.toSnd + multiset([]) == s.toSnd;
    assert s.delivered + [] == s.delivered;
  }

  lemma FalseAcknowledgement(g: Setting, s: Session, m: seq<byte>)
    requires Typed(s) && g.available > 0 && s.rcv.state == Rcv.End && m in s.toRcv && IsAllOne(m)
    ensures var t := Step(g, s, Deliver(m));
            PositiveAckMsg(3) in t.toSnd && t.snd == s.snd && t.delivered == s.delivered
  {
    assert Rcv.Receive(s.rcv, m) == Rcv.Reaction(s.rcv, [PositiveAckMsg(3)], []);
    assert s.delivered + [] == s.delivered;
  }

  lemma EndsOnAcknowledgement(g: Setting, s: Session)
    requires Typed(s) && g.available > 0 && s.snd.state == Snd.WaitAck && PositiveAckMsg(3) in s.toSnd
    ensures var t := Step(g, s, Answer(PositiveAckMsg(3)));
            t.snd.state == Snd.End && t.delivered == s.delivered
  {
    ReadPositiveAck(3, ArqFec, []);
  }

  /** The All-1 is duplicated, delivered, delivered again, and the answer is delivered. */
  function TwiceThenAnswered(m: seq<byte>): seq<Event> {
    [DuplicateFrame(m), Deliver(m)] + [Deliver(m), Answer(PositiveAckMsg(3))]
  }

  lemma TwiceEnds(g: Setting, s: Session, m: seq<byte>)
    requires Typed(s) && g.available > 0 && m in s.toRcv && IsAllOne(m)
    requires s.rcv.state == Rcv.Init && s.snd.state == Snd.WaitAck && s.delivered == []
    ensures var t := Continued(g, s, TwiceThenAnswered(m));
            t.snd.state == Snd.End && t.delivered == []
  {
    EmptyHandedEnd(g, s, m);
    var t := Step(g, Step(g, s, DuplicateFrame(m)), Deliver(m));
    FalseAcknowledgement(g, t, m);
    EndsOnAcknowledgement(g, Step(g, t, Deliver(m)));
    TwoEvents(g, s, DuplicateFrame(m), Deliver(m));
    TwoEvents(g, t, Deliver(m), Answer(PositiveAckMsg(3)));
    ContinuedTwice(g, s, [DuplicateFrame(m), Deliver(m)], [Deliver(m), Answer(PositiveAckMsg(3))]);
  }

  lemma TwoEvents(g: Setting, s: Session, a: Event, b: Event)
    requires Typed(s) && g.available > 0
    ensures Continued(g, s, [a, b]) == Step(g, Step(g, s, a), b)
  {
    OneEvent(g, s, a);
    OneMoreEvent(g, s, [a], b);
    assert [a] + [b] == [a, b];
  }

  /** The sender has ended although nothing was delivered. */
  predicate EndsInVain(g: Setting, events: seq<Event>)
    requires Snd.Encodable(g.packet, g.code, g.overhead) && g.available > 0
  {
    After(g, events).snd.state == Snd.End && After(g, events).delivered == []
  }

  /** Some run lets the sender end with nothing delivered exactly when the transmission closes itself
      with an All-1: two copies of it that come before any fragment make the receiver end empty-handed
      and then acknowledge. An All-1 sent in answer to ACK(1, 1) does no harm however often it comes. */
  lemma DuplicationBreaksSafety(g: Setting)
    requires Admissible(g)
    ensures Snd.Encodable(g.packet, g.code, g.overhead)
    ensures (exists events :: EndsInVain(g, events)) <==> ClosesItself(g)
  {
    AdmissibleEncodable(g);
    if ClosesItself(g) {
      var events := HarmfulRun(g);
      assert EndsInVain(g, events);
    } else {
      forall events ensures !EndsInVain(g, events) {
        SessionSafety(g, events);
      }
    }
  }

  /** The whole transmission is under way, its All-1 included, and the sender waits. */
  lemma ClosedRun(g: Setting) returns (events: seq<Event>, m: seq<byte>)
    requires Admissible(g) && ClosesItself(g)
    ensures Snd.Encodable(g.packet, g.code, g.overhead)
    ensures var s := After(g, events);
            && s.snd.state == Snd.WaitAck && s.rcv.state == Rcv.Init && s.delivered == []
            && m in s.toRcv && IsAllOne(m)
  {
    events := TransmissionRun(g);
    m := ClosingFrame(g);
  }

  lemma ClosingFrame(g: Setting) returns (m: seq<byte>)
    requires Admissible(g) && ClosesItself(g)
    ensures Snd.Encodable(g.packet, g.code, g.overhead) && IsAllOne(m)
    ensures var o := Snd.Transmission(Initial(g).snd, g.available);
            m in multiset(o.frames) && o.ctx.state == Snd.WaitAck
  {
    ClosingExactly(g);
    var x := Initial(g).snd;
    Snd.TransmissionCloses(x, g.available);
    m := AllOneMsg(W(g) - 1, x.rcs, x.lastTile);
    AllOneMsgIsAllOne(W(g) - 1, x.rcs, x.lastTile);
  }

  lemma AllOneMsgIsAllOne(w: nat, rcs: Rcs.word, lastTile: seq<byte>)
    requires w < MAX_WINDOWS
    ensures IsAllOne(AllOneMsg(w, rcs, lastTile))
  {
    ReadAllOne(w, rcs, lastTile);
  }

  lemma HarmfulRun(g: Setting) returns (events: seq<Event>)
    requires Admissible(g) && ClosesItself(g)
    ensures Snd.Encodable(g.packet, g.code, g.overhead) && EndsInVain(g, events)
  {
    var before, m := ClosedRun(g);
    TwiceEnds(g, After(g, before), m);
    ContinuedTwice(g, Initial(g), before, TwiceThenAnswered(m));
    events := before + TwiceThenAnswered(m);
  }
}
