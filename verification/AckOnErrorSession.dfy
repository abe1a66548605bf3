/** An ACK-on-Error session, in session or compound mode: sender and receiver joined by channels that
    may lose, reorder and repeat anything sent. */
module AckOnErrorSession {
  import opened Bytes
  import opened Message
  import opened Tiling
  import opened Numbering
  import opened Retransmission
  import opened WindowBitmaps
  import Rcs
  import Snd = AckOnErrorSender
  import Rcv = AckOnErrorReceiver

  /** `rcs` is what the receiver's RCS register holds before any All-1. */
  datatype Setting = Setting(packet: seq<byte>, mode: Rcv.Mode, available: nat, rcs: Rcs.word)

  function N(g: Setting): nat requires g.packet != [] { FullTiles(|g.packet|) }
  function W(g: Setting): nat { WindowsFor(|g.packet|) }

  /** A packet of 1 to 2520 bytes and frames of 1 to 63 tiles. */
  predicate Admissible(g: Setting) {
    1 <= |g.packet| <= MAX_PACKET && 1 <= g.available <= WINDOW_SIZE
  }

  // ---- Runs -----------------------------------------------------------------------------------

  /** The channels remember everything ever sent: any of it may arrive at any time, any number of
      times, or never. */
  datatype Session = Session(snd: Snd.Ctx, rcv: Rcv.Ctx, toRcv: set<seq<byte>>, toSnd: set<seq<byte>>)

  datatype Event =
    | Start // the packet is handed to the sender
    | Execute // the sender runs without a message
    | Timeout // the retransmission timer expires
    | Deliver(m: seq<byte>) // a frame reaches the receiver
    | Answer(m: seq<byte>) // an answer reaches the sender

  predicate Typed(s: Session) {
    Snd.Valid(s.snd) && Rcv.Valid(s.rcv)
  }

  function Elements(frames: seq<seq<byte>>): set<seq<byte>> {
    set f | f in frames
  }

  function Initial(g: Setting): (s: Session)
    ensures Typed(s)
  {
    Session(Snd.Fresh(g.mode), Rcv.Fresh(g.mode, g.rcs), {}, {})
  }

  /** An event that is not possible leaves everything as it is. */
  function Step(g: Setting, s: Session, e: Event): (t: Session)
    requires Typed(s) && Admissible(g)
    ensures Typed(t)
  {
    match e
    case Start => if s.snd.state == Snd.Init then s.(snd := Snd.Start(s.snd, g.packet)) else s
    case Execute =>
      var o := Snd.Execute(s.snd, g.available);
      s.(snd := o.ctx, toRcv := s.toRcv + Elements(o.frames))
    case Timeout =>
      var o := Snd.Timeout(s.snd);
      s.(snd := o.ctx, toRcv := s.toRcv + Elements(o.frames))
    case Deliver(m) =>
      if m !in s.toRcv || m == [] then s
      else
        var o := Rcv.Receive(s.rcv, m);
        s.(rcv := o.ctx, toSnd := s.toSnd + Elements(o.replies))
    case Answer(m) =>
      if m !in s.toSnd || m == [] then s
      else
        var o := Snd.Receive(s.snd, m, g.available);
        s.(snd := o.ctx, toRcv := s.toRcv + Elements(o.frames))
  }

  function Continued(g: Setting, s: Session, events: seq<Event>): (t: Session)
    requires Typed(s) && Admissible(g)
    ensures Typed(t)
  {
    if events == [] then s else Step(g, Continued(g, s, events[..|events| - 1]), events[|events| - 1])
  }

  function After(g: Setting, events: seq<Event>): (s: Session)
    requires Admissible(g)
    ensures Typed(s)
  {
    Continued(g, Initial(g), events)
  }

  lemma {:induction false} ContinuedTwice(g: Setting, s: Session, a: seq<Event>, b: seq<Event>)
    requires Typed(s) && Admissible(g)
    ensures Continued(g, s, a + b) == Continued(g, Continued(g, s, a), b)
  {
    if b == [] {
      assert a + b == a;
    } else {
      var init := b[..|b| - 1];
      assert (a + b)[..|a + b| - 1] == a + init;
      ContinuedTwice(g, s, a, init);
    }
  }

  lemma OneEvent(g: Setting, s: Session, e: Event)
    requires Typed(s) && Admissible(g)
    ensures Continued(g, s, [e]) == Step(g, s, e)
  {
    assert [e][..0] == [];
  }

  lemma OneMoreEvent(g: Setting, s: Session, events: seq<Event>, e: Event)
    requires Typed(s) && Admissible(g)
    ensures Continued(g, s, events + [e]) == Step(g, Continued(g, s, events), e)
  {
    assert (events + [e])[..|events|] == events;
  }

  // ---- What travels ---------------------------------------------------------------------------

  /** A piece of the sender's tiles under its right number. */
  predicate Cutting(g: Setting, p: Piece)
    requires Admissible(g)
  {
    Numbered(p.at) && p.at.w < W(g) && 0 < p.count <= WINDOW_SIZE && p.at.ptr + p.count <= N(g)
  }

  predicate IsFragment(g: Setting, m: seq<byte>, p: Piece)
    requires Admissible(g)
  {
    Cutting(g, p) && m == Snd.Fragment(PacketTiles(g.packet), p)
  }

  ghost predicate Frame(g: Setting, m: seq<byte>)
    requires Admissible(g)
  {
    && m != []
    && match FragmentType(m)
       case RegularFragment => exists p :: IsFragment(g, m, p)
       case AllOneFragment =>
         && |m| >= 5 && WOf(m) == W(g) - 1 && RcsOf(m) == Rcs.Crc32(g.packet) && LastTileOf(m) == LastTile(g.packet)
       case AckRequest => WOf(m) < W(g)
       case Unclassified => true // the bare header sent when there is no full tile
       case _ => false
  }

  /** `W` rows, which a session-mode NACK may have lengthened. */
  predicate Rows(g: Setting, rows: seq<seq<bit>>) {
    |rows| == W(g) && forall a :: 0 <= a < |rows| ==> |rows[a]| >= WINDOW_SIZE
  }

  predicate Windows(g: Setting, windows: seq<nat>) {
    forall i :: 0 <= i < |windows| ==> windows[i] < W(g)
  }

  predicate Decodable(g: Setting, m: seq<byte>, rows: seq<seq<bit>>)
    requires m != []
  {
    var a := ReadAck(m, if AckType(m) == CompoundAck then Compound else g.mode, rows);
    && a.AckContents? && Rows(g, a.rows) && Windows(g, a.windows) && (AckType(m) == CompoundAck ==> a.windows != [])
  }

  /** An acknowledgement the sender can decode, whatever its bitmaps hold. */
  ghost predicate Reply(g: Setting, m: seq<byte>) {
    && m != [] && WOf(m) < W(g) && (g.mode == EndOfSession ==> AckType(m) == Ack)
    && forall rows :: Rows(g, rows) ==> Decodable(g, m, rows)
  }

  lemma FragmentIsFrame(g: Setting, p: Piece)
    requires Admissible(g) && Cutting(g, p)
    ensures var m := Snd.Fragment(PacketTiles(g.packet), p);
            && IsFragment(g, m, p) && Frame(g, m) && FragmentType(m) == RegularFragment
            && WOf(m) == p.at.w && FcnOf(m) == p.at.fcn
            && PayloadOf(m) == Concat(PacketTiles(g.packet)[p.at.ptr..p.at.ptr + p.count])
            && |PayloadOf(m)| == TILE_SIZE * p.count
  {
    var tiles := PacketTiles(g.packet)[p.at.ptr..p.at.ptr + p.count];
    ConcatTiles(tiles);
    ReadFragments(p.at.w, p.at.fcn, Concat(tiles));
    assert IsFragment(g, Snd.Fragment(PacketTiles(g.packet), p), p);
  }

  // ---- The receiver on its own ----------------------------------------------------------------

  predicate HasAll(g: Setting, bitmap: seq<seq<bit>>)
    requires Admissible(g) && Bitmaps(bitmap, MAX_WINDOWS)
  {
    forall t: nat :: t < N(g) ==> Has(bitmap, t)
  }

  /** Every marked regular tile is stored, as the sender's. */
  predicate TilesHonest(g: Setting, tiles: seq<tile>, bitmap: seq<seq<bit>>, tilePtr: nat)
    requires Admissible(g) && Bitmaps(bitmap, MAX_WINDOWS) && |tiles| == TOTAL_TILES
  {
    N(g) <= TOTAL_TILES
    && forall t: nat {:trigger Has(bitmap, t)} :: t < N(g) && Has(bitmap, t) ==> tiles[t] == PacketTiles(g.packet)[t] && t < tilePtr
  }

  /** No flag is set between the last regular tile and the All-1's. */
  predicate NothingBeyond(g: Setting, bitmap: seq<seq<bit>>)
    requires Admissible(g) && Bitmaps(bitmap, MAX_WINDOWS)
  {
    forall t: nat :: N(g) <= t < WINDOW_SIZE * W(g) - 1 ==> !Has(bitmap, t)
  }

  predicate Closed(x: Rcv.Ctx) { x.lastTileSize > 0 }

  /** Every marked regular tile is the sender's, and what the All-1 brought is the sender's. */
  predicate Honest(g: Setting, x: Rcv.Ctx)
    requires Admissible(g)
  {
    && Rcv.Valid(x) && x.mode == g.mode && x.lastWindow < W(g) && x.tilePtr <= N(g)
    && TilesHonest(g, x.tiles, x.bitmap, x.tilePtr) && NothingBeyond(g, x.bitmap)
    && (Closed(x) ==> x.lastTile == LastTile(g.packet) && x.rcs == Rcs.Crc32(g.packet) && x.lastWindow == W(g) - 1)
  }

  /** All full tiles and the All-1: the buffer is the packet and the integrity check succeeds. */
  lemma CompleteMeansPacket(g: Setting, x: Rcv.Ctx)
    requires Admissible(g) && Honest(g, x) && HasAll(g, x.bitmap) && Closed(x)
    ensures Rcv.Buffer(x) == g.packet && Rcv.CheckRcs(x)
  {
    AllTiles(g, x);
    TilingExact(g.packet);
  }

  lemma AllTiles(g: Setting, x: Rcv.Ctx)
    requires Admissible(g) && Honest(g, x) && HasAll(g, x.bitmap)
    ensures x.tiles[..x.tilePtr] == PacketTiles(g.packet)
  {
    if N(g) > 0 {
      assert Has(x.bitmap, N(g) - 1);
    }
    forall t: nat | t < N(g) ensures x.tiles[t] == PacketTiles(g.packet)[t] {
      assert Has(x.bitmap, t);
    }
  }

  /** What `Stored` makes of a fragment of the session: the repair phase cannot store one that runs
      over the end of its window; otherwise its tiles go where they came from. */
  lemma FindsTiles(g: Setting, x: Rcv.Ctx, m: seq<byte>, p: Piece)
    requires Admissible(g) && Rcv.Valid(x) && IsFragment(g, m, p) && Rcv.Receiving(x.state) && N(g) <= TOTAL_TILES
    ensures m != [] && FragmentType(m) == RegularFragment && |PayloadOf(m)| == TILE_SIZE * p.count
    ensures Rcv.Stored(x, m) ==
              if x.state == Rcv.WaitMissing && p.at.ptr % WINDOW_SIZE + p.count > WINDOW_SIZE
              then x.(lastWindow := Max(x.lastWindow, p.at.w), state := Rcv.Fault)
              else x.(lastWindow := Max(x.lastWindow, p.at.w),
                      tiles := Rcv.StoredTiles(x.tiles, p.at.ptr, p.count, PayloadOf(m)),
                      bitmap := MarkedTiles(x.bitmap, p.at.ptr, p.count),
                      tilePtr := Max(x.tilePtr, p.at.ptr + p.count))
  {
    FragmentIsFrame(g, p);
    ReceiverFindsTile(p.at);
    assert |PayloadOf(m)| / TILE_SIZE == p.count;
  }

  /** Storing a fragment: its tiles, and no others, become marked, and hold the sender's bytes. */
  lemma StoresFragment(g: Setting, x: Rcv.Ctx, m: seq<byte>, p: Piece)
    requires Admissible(g) && Honest(g, x) && IsFragment(g, m, p) && Rcv.Receiving(x.state)
    ensures m != [] && FragmentType(m) == RegularFragment
    ensures var y := Rcv.Stored(x, m);
            && Honest(g, y) && (Closed(y) <==> Closed(x))
            && (y.state == Rcv.Fault <==> x.state == Rcv.WaitMissing && p.at.ptr % WINDOW_SIZE + p.count > WINDOW_SIZE)
            && (y.state == Rcv.Fault ==> y.bitmap == x.bitmap)
            && (y.state != Rcv.Fault ==>
                  y.state == x.state
                  && forall t: nat :: t < TOTAL_TILES ==> (Has(y.bitmap, t) <==> Has(x.bitmap, t) || Carries(p, t)))
  {
    FindsTiles(g, x, m, p);
    StoredBits(x.bitmap, p.at.ptr, p.count);
    FragmentIsFrame(g, p);
    StoredTilesAreSent(g, x, p, PayloadOf(m));
  }

  lemma StoredTilesAreSent(g: Setting, x: Rcv.Ctx, p: Piece, payload: seq<byte>)
    requires Admissible(g) && Rcv.Valid(x) && Cutting(g, p)
    requires payload == Concat(PacketTiles(g.packet)[p.at.ptr..p.at.ptr + p.count]) && |payload| == TILE_SIZE * p.count
    requires N(g) <= TOTAL_TILES
    ensures var tiles := Rcv.StoredTiles(x.tiles, p.at.ptr, p.count, payload);
            forall t: nat :: t < N(g) ==> tiles[t] == if Carries(p, t) then PacketTiles(g.packet)[t] else x.tiles[t]
  {
    var sent := PacketTiles(g.packet)[p.at.ptr..p.at.ptr + p.count];
    ConcatTiles(sent);
    forall t: nat | t < N(g) && Carries(p, t)
      ensures Rcv.StoredTiles(x.tiles, p.at.ptr, p.count, payload)[t] == PacketTiles(g.packet)[t]
    {
      assert sent[t - p.at.ptr] == PacketTiles(g.packet)[t];
    }
  }

  lemma TakesAllOne(g: Setting, x: Rcv.Ctx, m: seq<byte>, unit: nat)
    requires Admissible(g) && Honest(g, x) && Frame(g, m) && FragmentType(m) == AllOneFragment && (unit == 1 || unit == 8)
    ensures var y := Rcv.Flagged(Rcv.Closing(x, m, unit));
            && Honest(g, y) && Closed(y) && (forall t: nat :: t < N(g) ==> (Has(y.bitmap, t) <==> Has(x.bitmap, t)))
  {
    TilingExact(g.packet);
    FlagKeepsTiles(g, x.bitmap);
  }

  /** The All-1's position belongs to no regular tile. */
  lemma FlagKeepsTiles(g: Setting, bitmap: seq<seq<bit>>)
    requires Admissible(g) && Bitmaps(bitmap, MAX_WINDOWS) && 1 <= W(g) <= MAX_WINDOWS
    ensures var flagged := FlagSet(bitmap, W(g) - 1);
            && (NothingBeyond(g, bitmap) ==> NothingBeyond(g, flagged))
            && forall t: nat :: t < N(g) ==> (Has(flagged, t) <==> Has(bitmap, t))
  {
    TilingExact(g.packet);
    var flagged := FlagSet(bitmap, W(g) - 1);
    forall t: nat | t < WINDOW_SIZE * W(g) - 1 ensures Has(flagged, t) <==> Has(bitmap, t) {
      OtherFlags(bitmap, W(g) - 1, t);
    }
  }

  /** Nothing received is forgotten or falsified. */
  predicate Keeps(g: Setting, x: Rcv.Ctx, y: Rcv.Ctx)
    requires Admissible(g) && Rcv.Valid(x)
  {
    && Honest(g, y) && (Closed(x) ==> Closed(y))
    && forall t: nat :: t < N(g) && Has(x.bitmap, t) ==> Has(y.bitmap, t)
  }

  lemma FragmentKeeps(g: Setting, x: Rcv.Ctx, m: seq<byte>)
    requires Admissible(g) && Honest(g, x) && Frame(g, m) && FragmentType(m) == RegularFragment && Rcv.Receiving(x.state)
    ensures Keeps(g, x, Rcv.Stored(x, m)) && Keeps(g, x, Rcv.Receive(x, m).ctx)
  {
    var p :| IsFragment(g, m, p);
    TilingExact(g.packet);
    StoresFragment(g, x, m, p);
    var y, z := Rcv.Stored(x, m), Rcv.Receive(x, m).ctx;
    OnlyStateAfterStoring(x, m);
    SameData(g, x, y, z);
  }

  lemma OnlyStateAfterStoring(x: Rcv.Ctx, m: seq<byte>)
    requires Rcv.Valid(x) && m != [] && FragmentType(m) == RegularFragment && Rcv.Receiving(x.state)
    ensures var y, z := Rcv.Stored(x, m), Rcv.Receive(x, m).ctx;
            z == y.(state := z.state, enabled := z.enabled)
  {
  }

  /** State, flag and confirmed window carry no data. */
  lemma SameData(g: Setting, x: Rcv.Ctx, y: Rcv.Ctx, z: Rcv.Ctx)
    requires Admissible(g) && Rcv.Valid(x) && Keeps(g, x, y)
    requires z == y.(state := z.state, enabled := z.enabled, lastConfirmed := z.lastConfirmed)
    ensures Keeps(g, x, z)
  {
  }

  lemma AllOneKeeps(g: Setting, x: Rcv.Ctx, m: seq<byte>)
    requires Admissible(g) && Honest(g, x) && Frame(g, m) && FragmentType(m) == AllOneFragment && Rcv.Receiving(x.state)
    ensures Keeps(g, x, Rcv.Receive(x, m).ctx) && Closed(Rcv.Receive(x, m).ctx)
  {
    var unit := if x.state == Rcv.RcvWindow then 1 else 8;
    TakesAllOne(g, x, m, unit);
    var y, z := Rcv.Flagged(Rcv.Closing(x, m, unit)), Rcv.Receive(x, m).ctx;
    assert z == y.(state := z.state, lastConfirmed := z.lastConfirmed);
    SameData(g, x, y, z);
  }

  lemma RequestKeeps(g: Setting, x: Rcv.Ctx, m: seq<byte>)
    requires Admissible(g) && Honest(g, x) && Frame(g, m) && FragmentType(m) == AckRequest && Rcv.Receiving(x.state)
    ensures Keeps(g, x, Rcv.Receive(x, m).ctx)
  {
    var z := Rcv.Receive(x, m).ctx;
    var y := x.(lastWindow := z.lastWindow);
    TilingExact(g.packet);
    assert Keeps(g, x, y);
    assert z == y.(state := z.state, lastConfirmed := z.lastConfirmed);
    SameData(g, x, y, z);
  }

  /** Any frame of the session keeps the receiver honest; the end absorbs. */
  lemma ReceiverStaysHonest(g: Setting, x: Rcv.Ctx, m: seq<byte>)
    requires Admissible(g) && Honest(g, x) && Frame(g, m)
    ensures Keeps(g, x, Rcv.Receive(x, m).ctx)
    ensures !Rcv.Receiving(x.state) ==> Rcv.Receive(x, m) == Rcv.Reaction(x, [])
  {
    if Rcv.Receiving(x.state) {
      match FragmentType(m)
      case RegularFragment => FragmentKeeps(g, x, m);
      case AllOneFragment => AllOneKeeps(g, x, m);
      case AckRequest => RequestKeeps(g, x, m);
      case _ =>
    }
  }

  // ---- What the receiver answers --------------------------------------------------------------

  lemma PositiveReply(g: Setting, w: nat)
    requires Admissible(g) && w < W(g)
    ensures Reply(g, PositiveAckMsg(w)) && COf(PositiveAckMsg(w)) == 1
  {
    ReadPositiveAck(w, g.mode, []);
  }

  /** A NACK of one window is at most nine bytes, so it is typed as a plain ACK; read as a compound
      ACK it holds at most one section, of that window. */
  lemma NackReply(g: Setting, w: nat, bitmap: seq<bit>)
    requires Admissible(g) && w < W(g) && |bitmap| == WINDOW_SIZE
    ensures Reply(g, NegativeAckMsg(w, bitmap, true)) && COf(NegativeAckMsg(w, bitmap, true)) == 0
  {
    var m := NegativeAckMsg(w, bitmap, true);
    LastZeroMeaning(bitmap);
    PackedHeader(w, CompressedBitmap(bitmap));
    assert 1 <= |m| <= 9;
    TilingExact(g.packet);
    forall rows | Rows(g, rows) ensures Decodable(g, m, rows) {
      if g.mode == Compound {
        NackAsCompound(g, m, w, rows);
      } else {
        NegativeAckAppends(w, bitmap, g.mode, rows);
      }
    }
  }

  lemma NackAsCompound(g: Setting, m: seq<byte>, w: nat, rows: seq<seq<bit>>)
    requires Admissible(g) && w < W(g) && 1 <= |m| <= 9 && COf(m) == 0 && Rows(g, rows)
    requires Bits(m)[..2] == WindowNumberBits(w) && w < MAX_WINDOWS
    ensures var a := ReadCompound(m, rows);
            a.AckContents? && Rows(g, a.rows) && Windows(g, a.windows)
  {
    ShortNack(g, Bits(m), (8 * |m| - 1) / 65, w, rows);
  }

  lemma ShortNack(g: Setting, b: seq<bit>, n: nat, w: nat, rows: seq<seq<bit>>)
    requires Admissible(g) && w < W(g) && n <= 1 && 65 * n < |b| && |b| >= 8 && Rows(g, rows)
    requires b[..2] == WindowNumberBits(w) && w < MAX_WINDOWS
    ensures var a := ReadSections(b[..2] + b[3..], n, rows);
            a.AckContents? && Rows(g, a.rows) && Windows(g, a.windows)
  {
    var all := b[..2] + b[3..];
    assert all[0] == b[..2][0] && all[1] == b[..2][1];
    AtMostOneSection(g, all, n, w, rows);
  }

  lemma AtMostOneSection(g: Setting, all: seq<bit>, n: nat, w: nat, rows: seq<seq<bit>>)
    requires n <= 1 && |all| >= 65 * n && |all| >= 2 && w < W(g) && Rows(g, rows)
    requires [all[0], all[1]] == WindowNumberBits(w) && w < MAX_WINDOWS
    ensures var a := ReadSections(all, n, rows);
            a.AckContents? && Rows(g, a.rows) && Windows(g, a.windows)
  {
    if n == 1 {
      assert WindowNumber(all[0], all[1]) == w by {
        assert [all[0], all[1]][0] == WindowNumberBits(w)[0] && [all[0], all[1]][1] == WindowNumberBits(w)[1];
      }
      var next := OverwriteRow(rows, w, all[2..65]);
      assert ReadSections(all[65..], 0, next) == AckContents([], next);
    }
  }

  lemma ReportReply(g: Setting, x: Rcv.Ctx)
    requires Admissible(g) && Rcv.Valid(x) && x.lastWindow < W(g) && g.mode == Compound
    ensures Reply(g, Rcv.Report(x)) && COf(Rcv.Report(x)) == 0
  {
    var windows := ErrorWindows(x.bitmap, x.lastWindow);
    TilingExact(g.packet);
    assert windows != [] && Windows(g, windows) && Reportable(windows, x.bitmap);
    ReportHeader(g, x.lastWindow, windows, x.bitmap);
    forall rows | Rows(g, rows) ensures Decodable(g, Rcv.Report(x), rows) {
      ReportDecodes(g, x.lastWindow, windows, x.bitmap, rows);
    }
  }

  lemma ReportHeader(g: Setting, last: nat, windows: seq<nat>, bitmap: seq<seq<bit>>)
    requires Admissible(g) && windows != [] && Windows(g, windows) && Reportable(windows, bitmap)
    ensures var m := CompoundAckMsg(last, windows, bitmap); m != [] && WOf(m) < W(g) && COf(m) == 0
  {
    CompoundRoundTrip(last, windows, bitmap, bitmap);
  }

  lemma ReportDecodes(g: Setting, last: nat, windows: seq<nat>, bitmap: seq<seq<bit>>, rows: seq<seq<bit>>)
    requires Admissible(g) && windows != [] && Windows(g, windows) && Reportable(windows, bitmap) && Rows(g, rows)
    requires g.mode == Compound && W(g) <= MAX_WINDOWS
    ensures CompoundAckMsg(last, windows, bitmap) != [] && Decodable(g, CompoundAckMsg(last, windows, bitmap), rows)
  {
    CompoundRoundTrip(last, windows, bitmap, rows);
    CopiedRows(g, windows, bitmap, rows);
  }

  lemma CopiedRows(g: Setting, windows: seq<nat>, bitmap: seq<seq<bit>>, rows: seq<seq<bit>>)
    requires Admissible(g) && Reportable(windows, bitmap) && Reportable(windows, rows) && Rows(g, rows)
    ensures Rows(g, Copied(windows, bitmap, rows))
  {
  }

  /** The receiver has ended after a successful integrity check. */
  predicate Confirmed(x: Rcv.Ctx) {
    Rcv.Valid(x) && x.state == Rcv.End && Rcv.CheckRcs(x)
  }

  /** Every answer can be decoded; an answer with C = 1 is only sent on ending with a successful check. */
  ghost predicate Answers(g: Setting, o: Rcv.Reaction) {
    forall i :: 0 <= i < |o.replies| ==>
      Reply(g, o.replies[i]) && (COf(o.replies[i]) == 1 ==> Confirmed(o.ctx))
  }

  lemma CompoundAnswers(g: Setting, x: Rcv.Ctx)
    requires Admissible(g) && Rcv.Valid(x) && x.lastWindow < W(g) && g.mode == Compound
    ensures Answers(g, Rcv.CompoundAnswer(x))
  {
    PositiveReply(g, x.lastWindow);
    ReportReply(g, x);
  }

  lemma NackAnswers(g: Setting, x: Rcv.Ctx, from: nat)
    requires Admissible(g) && Rcv.Valid(x) && x.lastWindow < W(g)
    ensures var w := FirstIncomplete(x.bitmap, from, x.lastWindow);
            Reply(g, Rcv.WindowNack(x, w)) && COf(Rcv.WindowNack(x, w)) == 0
  {
    var w := FirstIncomplete(x.bitmap, from, x.lastWindow);
    NackReply(g, w, x.bitmap[w]);
  }

  lemma AnswersInWindow(g: Setting, x: Rcv.Ctx, m: seq<byte>)
    requires Admissible(g) && Honest(g, x) && Frame(g, m) && x.state == Rcv.RcvWindow
    ensures Answers(g, Rcv.OnWindow(x, m))
  {
    if FragmentType(m) == AllOneFragment {
      TakesAllOne(g, x, m, 1);
      AnswersTo(g, Rcv.Flagged(Rcv.Closing(x, m, 1)));
    } else if FragmentType(m) == AckRequest {
      AnswersTo(g, x.(lastWindow := Max(x.lastWindow, WOf(m))));
    }
  }

  lemma AnswersTo(g: Setting, y: Rcv.Ctx)
    requires Admissible(g) && Rcv.Valid(y) && y.lastWindow < W(g)
    ensures g.mode == Compound ==> Answers(g, Rcv.CompoundAnswer(y))
    ensures Answers(g, Rcv.NackFrom(y))
    ensures Reply(g, PositiveAckMsg(y.lastWindow))
  {
    if g.mode == Compound {
      CompoundAnswers(g, y);
    }
    NackAnswers(g, y, y.lastConfirmed);
    PositiveReply(g, y.lastWindow);
  }

  lemma OneAnswer(g: Setting, y: Rcv.Ctx, r: seq<byte>)
    requires Reply(g, r) && (COf(r) == 1 ==> Confirmed(y))
    ensures Answers(g, Rcv.Reaction(y, [r]))
  {
  }

  lemma AnswersAfterRepair(g: Setting, y: Rcv.Ctx, w: nat)
    requires Admissible(g) && Rcv.Valid(y) && y.lastWindow < W(g) && w < W(g) && w < MAX_WINDOWS
    ensures Answers(g, Rcv.NackNext(y, w))
    ensures Rcv.CheckRcs(y) ==> Answers(g, Rcv.Reaction(y.(state := Rcv.End), [CompoundAckMsg(y.lastWindow, [], y.bitmap)]))
  {
    var end := y.(state := Rcv.End);
    PositiveReply(g, y.lastWindow);
    if Rcv.CheckRcs(y) {
      OneAnswer(g, end, CompoundAckMsg(y.lastWindow, [], y.bitmap));
      PositiveReply(g, w);
      OneAnswer(g, end, PositiveAckMsg(w));
    } else {
      NackAnswers(g, y, w + 1);
      OneAnswer(g, y, Rcv.WindowNack(y, FirstIncomplete(y.bitmap, w + 1, y.lastWindow)));
    }
  }

  lemma AnswersToFragment(g: Setting, x: Rcv.Ctx, m: seq<byte>)
    requires Admissible(g) && Honest(g, x) && Frame(g, m) && x.state == Rcv.WaitMissing && FragmentType(m) == RegularFragment
    ensures Answers(g, Rcv.OnMissing(x, m))
  {
    var p :| IsFragment(g, m, p);
    FragmentIsFrame(g, p);
    FragmentKeeps(g, x, m);
    AnswersAfterRepair(g, Rcv.Stored(x, m), WOf(m));
  }

  lemma AnswersAfterAllOne(g: Setting, y: Rcv.Ctx)
    requires Admissible(g) && Rcv.Valid(y) && y.lastWindow < W(g)
    ensures var r := Rcv.Acknowledgement(y.lastWindow, Complete(y.bitmap[y.lastWindow]), y.bitmap[y.lastWindow]);
            Rcv.CheckRcs(y) ==> Answers(g, Rcv.Reaction(y.(state := Rcv.End), [r]))
    ensures Answers(g, Rcv.Reaction(y, [Rcv.WindowNack(y, y.lastWindow)]))
    ensures g.mode == Compound ==> Answers(g, Rcv.Reaction(y, [Rcv.Report(y)]))
  {
    PositiveReply(g, y.lastWindow);
    NackReply(g, y.lastWindow, y.bitmap[y.lastWindow]);
    if g.mode == Compound {
      ReportReply(g, y);
    }
  }

  lemma AnswersToLateAllOne(g: Setting, x: Rcv.Ctx, m: seq<byte>)
    requires Admissible(g) && Honest(g, x) && Frame(g, m) && x.state == Rcv.WaitMissing && FragmentType(m) == AllOneFragment
    ensures Answers(g, Rcv.OnMissing(x, m))
  {
    TakesAllOne(g, x, m, 8);
    AnswersAfterAllOne(g, Rcv.Flagged(Rcv.Closing(x, m, 8)));
  }

  lemma AnswersToRequest(g: Setting, x: Rcv.Ctx, m: seq<byte>)
    requires Admissible(g) && Honest(g, x) && Frame(g, m) && x.state == Rcv.WaitMissing && FragmentType(m) == AckRequest
    ensures Answers(g, Rcv.OnMissing(x, m))
  {
    if g.mode == Compound {
      CompoundAnswers(g, x);
    } else if Rcv.CheckRcs(x) {
      PositiveReply(g, x.lastWindow);
      OneAnswer(g, x.(state := Rcv.End), PositiveAckMsg(x.lastWindow));
    } else {
      NackAnswers(g, x, 0);
      OneAnswer(g, x, Rcv.WindowNack(x, FirstIncomplete(x.bitmap, 0, x.lastWindow)));
    }
  }

  lemma ReceiverAnswers(g: Setting, x: Rcv.Ctx, m: seq<byte>)
    requires Admissible(g) && Honest(g, x) && Frame(g, m)
    ensures Answers(g, Rcv.Receive(x, m))
  {
    if x.state == Rcv.RcvWindow {
      AnswersInWindow(g, x, m);
    } else if x.state == Rcv.WaitMissing {
      match FragmentType(m)
      case RegularFragment => AnswersToFragment(g, x, m);
      case AllOneFragment => AnswersToLateAllOne(g, x, m);
      case AckRequest => AnswersToRequest(g, x, m);
      case _ =>
    }
  }

  // ---- The sender on its own ------------------------------------------------------------------

  predicate SenderOk(g: Setting, x: Snd.Ctx)
    requires Admissible(g)
  {
    && Snd.Valid(x) && x.state != Snd.Fault && x.mode == g.mode
    && (x.state == Snd.Init ==> x == Snd.Fresh(g.mode))
    && (x.state != Snd.Init ==>
          && x.tiles == PacketTiles(g.packet) && x.lastTile == LastTile(g.packet) && x.rcs == Rcs.Crc32(g.packet)
          && x.nWindows == W(g) && Rows(g, x.rows) && x.cursor.w < W(g) && Windows(g, x.windows))
    && (x.state == Snd.Send ==> Numbered(x.cursor) && (x.cursor.ptr < N(g) || (x.cursor == START && N(g) == 0)))
    && (x.state == Snd.Resending ==> if g.mode == Compound then x.windows != [] else x.lastConfirmed < W(g))
    && (x.state == Snd.Send || x.state == Snd.WaitAck || g.mode == EndOfSession ==> x.windows == [])
  }

  ghost predicate Frames(g: Setting, frames: seq<seq<byte>>)
    requires Admissible(g)
  {
    forall i :: 0 <= i < |frames| ==> Frame(g, frames[i])
  }

  lemma SenderStarts(g: Setting)
    requires Admissible(g)
    ensures SenderOk(g, Snd.Start(Snd.Fresh(g.mode), g.packet))
  {
    TilingExact(g.packet);
  }

  lemma PieceIsFrame(g: Setting, at: Cursor, count: nat)
    requires Admissible(g) && Numbered(at) && at.w < W(g) && at.ptr + count <= N(g) && count <= WINDOW_SIZE
    requires count > 0 || at == START
    ensures Frame(g, Snd.Fragment(PacketTiles(g.packet), Piece(at, count)))
  {
    if count > 0 {
      FragmentIsFrame(g, Piece(at, count));
    } else {
      assert PacketTiles(g.packet)[0..0] == [];
    }
  }

  lemma AllOneIsFrame(g: Setting, x: Snd.Ctx)
    requires Admissible(g) && SenderOk(g, x) && x.state == Snd.Send && x.cursor.w == W(g) - 1
    ensures Frame(g, Snd.AllOne(x))
  {
    TilingExact(g.packet);
    ReadAllOne(x.cursor.w, x.rcs, x.lastTile);
  }

  lemma CursorMoves(g: Setting, c: Cursor)
    requires Admissible(g) && Numbered(c) && c.w < W(g) && c.ptr + g.available < N(g)
    ensures var d := Advance(c, g.available);
            Numbered(d) && d.w < W(g) && d.ptr < N(g)
  {
    TilingExact(g.packet);
    AdvanceExact(c, g.available);
  }

  lemma SendsLast(g: Setting, x: Snd.Ctx)
    requires Admissible(g) && SenderOk(g, x) && x.state == Snd.Send && N(g) - x.cursor.ptr <= g.available
    ensures var o := Snd.SendNext(x, g.available);
            SenderOk(g, o.ctx) && Frames(g, o.frames) && o.ctx.state != Snd.End
  {
    PieceIsFrame(g, x.cursor, N(g) - x.cursor.ptr);
    if x.cursor.w == W(g) - 1 {
      AllOneIsFrame(g, x);
    }
  }

  /** SEND: fragments under the right number; the All-1 from the last window only. */
  lemma SenderSends(g: Setting, x: Snd.Ctx)
    requires Admissible(g) && SenderOk(g, x) && x.state == Snd.Send
    ensures var o := Snd.SendNext(x, g.available);
            SenderOk(g, o.ctx) && Frames(g, o.frames) && o.ctx.state != Snd.End
  {
    if N(g) - x.cursor.ptr > g.available {
      PieceIsFrame(g, x.cursor, g.available);
      CursorMoves(g, x.cursor);
    } else {
      SendsLast(g, x);
    }
  }

  lemma RepairSound(g: Setting, x: Snd.Ctx)
    requires Admissible(g) && SenderOk(g, x) && x.state == Snd.Resending
    ensures var r := Snd.RepairOf(x, g.available);
            Sound(r) && Target(r) < r.nWindows && (g.mode == Compound ==> r.windows != [])
  {
    TilingExact(g.packet);
  }

  lemma EmittedFrames(g: Setting, r: Repair)
    requires Admissible(g) && Sound(r) && Target(r) < r.nWindows && r.nWindows == W(g) && r.nFullTiles == N(g)
    ensures Within(Emitted(r), N(g)) && Frames(g, Snd.Fragments(PacketTiles(g.packet), Emitted(r)))
  {
    Snd.InRange(r);
    if Emitted(r) != [] {
      var p := Emitted(r)[0];
      assert Cutting(g, p);
      FragmentIsFrame(g, p);
    }
  }

  lemma SenderResends(g: Setting, x: Snd.Ctx)
    requires Admissible(g) && SenderOk(g, x) && x.state == Snd.Resending
    ensures var o := Snd.ResendNext(x, g.available);
            SenderOk(g, o.ctx) && Frames(g, o.frames) && o.ctx.state != Snd.End
  {
    RepairSound(g, x);
    var r := Snd.RepairOf(x, g.available);
    EmittedFrames(g, r);
    ResentRows(g, r);
    if g.mode == Compound {
      ResendDecreases(r);
    }
  }

  /** One execution keeps the shape of the bitmaps and of the list. */
  lemma ResentRows(g: Setting, r: Repair)
    requires Sound(r) && Target(r) < r.nWindows && r.nWindows == W(g) && Rows(g, r.rows) && Windows(g, r.windows)
    ensures Rows(g, Resend(r).repair.rows) && Windows(g, Resend(r).repair.windows) && Resend(r).repair.current < W(g)
  {
  }

  lemma RequestIsFrame(g: Setting, w: nat)
    requires Admissible(g) && w < W(g)
    ensures Frame(g, AckRequestMsg(w))
  {
    TilingExact(g.packet);
    ReadFragments(w, 0, [0]);
  }

  lemma SenderAsks(g: Setting, x: Snd.Ctx)
    requires Admissible(g) && SenderOk(g, x)
    ensures var o := Snd.Timeout(x);
            SenderOk(g, o.ctx) && Frames(g, o.frames) && (o.ctx.state == Snd.End ==> x.state == Snd.End)
  {
    if x.state == Snd.WaitAck {
      RequestIsFrame(g, x.cursor.w);
    }
  }

  /** Only an answer with C = 1 makes the sender end. */
  lemma SenderReceives(g: Setting, x: Snd.Ctx, m: seq<byte>)
    requires Admissible(g) && SenderOk(g, x) && Reply(g, m)
    ensures var o := Snd.Receive(x, m, g.available);
            SenderOk(g, o.ctx) && Frames(g, o.frames) && (o.ctx.state == Snd.End && x.state != Snd.End ==> COf(m) == 1)
  {
    if x.state == Snd.Send {
      SenderSends(g, x);
    } else if x.state == Snd.WaitAck {
      assert Decodable(g, m, x.rows);
    }
  }

  // ---- Both together --------------------------------------------------------------------------

  ghost predicate Invariant(g: Setting, s: Session)
    requires Admissible(g)
  {
    && Typed(s) && SenderOk(g, s.snd) && Honest(g, s.rcv)
    && (forall m :: m in s.toRcv ==> Frame(g, m))
    && RepliesOk(g, s.toSnd, s.rcv)
    && (s.snd.state == Snd.End ==> Confirmed(s.rcv))
    && WaitsShort(s.rcv) && (s.rcv.state == Rcv.RcvWindow ==> !Closed(s.rcv))
  }

  lemma InitialInvariant(g: Setting)
    requires Admissible(g)
    ensures Invariant(g, Initial(g))
  {
    TilingExact(g.packet);
    var x := Rcv.Fresh(g.mode, g.rcs);
    forall t: nat ensures !Has(x.bitmap, t) {
    }
  }

  lemma SenderSteps(g: Setting, s: Session, e: Event)
    requires Admissible(g) && Invariant(g, s) && (e.Start? || e.Execute? || e.Timeout?)
    ensures Invariant(g, Step(g, s, e))
  {
    match e
    case Start => SenderStarts(g);
    case Timeout => SenderAsks(g, s.snd);
    case Execute =>
      if s.snd.state == Snd.Send {
        SenderSends(g, s.snd);
      } else if s.snd.state == Snd.Resending {
        SenderResends(g, s.snd);
      }
  }

  lemma AnswerArrives(g: Setting, s: Session, m: seq<byte>)
    requires Admissible(g) && Invariant(g, s)
    ensures Invariant(g, Step(g, s, Answer(m)))
  {
    if m in s.toSnd {
      SenderReceives(g, s.snd, m);
      var o := Snd.Receive(s.snd, m, g.available);
      assert Step(g, s, Answer(m)) == s.(snd := o.ctx, toRcv := s.toRcv + Elements(o.frames));
      assert s.snd.state != Snd.End && o.ctx.state == Snd.End ==> Confirmed(s.rcv);
    }
  }

  /** The receiver checks integrity whenever it has the All-1, and always in compound mode. */
  predicate Checks(x: Rcv.Ctx) { x.mode == Compound || Closed(x) }

  /** Waiting for missing fragments after a check means that it failed. */
  predicate WaitsShort(x: Rcv.Ctx)
    requires Rcv.Valid(x)
  {
    x.state == Rcv.WaitMissing && Checks(x) ==> !Rcv.CheckRcs(x)
  }

  /** The check looks at tiles, pointer, last tile and RCS only. */
  lemma SameCheck(x: Rcv.Ctx, y: Rcv.Ctx)
    requires Rcv.Valid(x) && Rcv.Valid(y)
    requires y == x.(state := y.state, enabled := y.enabled, bitmap := y.bitmap, lastWindow := y.lastWindow, lastConfirmed := y.lastConfirmed)
    ensures Rcv.CheckRcs(y) <==> Rcv.CheckRcs(x)
  {
    assert Rcv.Buffer(x) == Rcv.Buffer(y);
  }

  lemma CompoundAnswerWaitsShort(x: Rcv.Ctx)
    requires Rcv.Valid(x)
    ensures WaitsShort(Rcv.CompoundAnswer(x).ctx)
  {
    SameCheck(x, x.(state := Rcv.WaitMissing));
  }

  lemma WindowWaitsShort(g: Setting, x: Rcv.Ctx, m: seq<byte>)
    requires Admissible(g) && Honest(g, x) && Frame(g, m) && x.state == Rcv.RcvWindow && !Closed(x)
    ensures var y := Rcv.OnWindow(x, m).ctx; WaitsShort(y) && (y.state == Rcv.RcvWindow ==> !Closed(y))
  {
    if FragmentType(m) == AllOneFragment {
      TakesAllOne(g, x, m, 1);
      var y := Rcv.Flagged(Rcv.Closing(x, m, 1));
      CompoundAnswerWaitsShort(y);
      SameCheck(y, Rcv.NackFrom(y).ctx);
    } else if FragmentType(m) == AckRequest {
      CompoundAnswerWaitsShort(x.(lastWindow := Max(x.lastWindow, WOf(m))));
    }
  }

  lemma FragmentWaitsShort(x: Rcv.Ctx, m: seq<byte>)
    requires Rcv.Valid(x) && x.state == Rcv.WaitMissing && m != [] && FragmentType(m) == RegularFragment
    ensures var y := Rcv.OnMissing(x, m).ctx; WaitsShort(y) && y.state != Rcv.RcvWindow
  {
    var y := Rcv.Stored(x, m);
    assert y.state == Rcv.Fault || y.state == Rcv.WaitMissing;
    assert Rcv.OnMissing(x, m).ctx == y || Rcv.OnMissing(x, m).ctx == y.(state := Rcv.End);
  }

  lemma LateAllOneWaitsShort(x: Rcv.Ctx, m: seq<byte>)
    requires Rcv.Valid(x) && x.state == Rcv.WaitMissing && m != [] && FragmentType(m) == AllOneFragment
    ensures var y := Rcv.OnMissing(x, m).ctx; WaitsShort(y) && y.state != Rcv.RcvWindow
  {
    if |m| >= 5 {
      var y := Rcv.Flagged(Rcv.Closing(x, m, 8));
      assert Rcv.OnMissing(x, m).ctx == y || Rcv.OnMissing(x, m).ctx == y.(state := Rcv.End);
    }
  }

  lemma MissingWaitsShort(g: Setting, x: Rcv.Ctx, m: seq<byte>)
    requires Admissible(g) && Honest(g, x) && Frame(g, m) && x.state == Rcv.WaitMissing && WaitsShort(x)
    ensures var y := Rcv.OnMissing(x, m).ctx; WaitsShort(y) && y.state != Rcv.RcvWindow
  {
    match FragmentType(m)
    case RegularFragment => FragmentWaitsShort(x, m);
    case AllOneFragment => LateAllOneWaitsShort(x, m);
    case AckRequest => CompoundAnswerWaitsShort(x);
    case _ =>
  }

  /** The receiver only ever waits for missing fragments after a failed check. In session mode an ACK
      request that comes before the All-1 makes it wait without a check. */
  lemma WaitsOnlyWhenShort(g: Setting, x: Rcv.Ctx, m: seq<byte>)
    requires Admissible(g) && Honest(g, x) && Frame(g, m) && WaitsShort(x)
    requires x.state == Rcv.RcvWindow ==> !Closed(x)
    ensures var y := Rcv.Receive(x, m).ctx; WaitsShort(y) && (y.state == Rcv.RcvWindow ==> !Closed(y))
  {
    if x.state == Rcv.RcvWindow {
      WindowWaitsShort(g, x, m);
    } else if x.state == Rcv.WaitMissing {
      MissingWaitsShort(g, x, m);
    }
  }

  ghost predicate RepliesOk(g: Setting, toSnd: set<seq<byte>>, x: Rcv.Ctx) {
    forall m :: m in toSnd ==> Reply(g, m) && (COf(m) == 1 ==> Confirmed(x))
  }

  lemma RepliesGrow(g: Setting, toSnd: set<seq<byte>>, x: Rcv.Ctx, o: Rcv.Reaction)
    requires RepliesOk(g, toSnd, x) && Answers(g, o) && (Confirmed(x) ==> Confirmed(o.ctx))
    ensures RepliesOk(g, toSnd + Elements(o.replies), o.ctx)
  {
  }

  lemma FrameArrives(g: Setting, s: Session, m: seq<byte>)
    requires Admissible(g) && Invariant(g, s)
    ensures Invariant(g, Step(g, s, Deliver(m)))
  {
    if m in s.toRcv {
      ReceiverStaysHonest(g, s.rcv, m);
      ReceiverAnswers(g, s.rcv, m);
      WaitsOnlyWhenShort(g, s.rcv, m);
      var o := Rcv.Receive(s.rcv, m);
      RepliesGrow(g, s.toSnd, s.rcv, o);
      assert Step(g, s, Deliver(m)) == s.(rcv := o.ctx, toSnd := s.toSnd + Elements(o.replies));
    }
  }

  lemma StepKeepsInvariant(g: Setting, s: Session, e: Event)
    requires Admissible(g) && Invariant(g, s)
    ensures Invariant(g, Step(g, s, e))
  {
    match e
    case Deliver(m) => FrameArrives(g, s, m);
    case Answer(m) => AnswerArrives(g, s, m);
    case _ => SenderSteps(g, s, e);
  }

  lemma {:induction false} RunKeepsInvariant(g: Setting, events: seq<Event>)
    requires Admissible(g)
    ensures Invariant(g, After(g, events))
  {
    if events == [] {
      InitialInvariant(g);
    } else {
      RunKeepsInvariant(g, events[..|events| - 1]);
      StepKeepsInvariant(g, After(g, events[..|events| - 1]), events[|events| - 1]);
    }
  }

  /** Reassembly in every run: a marked tile is the sender's; all full tiles and the All-1 give the
      packet, and the integrity check then succeeds. */
  lemma ReassemblySafety(g: Setting, events: seq<Event>)
    requires Admissible(g)
    ensures var x := After(g, events).rcv;
            && (forall t: nat :: t < N(g) && Has(x.bitmap, t) ==> x.tiles[t] == PacketTiles(g.packet)[t])
            && (HasAll(g, x.bitmap) && Closed(x) ==> Rcv.Buffer(x) == g.packet && Rcv.CheckRcs(x))
  {
    RunKeepsInvariant(g, events);
    var x := After(g, events).rcv;
    if HasAll(g, x.bitmap) && Closed(x) {
      CompleteMeansPacket(g, x);
    }
  }

  /** Agreement in every run: the sender ends only after the receiver has, with a successful integrity
      check; if the All-1 arrived, what the receiver holds has the packet's RCS. The sender never
      leaves a buffer. */
  lemma Agreement(g: Setting, events: seq<Event>)
    requires Admissible(g)
    ensures var s := After(g, events);
            && (s.snd.state == Snd.End ==> s.rcv.state == Rcv.End && Rcv.CheckRcs(s.rcv))
            && (s.snd.state == Snd.End && Closed(s.rcv) ==> Rcs.Crc32(Rcv.Buffer(s.rcv)) == Rcs.Crc32(g.packet))
            && s.snd.state != Snd.Fault
  {
    RunKeepsInvariant(g, events);
  }

  /** The repair phase has no branch for a fragment that runs into the next window, so one that comes
      late leaves the bitmap row. */
  lemma LateFragmentFault(g: Setting, x: Rcv.Ctx, m: seq<byte>, p: Piece)
    requires Admissible(g) && Honest(g, x) && IsFragment(g, m, p) && Rcv.Receiving(x.state)
    ensures m != []
    ensures Rcv.Receive(x, m).ctx.state == Rcv.Fault <==> x.state == Rcv.WaitMissing && p.at.ptr % WINDOW_SIZE + p.count > WINDOW_SIZE
  {
    StoresFragment(g, x, m, p);
  }

  /** `m` carries tiles of two windows. */
  ghost predicate Spanning(g: Setting, m: seq<byte>)
    requires Admissible(g)
  {
    exists p :: IsFragment(g, m, p) && p.at.ptr % WINDOW_SIZE + p.count > WINDOW_SIZE
  }

  lemma FaultExactly(g: Setting, x: Rcv.Ctx, m: seq<byte>)
    requires Admissible(g) && Honest(g, x) && Frame(g, m) && x.state != Rcv.Fault
    ensures Rcv.Receive(x, m).ctx.state == Rcv.Fault <==> x.state == Rcv.WaitMissing && Spanning(g, m)
  {
    if Rcv.Receiving(x.state) && FragmentType(m) == RegularFragment {
      var p :| IsFragment(g, m, p);
      LateFragmentFault(g, x, m, p);
      SpanningExactly(g, m, p);
    } else {
      OtherFramesStay(g, x, m);
    }
  }

  lemma SpanningExactly(g: Setting, m: seq<byte>, p: Piece)
    requires Admissible(g) && IsFragment(g, m, p)
    ensures Spanning(g, m) <==> p.at.ptr % WINDOW_SIZE + p.count > WINDOW_SIZE
  {
    if Spanning(g, m) {
      var q :| IsFragment(g, m, q) && q.at.ptr % WINDOW_SIZE + q.count > WINDOW_SIZE;
      FragmentDeterminesPiece(g, p, q);
    }
  }

  lemma OtherFramesStay(g: Setting, x: Rcv.Ctx, m: seq<byte>)
    requires Admissible(g) && Rcv.Valid(x) && Frame(g, m) && x.state != Rcv.Fault
    requires !Rcv.Receiving(x.state) || FragmentType(m) != RegularFragment
    ensures Rcv.Receive(x, m).ctx.state != Rcv.Fault
    ensures FragmentType(m) != RegularFragment ==> !Spanning(g, m)
  {
    if Spanning(g, m) {
      var q :| IsFragment(g, m, q);
      FragmentIsFrame(g, q);
    }
  }

  /** In any run, a fragment over two windows that arrives in the repair phase makes the receiver leave
      a buffer, and nothing else does. */
  lemma OnlyLateFragmentsFault(g: Setting, events: seq<Event>, m: seq<byte>)
    requires Admissible(g)
    ensures var s := After(g, events);
            m in s.toRcv && m != [] && s.rcv.state != Rcv.Fault ==>
              (Rcv.Receive(s.rcv, m).ctx.state == Rcv.Fault <==> s.rcv.state == Rcv.WaitMissing && Spanning(g, m))
  {
    RunKeepsInvariant(g, events);
    var s := After(g, events);
    if m in s.toRcv && s.rcv.state != Rcv.Fault {
      FaultExactly(g, s.rcv, m);
    }
  }

  /** The last window's flags are all set exactly when it has a regular tile for every position but
      the All-1's. */
  lemma LastRowComplete(g: Setting, bitmap: seq<seq<bit>>)
    requires Admissible(g) && Bitmaps(bitmap, MAX_WINDOWS) && HasAll(g, bitmap) && NothingBeyond(g, bitmap)
    requires 1 <= W(g) <= MAX_WINDOWS && bitmap[W(g) - 1][WINDOW_SIZE - 1] == 1
    ensures Complete(bitmap[W(g) - 1]) <==> N(g) == WINDOW_SIZE * W(g) - 1
  {
    TilingExact(g.packet);
    var w := W(g) - 1;
    if N(g) < WINDOW_SIZE * W(g) - 1 {
      assert !Has(bitmap, N(g)) && N(g) / WINDOW_SIZE == w;
      assert bitmap[w][N(g) % WINDOW_SIZE] == 0;
    } else {
      forall b | 0 <= b < |bitmap[w]| ensures bitmap[w][b] == 1 {
        if b < WINDOW_SIZE - 1 {
          var t := WINDOW_SIZE * w + b;
          assert Has(bitmap, t) && t / WINDOW_SIZE == w && t % WINDOW_SIZE == b;
        }
      }
    }
  }

  /** An All-1 that comes in the repair phase and completes the packet ends the receiver, but its answer
      acknowledges only when the last window is full; otherwise it reports errors to a sender that
      nobody will answer any more. */
  lemma LateAllOneAnswer(g: Setting, x: Rcv.Ctx, m: seq<byte>)
    requires Admissible(g) && Honest(g, x) && x.state == Rcv.WaitMissing && HasAll(g, x.bitmap)
    requires Frame(g, m) && FragmentType(m) == AllOneFragment
    ensures var o := Rcv.Receive(x, m);
            && o.ctx.state == Rcv.End && |o.replies| == 1 && o.replies[0] != []
            && (COf(o.replies[0]) == 1 <==> N(g) == WINDOW_SIZE * W(g) - 1)
  {
    TakesAllOne(g, x, m, 8);
    var y := Rcv.Flagged(Rcv.Closing(x, m, 8));
    TilingExact(g.packet);
    CompleteMeansPacket(g, y);
    LastRowComplete(g, y.bitmap);
    PositiveReply(g, y.lastWindow);
    NackReply(g, y.lastWindow, y.bitmap[y.lastWindow]);
  }

  // ---- One repair round -----------------------------------------------------------------------

  /** Fragments arriving one after the other. */
  function Received(x: Rcv.Ctx, frames: seq<seq<byte>>): (y: Rcv.Ctx)
    requires Rcv.Valid(x)
    ensures Rcv.Valid(y)
  {
    if frames == [] then x
    else
      var before := Received(x, frames[..|frames| - 1]);
      var m := frames[|frames| - 1];
      if m == [] then before else Rcv.Receive(before, m).ctx
  }

  /** A receiver in the repair phase that has the All-1 and knows it is short. */
  predicate Short(g: Setting, x: Rcv.Ctx)
    requires Admissible(g)
  {
    Honest(g, x) && x.state == Rcv.WaitMissing && Closed(x) && !Rcv.CheckRcs(x)
  }

  /** A fragment that stays inside its window is stored: either the packet is complete, or the
      receiver is still short but has the tiles. */
  lemma RepairFragment(g: Setting, x: Rcv.Ctx, m: seq<byte>, p: Piece)
    requires Admissible(g) && Short(g, x) && IsFragment(g, m, p) && p.at.ptr % WINDOW_SIZE + p.count <= WINDOW_SIZE
    ensures m != []
    ensures var y := Rcv.Receive(x, m).ctx;
            || y.state == Rcv.End
            || (Short(g, y) && forall t: nat :: t < N(g) && (Has(x.bitmap, t) || Carries(p, t)) ==> Has(y.bitmap, t))
  {
    TilingExact(g.packet);
    StoresFragment(g, x, m, p);
  }

  /** The pieces stay within their windows. */
  predicate Repairs(g: Setting, pieces: seq<Piece>)
    requires Admissible(g)
  {
    forall i :: 0 <= i < |pieces| ==> Cutting(g, pieces[i]) && pieces[i].at.ptr % WINDOW_SIZE + pieces[i].count <= WINDOW_SIZE
  }

  /** The receiver has ended, or is still short and has everything it had and the pieces' tiles. */
  predicate Progressed(g: Setting, x: Rcv.Ctx, y: Rcv.Ctx, pieces: seq<Piece>)
    requires Admissible(g) && Rcv.Valid(x)
  {
    y.state == Rcv.End
    || (Short(g, y) && forall t: nat :: t < N(g) && (Has(x.bitmap, t) || TimesSent(pieces, t) > 0) ==> Has(y.bitmap, t))
  }

  lemma OneMoreFragment(g: Setting, x: Rcv.Ctx, before: Rcv.Ctx, init: seq<Piece>, p: Piece)
    requires Admissible(g) && Rcv.Valid(x) && Rcv.Valid(before) && Progressed(g, x, before, init)
    requires Cutting(g, p) && p.at.ptr % WINDOW_SIZE + p.count <= WINDOW_SIZE
    ensures var m := Snd.Fragment(PacketTiles(g.packet), p);
            m != [] && Progressed(g, x, Rcv.Receive(before, m).ctx, init + [p])
  {
    var m := Snd.Fragment(PacketTiles(g.packet), p);
    FragmentIsFrame(g, p);
    if before.state != Rcv.End {
      RepairFragment(g, before, m, p);
      forall t: nat | t < N(g) && TimesSent(init + [p], t) > 0 ensures TimesSent(init, t) > 0 || Carries(p, t) {
        assert [p][1..] == [];
        TimesSentAppend(init, [p], t);
      }
    }
  }

  /** However many fragments have arrived, in whatever order. */
  lemma {:induction false} RepairFragments(g: Setting, x: Rcv.Ctx, pieces: seq<Piece>)
    requires Admissible(g) && Short(g, x) && Repairs(g, pieces)
    ensures Within(pieces, N(g))
    ensures Progressed(g, x, Received(x, Snd.Fragments(PacketTiles(g.packet), pieces)), pieces)
    decreases |pieces|
  {
    if pieces == [] {
    } else {
      var init, p := pieces[..|pieces| - 1], pieces[|pieces| - 1];
      var frames := Snd.Fragments(PacketTiles(g.packet), pieces);
      RepairFragments(g, x, init);
      assert frames[..|frames| - 1] == Snd.Fragments(PacketTiles(g.packet), init);
      assert init + [p] == pieces;
      OneMoreFragment(g, x, Received(x, frames[..|frames| - 1]), init, p);
    }
  }

  /** The sender's repair once it has decoded the receiver's report. */
  lemma ReportTaken(g: Setting, x: Rcv.Ctx, y: Snd.Ctx)
    requires Admissible(g) && g.mode == Compound && Short(g, x) && SenderOk(g, y) && y.state == Snd.WaitAck
    ensures Rcv.Report(x) != []
    ensures var z := Snd.Receive(y, Rcv.Report(x), g.available).ctx;
            && SenderOk(g, z) && z.state == Snd.Resending && z.windows == ErrorWindows(x.bitmap, x.lastWindow)
            && Reportable(z.windows, x.bitmap) && Reportable(z.windows, y.rows) && z.rows == Copied(z.windows, x.bitmap, y.rows)
  {
    var windows := ErrorWindows(x.bitmap, x.lastWindow);
    TilingExact(g.packet);
    assert Reportable(windows, x.bitmap) && Reportable(windows, y.rows);
    ReportReply(g, x);
    SenderReceives(g, y, Rcv.Report(x));
    ReportRead(g, windows, x.lastWindow, x.bitmap, y);
  }

  lemma ReportRead(g: Setting, windows: seq<nat>, last: nat, bitmap: seq<seq<bit>>, y: Snd.Ctx)
    requires windows != [] && Reportable(windows, bitmap) && Reportable(windows, y.rows)
    requires Snd.Valid(y) && y.state == Snd.WaitAck && y.mode == Compound && y.windows == []
    ensures var m := CompoundAckMsg(last, windows, bitmap);
            && m != [] && (AckType(m) == Ack || AckType(m) == CompoundAck)
            && Snd.Acknowledged(y, m)
               == y.(rows := Copied(windows, bitmap, y.rows), attempts := 0, state := Snd.Resending, windows := windows)
  {
    CompoundRoundTrip(last, windows, bitmap, y.rows);
    assert |windows| == 1 ==> windows == [windows[0]];
    assert [] + [windows[0]] == [windows[0]];
  }

  /** Whatever the receiver misses is wanted by the repair. */
  lemma MissingIsWanted(g: Setting, x: Rcv.Ctx, z: Snd.Ctx, rows: seq<seq<bit>>, t: nat)
    requires Admissible(g) && Honest(g, x) && Closed(x) && SenderOk(g, z) && z.state == Snd.Resending && z.mode == Compound
    requires z.windows == ErrorWindows(x.bitmap, x.lastWindow) && Reportable(z.windows, x.bitmap)
    requires Reportable(z.windows, rows) && |rows| == W(g) && z.rows == Copied(z.windows, x.bitmap, rows)
    requires t < N(g) && !Has(x.bitmap, t)
    ensures Wanted(Snd.RepairOf(z, g.available), t)
  {
    TilingExact(g.packet);
    var a, b := t / WINDOW_SIZE, t % WINDOW_SIZE;
    assert x.bitmap[a][b] == 0 && a <= x.lastWindow;
    assert a in z.windows by {
      if a < x.lastWindow {
        assert !Complete(x.bitmap[a]);
        assert a in IncompleteBefore(x.bitmap, x.lastWindow);
      }
    }
    assert z.rows[a][b] == x.bitmap[a][..WINDOW_SIZE][b];
  }

  /** What RESEND emits once the sender has decoded a report. */
  function RepairFrames(g: Setting, y: Snd.Ctx, report: seq<byte>): seq<seq<byte>>
    requires Admissible(g) && Snd.Valid(y) && report != []
  {
    var z := Snd.Receive(y, report, g.available).ctx;
    if z.state == Snd.Resending && z.mode == Compound && Sound(Snd.RepairOf(z, g.available)) && z.windows != []
    then Snd.ResendAll(z, g.available).frames
    else []
  }

  lemma RepairFramesAreRun(g: Setting, x: Rcv.Ctx, y: Snd.Ctx)
    requires Admissible(g) && g.mode == Compound && Short(g, x) && SenderOk(g, y) && y.state == Snd.WaitAck
    ensures Rcv.Report(x) != []
    ensures var r := Snd.RepairOf(Snd.Receive(y, Rcv.Report(x), g.available).ctx, g.available);
            && Sound(r) && r.windows != [] && Repairs(g, Run(r).0) && Within(Run(r).0, N(g))
            && RepairFrames(g, y, Rcv.Report(x)) == Snd.Fragments(PacketTiles(g.packet), Run(r).0)
            && forall t: nat :: t < N(g) && !Has(x.bitmap, t) ==> TimesSent(Run(r).0, t) == 1
  {
    ReportTaken(g, x, y);
    var z := Snd.Receive(y, Rcv.Report(x), g.available).ctx;
    var r := Snd.RepairOf(z, g.available);
    RepairSound(g, z);
    RunExact(r);
    Snd.ResendAllIsRun(z, g.available);
    forall i | 0 <= i < |Run(r).0|
      ensures Cutting(g, Run(r).0[i]) && Run(r).0[i].at.ptr % WINDOW_SIZE + Run(r).0[i].count <= WINDOW_SIZE
    {
      assert WellFormed(Run(r).0[i], r);
    }
    forall t: nat | t < N(g) && !Has(x.bitmap, t) ensures TimesSent(Run(r).0, t) == 1 {
      MissingIsWanted(g, x, z, y.rows, t);
    }
  }

  /** Arrivals that are among the given fragments come from a list of the same pieces. */
  lemma {:induction false} ArrivalsAsPieces(g: Setting, pieces: seq<Piece>, arrivals: seq<seq<byte>>) returns (order: seq<Piece>)
    requires Admissible(g) && Repairs(g, pieces) && Within(pieces, N(g))
    requires forall f :: f in arrivals ==> f in Snd.Fragments(PacketTiles(g.packet), pieces)
    ensures Repairs(g, order) && Within(order, N(g)) && arrivals == Snd.Fragments(PacketTiles(g.packet), order)
    decreases |arrivals|
  {
    if arrivals == [] {
      order := [];
    } else {
      var init, f := arrivals[..|arrivals| - 1], arrivals[|arrivals| - 1];
      assert f in arrivals && forall e :: e in init ==> e in arrivals;
      order := ArrivalsAsPieces(g, pieces, init);
      var p := PieceOfFrame(g, pieces, f);
      ghost var longer := order + [p];
      assert Snd.Fragments(PacketTiles(g.packet), longer) == init + [f];
      assert init + [f] == arrivals;
      order := longer;
    }
  }

  lemma PieceOfFrame(g: Setting, pieces: seq<Piece>, f: seq<byte>) returns (p: Piece)
    requires Admissible(g) && Repairs(g, pieces) && Within(pieces, N(g))
    requires f in Snd.Fragments(PacketTiles(g.packet), pieces)
    ensures Cutting(g, p) && p.at.ptr % WINDOW_SIZE + p.count <= WINDOW_SIZE && f == Snd.Fragment(PacketTiles(g.packet), p)
  {
    var i :| 0 <= i < |Snd.Fragments(PacketTiles(g.packet), pieces)| && Snd.Fragments(PacketTiles(g.packet), pieces)[i] == f;
    p := pieces[i];
  }

  lemma EveryPieceArrives(g: Setting, pieces: seq<Piece>, order: seq<Piece>, i: nat)
    requires Admissible(g) && Repairs(g, pieces) && Within(pieces, N(g)) && Repairs(g, order) && Within(order, N(g))
    requires i < |pieces|
    requires Snd.Fragments(PacketTiles(g.packet), pieces)[i] in Snd.Fragments(PacketTiles(g.packet), order)
    ensures pieces[i] in order
  {
    var f := Snd.Fragments(PacketTiles(g.packet), pieces)[i];
    var j :| 0 <= j < |order| && Snd.Fragments(PacketTiles(g.packet), order)[j] == f;
    FragmentDeterminesPiece(g, order[j], pieces[i]);
  }

  /** A fragment tells where it was cut. */
  lemma FragmentDeterminesPiece(g: Setting, p: Piece, q: Piece)
    requires Admissible(g) && Cutting(g, p) && Cutting(g, q)
    requires Snd.Fragment(PacketTiles(g.packet), p) == Snd.Fragment(PacketTiles(g.packet), q)
    ensures p == q
  {
    FragmentIsFrame(g, p);
    FragmentIsFrame(g, q);
  }

  lemma RequestGetsReport(g: Setting, x: Rcv.Ctx, w: nat)
    requires Admissible(g) && g.mode == Compound && Short(g, x) && w < W(g)
    ensures Rcv.Receive(x, AckRequestMsg(w)) == Rcv.Reaction(x, [Rcv.Report(x)])
  {
    TilingExact(g.packet);
    ReadFragments(w, 0, [0]);
  }

  lemma RoundEnds(g: Setting, x: Rcv.Ctx, y: Snd.Ctx, arrivals: seq<seq<byte>>)
    requires Admissible(g) && g.mode == Compound && Short(g, x) && SenderOk(g, y) && y.state == Snd.WaitAck
    requires Rcv.Report(x) != []
    requires forall f :: f in arrivals <==> f in RepairFrames(g, y, Rcv.Report(x))
    ensures Received(x, arrivals).state == Rcv.End
  {
    RepairFramesAreRun(g, x, y);
    var pieces := Run(Snd.RepairOf(Snd.Receive(y, Rcv.Report(x), g.available).ctx, g.available)).0;
    var order := ArrivalsAsPieces(g, pieces, arrivals);
    RepairFragments(g, x, order);
    var end := Received(x, arrivals);
    if end.state != Rcv.End {
      forall t: nat | t < N(g) ensures Has(end.bitmap, t) {
        if !Has(x.bitmap, t) {
          SentBySome(pieces, t);
          var i :| 0 <= i < |pieces| && Carries(pieces[i], t);
          assert Snd.Fragments(PacketTiles(g.packet), pieces)[i] in arrivals;
          EveryPieceArrives(g, pieces, order, i);
          var j :| 0 <= j < |order| && order[j] == pieces[i];
          SentBySome(order, t);
        }
      }
      CompleteMeansPacket(g, end);
    }
  }
}
