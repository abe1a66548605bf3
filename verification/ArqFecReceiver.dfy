/** The ARQ-FEC receiver: INIT, RCV_WINDOW, WAIT_X_ALL_1, WAIT_X_MISSING_FRAGS and END, first as a
    function from one context to the next, then as the object that updates its fields in loops. */
module ArqFecReceiver {
  import opened Bytes
  import opened Message
  import opened Tiling
  import opened Numbering
  import opened FecMatrix
  import opened WindowBitmaps
  import Rcs

  type fraction = x: real | x >= 0.0

  /** `ceil(k * overhead)` */
  function Parity(k: nat, overhead: fraction): (r: nat)
    ensures r as real >= k as real * overhead && r as real < k as real * overhead + 1.0
  {
    var x := k as real * overhead;
    if x.Floor as real == x then x.Floor else x.Floor + 1
  }

  datatype State =
    | Init | RcvWindow | WaitAllOne | WaitMissing | End
    | Fault // an access outside a buffer

  datatype Ctx = Ctx(state: State, code: Code, overhead: fraction, k: nat, r: nat, n: nat,
                     c: matrix, m: markers, d: matrix, bitmap: seq<seq<bit>>,
                     lastWindow: nat, lastTile: seq<byte>, rcs: Rcs.word)

  /** A step's outcome: the new context, the frames sent back, the packets handed to the network. */
  datatype Reaction = Reaction(ctx: Ctx, replies: seq<seq<byte>>, delivered: seq<seq<byte>>)

  predicate Receiving(s: State) { s == RcvWindow || s == WaitAllOne || s == WaitMissing }

  predicate Valid(x: Ctx) {
    && Bitmaps(x.bitmap, MAX_WINDOWS) && x.lastWindow < MAX_WINDOWS
    && (Receiving(x.state) ==> Shaped(x.c, x.n) && Shaped(x.m, x.n) && |x.d| == TILE_SIZE)
  }

  function Fresh(code: Code, overhead: fraction): (x: Ctx)
    ensures Valid(x)
  {
    Ctx(Init, code, overhead, 0, 0, 0, [], [], [], NoTiles(MAX_WINDOWS), 0, Repeat(0, TILE_SIZE), Rcs.ZERO)
  }

  function Blank<T>(x: T, n: nat): (m: seq<seq<T>>)
    ensures Shaped(m, n)
  {
    seq(TILE_SIZE, _ => Repeat(x, n))
  }

  // ---- Storing tiles --------------------------------------------------------------------------

  /** Every access of the storing loop falls inside the payload, the tile array, the bitmap row of
      this window or the next, and the matrix. */
  predicate Storable(n: nat, w: nat, fcn: nat, body: seq<byte>, count: nat) {
    count == 0 ||
    (&& fcn < WINDOW_SIZE
     && TILE_SIZE * count <= |body|
     && 0 <= TilePtr(w, fcn) && TilePtr(w, fcn) + count <= n
     && TilePtr(w, fcn) + count <= MAX_WINDOWS * WINDOW_SIZE
     && WINDOW_SIZE - 1 - fcn + count <= 2 * WINDOW_SIZE)
  }

  function Store(x: Ctx, w: nat, fcn: nat, body: seq<byte>, count: nat): (y: Ctx)
    requires Valid(x) && Shaped(x.c, x.n) && Shaped(x.m, x.n) && Storable(x.n, w, fcn, body, count)
    ensures Valid(x) && Shaped(y.c, x.n) && Shaped(y.m, x.n) && Bitmaps(y.bitmap, MAX_WINDOWS)
  {
    if count == 0 then x
    else
      var first := TilePtr(w, fcn);
      x.(c := StoredColumns(x.c, x.n, first, count, body), m := MarkedColumns(x.m, x.n, first, count),
         bitmap := MarkedTiles(x.bitmap, first, count))
  }

  /** A regular fragment after the first one. The number of tiles is taken from a payload length
      that still counts the leading byte with `k`. */
  function Stored(x: Ctx, msg: seq<byte>): (y: Ctx)
    requires Valid(x) && Receiving(x.state) && TypeOf(msg) == RegularFragment
    ensures Valid(y)
  {
    var payload := PayloadOf(msg);
    var count := |payload| / TILE_SIZE;
    var learnt := x.(lastWindow := Max(x.lastWindow, WOf(msg)), k := payload[0]);
    if Storable(x.n, WOf(msg), FcnOf(msg), payload[1..], count)
    then Store(learnt, WOf(msg), FcnOf(msg), payload[1..], count)
    else learnt.(state := Fault)
  }

  function TypeOf(msg: seq<byte>): MsgType {
    if msg == [] then Unclassified else FragmentType(msg)
  }

  // ---- Answers --------------------------------------------------------------------------------

  function Report(x: Ctx): seq<byte>
    requires Valid(x)
  {
    CompoundAckMsg(x.lastWindow, ErrorWindows(x.bitmap, x.lastWindow), x.bitmap)
  }

  /** Decode, flatten, append the last tile, compare the RCS: deliver and acknowledge on success. */
  function Conclude(x: Ctx, onMismatch: State): (o: Reaction)
    requires Valid(x) && Receiving(x.state)
    ensures Valid(o.ctx)
  {
    var d := DecodedRows(x.code, x.c, x.m, x.r, x.d, 0);
    var packet := Concat(d) + x.lastTile;
    if x.rcs == Rcs.Crc32(packet) then Reaction(x.(state := End, d := d), [PositiveAckMsg(3)], [packet])
    else Reaction(x.(state := onMismatch, d := d), [], [])
  }

  // ---- The states -----------------------------------------------------------------------------

  /** INIT learns `k` and sizes the matrices. */
  function Learnt(x: Ctx, w: nat, k: nat): (y: Ctx)
    requires Valid(x) && w < MAX_WINDOWS
    ensures Valid(y) && Shaped(y.c, y.n) && Shaped(y.m, y.n) && |y.d| == TILE_SIZE
  {
    var r := Parity(k, x.overhead);
    x.(lastWindow := Max(x.lastWindow, w), k := k, r := r, n := k + r,
       c := Blank(0, k + r), m := Blank(0, k + r), d := Blank(0, k))
  }

  /** INIT stores the first fragment; anything but a regular fragment ends the session. */
  function OnFirst(x: Ctx, msg: seq<byte>): (o: Reaction)
    requires Valid(x) && msg != []
    ensures Valid(o.ctx)
  {
    if FragmentType(msg) != RegularFragment then Reaction(x.(state := End), [], [])
    else
      var body := PayloadOf(msg)[1..];
      var sized := Learnt(x, WOf(msg), PayloadOf(msg)[0]);
      if Storable(sized.n, WOf(msg), FcnOf(msg), body, |body| / TILE_SIZE)
      then Reaction(Store(sized, WOf(msg), FcnOf(msg), body, |body| / TILE_SIZE).(state := RcvWindow), [], [])
      else Reaction(sized.(state := Fault), [], [])
  }

  /** Last tile, last window and RCS taken over, and the All-1's own position marked. */
  function Closing(x: Ctx, msg: seq<byte>): (y: Ctx)
    requires Valid(x) && |msg| >= 5
    ensures Valid(y)
  {
    var w := WOf(msg);
    x.(lastTile := LastTileOf(msg), lastWindow := w, rcs := RcsOf(msg),
       bitmap := x.bitmap[w := x.bitmap[w][WINDOW_SIZE - 1 := 1]])
  }

  function OnAllOne(x: Ctx, msg: seq<byte>): (o: Reaction)
    requires Valid(x) && Receiving(x.state) && TypeOf(msg) == AllOneFragment
    ensures Valid(o.ctx)
  {
    if |msg| < 5 then Reaction(x.(state := Fault), [], [])
    else
      var closed := Closing(x, msg);
      if EnoughSymbols(x.m, x.k) then Conclude(closed, x.state)
      else Reaction(closed.(state := WaitMissing), [Report(closed)], [])
  }

  function OnWindow(x: Ctx, msg: seq<byte>): (o: Reaction)
    requires Valid(x) && x.state == RcvWindow && msg != []
    ensures Valid(o.ctx)
  {
    match FragmentType(msg)
    case RegularFragment =>
      var y := Stored(x, msg);
      if y.state != Fault && EnoughSymbols(y.m, y.k) then Reaction(y.(state := WaitAllOne), [PositiveAckMsg(1)], [])
      else Reaction(y, [], [])
    case AllOneFragment => OnAllOne(x, msg)
    case _ => Reaction(x, [], [])
  }

  function OnMissing(x: Ctx, msg: seq<byte>): (o: Reaction)
    requires Valid(x) && x.state == WaitMissing && msg != []
    ensures Valid(o.ctx)
  {
    match FragmentType(msg)
    case RegularFragment =>
      var y := Stored(x, msg);
      if y.state != Fault && EnoughSymbols(y.m, y.k) then Conclude(y, End) else Reaction(y, [], [])
    case AckRequest =>
      if EnoughSymbols(x.m, x.k) then Reaction(x.(state := End), [PositiveAckMsg(1)], [])
      else Reaction(x, [Report(x)], [])
    case _ => Reaction(x, [], [])
  }

  /** One message, dispatched on the state. */
  function Receive(x: Ctx, msg: seq<byte>): (o: Reaction)
    requires Valid(x) && msg != []
    ensures Valid(o.ctx)
  {
    match x.state
    case Init => OnFirst(x, msg)
    case RcvWindow => OnWindow(x, msg)
    case WaitAllOne => if FragmentType(msg) == AllOneFragment then OnAllOne(x, msg) else Reaction(x, [], [])
    case WaitMissing => OnMissing(x, msg)
    case End => Reaction(x, if FragmentType(msg) == AllOneFragment then [PositiveAckMsg(3)] else [], [])
    case Fault => Reaction(x, [], [])
  }

  // ---- The object -----------------------------------------------------------------------------

  class Receiver {
    const code: Code
    const overhead: fraction
    var state: State
    var kSymbols: nat
    var rSymbols: nat
    var nSymbols: nat
    var encodedMatrix: matrix
    var encodedMatrixMap: markers
    var dataMatrix: matrix
    var bitmapArray: seq<seq<bit>>
    var lastWindow: nat
    var lastTile: seq<byte>
    var rcs: Rcs.word

    function Context(): Ctx
      reads this
    {
      Ctx(state, code, overhead, kSymbols, rSymbols, nSymbols, encodedMatrix, encodedMatrixMap, dataMatrix,
          bitmapArray, lastWindow, lastTile, rcs)
    }

    constructor (code: Code, overhead: fraction)
      ensures Context() == Fresh(code, overhead) && Valid(Context())
    {
      this.code, this.overhead := code, overhead;
      state, kSymbols, rSymbols, nSymbols := Init, 0, 0, 0;
      encodedMatrix, encodedMatrixMap, dataMatrix := [], [], [];
      bitmapArray, lastWindow, lastTile, rcs := NoTiles(MAX_WINDOWS), 0, Repeat(0, TILE_SIZE), Rcs.ZERO;
    }

    /** The storing loop: tile by tile, into the bitmap of this window or the next and, byte by byte,
        into a column of the matrix. */
    method StoreTiles(w: nat, fcn: nat, body: seq<byte>, count: nat)
      requires Valid(Context()) && Shaped(encodedMatrix, nSymbols) && Shaped(encodedMatrixMap, nSymbols)
      requires Storable(nSymbols, w, fcn, body, count)
      modifies this`encodedMatrix, this`encodedMatrixMap, this`bitmapArray
      ensures Context() == Store(old(Context()), w, fcn, body, count)
    {
      if count == 0 {
        return;
      }
      var tilePtr := TilePtr(w, fcn);
      ghost var c: matrix, m: markers, rows: seq<seq<bit>> := encodedMatrix, encodedMatrixMap, bitmapArray;
      NoneStored(c, nSymbols, tilePtr, body);
      NoneMarkedColumns(m, nSymbols, tilePtr);
      NoneMarked(rows, tilePtr);
      for i := 0 to count
        invariant encodedMatrix == StoredColumns(c, nSymbols, tilePtr, i, body)
        invariant encodedMatrixMap == MarkedColumns(m, nSymbols, tilePtr, i)
        invariant bitmapArray == MarkedTiles(rows, tilePtr, i)
      {
        StoreOne(w, fcn, tilePtr, i, body, c, m, rows);
      }
    }

    method StoreOne(w: nat, fcn: nat, tilePtr: nat, i: nat, body: seq<byte>, ghost c: matrix, ghost m: markers, ghost rows: seq<seq<bit>>)
      requires Shaped(c, nSymbols) && Shaped(m, nSymbols) && Bitmaps(rows, MAX_WINDOWS)
      requires fcn < WINDOW_SIZE && tilePtr == WINDOW_SIZE * w + WINDOW_SIZE - 1 - fcn && WINDOW_SIZE - 1 - fcn + i < 2 * WINDOW_SIZE
      requires tilePtr + i < nSymbols && tilePtr + i < MAX_WINDOWS * WINDOW_SIZE && TILE_SIZE * (i + 1) <= |body|
      requires encodedMatrix == StoredColumns(c, nSymbols, tilePtr, i, body)
      requires encodedMatrixMap == MarkedColumns(m, nSymbols, tilePtr, i)
      requires bitmapArray == MarkedTiles(rows, tilePtr, i)
      modifies this`encodedMatrix, this`encodedMatrixMap, this`bitmapArray
      ensures encodedMatrix == StoredColumns(c, nSymbols, tilePtr, i + 1, body)
      ensures encodedMatrixMap == MarkedColumns(m, nSymbols, tilePtr, i + 1)
      ensures bitmapArray == MarkedTiles(rows, tilePtr, i + 1)
    {
      MarkNext(rows, tilePtr, i);
      StoreNext(c, nSymbols, tilePtr, i, body);
      MarkNextColumn(m, nSymbols, tilePtr, i);
      bitmapArray := MarkTile(bitmapArray, w, WINDOW_SIZE - 1 - fcn + i);
      var window := (tilePtr + i) / WINDOW_SIZE;
      StoreTileInMatrix(body[TILE_SIZE * i..TILE_SIZE * i + TILE_SIZE], window,
                        (window + 1) * WINDOW_SIZE - 1 - (tilePtr + i));
    }

    /** `storeTileinCmatrix` */
    method StoreTileInMatrix(t: tile, w: nat, fcn: nat)
      requires Shaped(encodedMatrix, nSymbols) && Shaped(encodedMatrixMap, nSymbols)
      requires 0 <= WINDOW_SIZE * (w + 1) - fcn - 1 < nSymbols
      modifies this`encodedMatrix, this`encodedMatrixMap
      ensures encodedMatrix == WithColumn(old(encodedMatrix), nSymbols, WINDOW_SIZE * (w + 1) - fcn - 1, t)
      ensures encodedMatrixMap == WithColumn(old(encodedMatrixMap), nSymbols, WINDOW_SIZE * (w + 1) - fcn - 1, Repeat(1, TILE_SIZE))
    {
      var col := WINDOW_SIZE * (w + 1) - fcn - 1;
      ghost var c, m := encodedMatrix, encodedMatrixMap;
      for j := 0 to TILE_SIZE
        invariant Shaped(encodedMatrix, nSymbols) && Shaped(encodedMatrixMap, nSymbols)
        invariant forall a :: 0 <= a < j ==> encodedMatrix[a] == WithSymbol(c[a], col, t[a])
        invariant forall a :: 0 <= a < j ==> encodedMatrixMap[a] == WithSymbol(m[a], col, 1)
        invariant forall a :: j <= a < TILE_SIZE ==> encodedMatrix[a] == c[a] && encodedMatrixMap[a] == m[a]
      {
        encodedMatrix := encodedMatrix[j := encodedMatrix[j][col := t[j]]];
        encodedMatrixMap := encodedMatrixMap[j := encodedMatrixMap[j][col := 1]];
      }
    }

    /** `checkEnoughSymbols` */
    method CheckEnoughSymbols() returns (enough: bool)
      ensures enough == EnoughSymbols(encodedMatrixMap, kSymbols)
    {
      for j := 0 to |encodedMatrixMap|
        invariant forall a :: 0 <= a < j ==> Sum(encodedMatrixMap[a]) >= kSymbols
      {
        var row := encodedMatrixMap[j];
        var sum := 0;
        for i := 0 to |row|
          invariant sum == Sum(row[..i])
        {
          assert row[..i + 1][..i] == row[..i];
          sum := sum + row[i];
        }
        assert row[..|row|] == row;
        if sum < kSymbols {
          return false;
        }
      }
      return true;
    }

    /** `decodeCmatrix` */
    method DecodeMatrix()
      requires Valid(Context()) && Receiving(state)
      modifies this`dataMatrix
      ensures dataMatrix == DecodedRows(code, encodedMatrix, encodedMatrixMap, rSymbols, old(dataMatrix), 0)
    {
      ghost var result := DecodedRows(code, encodedMatrix, encodedMatrixMap, rSymbols, dataMatrix, 0);
      for i := 0 to TILE_SIZE
        invariant |dataMatrix| == TILE_SIZE
        invariant DecodedRows(code, encodedMatrix, encodedMatrixMap, rSymbols, dataMatrix, i) == result
      {
        var row := encodedMatrixMap[i];
        var erasures := [];
        for col := 0 to |row|
          invariant erasures == Erasures(row[..col])
        {
          assert row[..col + 1][..col] == row[..col];
          if row[col] == 0 {
            erasures := erasures + [col];
          }
        }
        assert row[..|row|] == row;
        if |erasures| > rSymbols {
          break;
        }
        match code.decode(encodedMatrix[i], erasures, rSymbols) {
          case None => break;
          case Some(decoded) => dataMatrix := dataMatrix[i := decoded];
        }
      }
    }

    /** `convertDmatrix_to_SCHCPacket` */
    method FlattenMatrix() returns (flat: seq<byte>)
      ensures flat == Concat(dataMatrix)
    {
      flat := [];
      for i := 0 to |dataMatrix|
        invariant flat == Concat(dataMatrix[..i])
      {
        assert dataMatrix[..i + 1][..i] == dataMatrix[..i];
        flat := flat + dataMatrix[i];
      }
      assert dataMatrix[..|dataMatrix|] == dataMatrix;
    }

    method CheckIntegrity(onMismatch: State) returns (replies: seq<seq<byte>>, delivered: seq<seq<byte>>)
      requires Valid(Context()) && Receiving(state)
      modifies this`state, this`dataMatrix
      ensures Reaction(Context(), replies, delivered) == Conclude(old(Context()), onMismatch)
    {
      DecodeMatrix();
      var packet := FlattenMatrix();
      packet := packet + lastTile;
      var calculated := Rcs.CalculateCrc32(packet);
      if rcs == calculated {
        replies, delivered := [PositiveAckMsg(3)], [packet];
        state := End;
      } else {
        replies, delivered := [], [];
        state := onMismatch;
      }
    }

    method SendReport() returns (replies: seq<seq<byte>>)
      requires Valid(Context())
      ensures replies == [Report(Context())]
    {
      var windows := WindowsWithError(bitmapArray, lastWindow);
      replies := [CompoundAckMsg(lastWindow, windows, bitmapArray)];
    }

    method AcceptFragment(msg: seq<byte>)
      requires Valid(Context()) && Receiving(state) && TypeOf(msg) == RegularFragment
      modifies this
      ensures Context() == Stored(old(Context()), msg)
    {
      var payload, w, fcn := PayloadOf(msg), WOf(msg), FcnOf(msg);
      if w > lastWindow {
        lastWindow := w;
      }
      kSymbols := payload[0];
      var count := |payload| / TILE_SIZE;
      if Storable(nSymbols, w, fcn, payload[1..], count) {
        StoreTiles(w, fcn, payload[1..], count);
      } else {
        state := Fault;
      }
    }

    method AcceptAllOne(msg: seq<byte>) returns (replies: seq<seq<byte>>, delivered: seq<seq<byte>>)
      requires Valid(Context()) && Receiving(state) && TypeOf(msg) == AllOneFragment
      modifies this
      ensures Reaction(Context(), replies, delivered) == OnAllOne(old(Context()), msg)
    {
      replies, delivered := [], [];
      if |msg| < 5 {
        state := Fault;
        return;
      }
      Close(msg);
      var enough := CheckEnoughSymbols();
      if enough {
        replies, delivered := CheckIntegrity(state);
      } else {
        replies := SendReport();
        state := WaitMissing;
      }
    }

    method Close(msg: seq<byte>)
      requires Valid(Context()) && |msg| >= 5
      modifies this`lastTile, this`lastWindow, this`rcs, this`bitmapArray
      ensures Context() == Closing(old(Context()), msg)
    {
      lastTile, lastWindow, rcs := LastTileOf(msg), WOf(msg), RcsOf(msg);
      bitmapArray := bitmapArray[lastWindow := bitmapArray[lastWindow][WINDOW_SIZE - 1 := 1]];
    }

    method ExecuteInit(msg: seq<byte>)
      requires Valid(Context()) && state == Init && msg != []
      modifies this
      ensures Reaction(Context(), [], []) == OnFirst(old(Context()), msg)
    {
      if FragmentType(msg) != RegularFragment {
        state := End;
        return;
      }
      var payload, w, fcn := PayloadOf(msg), WOf(msg), FcnOf(msg);
      InitializeMatrices(w, payload[0]);
      payload := payload[1..];
      var count := |payload| / TILE_SIZE;
      if Storable(nSymbols, w, fcn, payload, count) {
        StoreTiles(w, fcn, payload, count);
        state := RcvWindow;
      } else {
        state := Fault;
      }
    }

    method InitializeMatrices(w: nat, k: nat)
      requires Valid(Context()) && w < MAX_WINDOWS
      modifies this`lastWindow, this`kSymbols, this`rSymbols, this`nSymbols
      modifies this`encodedMatrix, this`encodedMatrixMap, this`dataMatrix
      ensures Context() == Learnt(old(Context()), w, k)
    {
      if w > lastWindow {
        lastWindow := w;
      }
      var r: nat := Parity(k, overhead);
      kSymbols, rSymbols, nSymbols := k, r, k + r;
      encodedMatrix, encodedMatrixMap, dataMatrix := Blank(0, k + r), Blank(0, k + r), Blank(0, k);
    }

    method Execute(msg: seq<byte>) returns (replies: seq<seq<byte>>, delivered: seq<seq<byte>>)
      requires Valid(Context()) && msg != []
      modifies this
      ensures Reaction(Context(), replies, delivered) == Receive(old(Context()), msg)
    {
      replies, delivered := [], [];
      var kind := FragmentType(msg);
      if state == Init {
        ExecuteInit(msg);
      } else if (state == RcvWindow || state == WaitAllOne) && kind == AllOneFragment {
        replies, delivered := AcceptAllOne(msg);
      } else if (state == RcvWindow || state == WaitMissing) && kind == RegularFragment {
        var repairing := state == WaitMissing;
        AcceptFragment(msg);
        if state != Fault {
          var enough := CheckEnoughSymbols();
          if enough && repairing {
            replies, delivered := CheckIntegrity(End);
          } else if enough {
            replies, state := [PositiveAckMsg(1)], WaitAllOne;
          }
        }
      } else if state == WaitMissing && kind == AckRequest {
        var enough := CheckEnoughSymbols();
        if enough {
          replies, state := [PositiveAckMsg(1)], End;
        } else {
          replies := SendReport();
        }
      } else if state == End && kind == AllOneFragment {
        replies := [PositiveAckMsg(3)];
      }
    }
  }

  function WithSymbol<T>(row: seq<T>, col: nat, symbol: T): seq<T>
    requires col < |row|
  {
    row[col := symbol]
  }

  function WithColumn<T>(m: seq<seq<T>>, n: nat, col: nat, column: seq<T>): (s: seq<seq<T>>)
    requires Shaped(m, n) && col < n && |column| == TILE_SIZE
    ensures Shaped(s, n)
  {
    seq(TILE_SIZE, j requires 0 <= j < TILE_SIZE => WithSymbol(m[j], col, column[j]))
  }

  lemma NoneStored(c: matrix, n: nat, first: nat, body: seq<byte>)
    requires Shaped(c, n)
    ensures StoredColumns(c, n, first, 0, body) == c
  {
    assert forall j :: 0 <= j < |c| ==> StoredColumns(c, n, first, 0, body)[j] == c[j];
  }

  lemma NoneMarkedColumns(m: markers, n: nat, first: nat)
    requires Shaped(m, n)
    ensures MarkedColumns(m, n, first, 0) == m
  {
    assert forall j :: 0 <= j < |m| ==> MarkedColumns(m, n, first, 0)[j] == m[j];
  }

  lemma StoreNext(c: matrix, n: nat, first: nat, i: nat, body: seq<byte>)
    requires Shaped(c, n) && first + i < n && |body| >= TILE_SIZE * (i + 1)
    ensures StoredColumns(c, n, first, i + 1, body)
         == WithColumn(StoredColumns(c, n, first, i, body), n, first + i, body[TILE_SIZE * i..TILE_SIZE * i + TILE_SIZE])
  {
    var done := StoredColumns(c, n, first, i + 1, body);
    var next := WithColumn(StoredColumns(c, n, first, i, body), n, first + i, body[TILE_SIZE * i..TILE_SIZE * i + TILE_SIZE]);
    forall j | 0 <= j < |done| ensures done[j] == next[j] {
      assert forall q :: 0 <= q < |done[j]| ==> done[j][q] == next[j][q];
    }
  }

  lemma MarkNextColumn(m: markers, n: nat, first: nat, i: nat)
    requires Shaped(m, n) && first + i < n
    ensures MarkedColumns(m, n, first, i + 1) == WithColumn(MarkedColumns(m, n, first, i), n, first + i, Repeat(1, TILE_SIZE))
  {
    var done := MarkedColumns(m, n, first, i + 1);
    var next := WithColumn(MarkedColumns(m, n, first, i), n, first + i, Repeat(1, TILE_SIZE));
    forall j | 0 <= j < |done| ensures done[j] == next[j] {
      assert forall q :: 0 <= q < |done[j]| ==> done[j][q] == next[j][q];
    }
  }
}
