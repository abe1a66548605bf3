/** The erasure-coded matrices of ARQ-FEC: ten rows, `k` data and `r` parity symbols in each, sent
    column by column, so that one column is one tile. */
module FecMatrix {
  import opened Bytes
  import opened Message
  import opened Tiling
  import opened WindowBitmaps

  datatype Option<T> = None | Some(value: T)

  type matrix = seq<seq<byte>>
  type markers = seq<seq<bit>>

  /** A systematic or other erasure code on rows: encode with `r` parity symbols, decode given the
      positions of the erased ones. It stands for the Reed-Solomon library. */
  datatype Code = Code(encode: (seq<byte>, nat) -> seq<byte>, decode: (seq<byte>, seq<nat>, nat) -> Option<seq<byte>>)

  predicate AgreesOutside(received: seq<byte>, codeword: seq<byte>, erasures: seq<nat>) {
    |received| == |codeword| && forall c :: 0 <= c < |received| && c !in erasures ==> received[c] == codeword[c]
  }

  /** Distinct positions of a row of `n` symbols, in increasing order. */
  predicate Positions(s: seq<nat>, n: nat) {
    (forall i, j :: 0 <= i < j < |s| ==> s[i] < s[j]) && forall i :: 0 <= i < |s| ==> s[i] < n
  }

  /** The only thing assumed of the code: in rows of `k` symbols with `r` parity symbols, any set of
      at most `r` erasures is recovered. */
  ghost predicate Recovers(code: Code, k: nat, r: nat) {
    && (forall row: seq<byte> :: |row| == k ==> |code.encode(row, r)| == k + r)
    && (forall row: seq<byte>, received: seq<byte>, erasures: seq<nat> ::
          |row| == k && |erasures| <= r && Positions(erasures, k + r) && AgreesOutside(received, code.encode(row, r), erasures)
          ==> code.decode(received, erasures, r) == Some(row))
  }

  // ---- Sender side ----------------------------------------------------------------------------

  function DataMatrix(packet: seq<byte>): (d: matrix)
    ensures |d| == TILE_SIZE && forall i :: 0 <= i < TILE_SIZE ==> |d[i]| == |packet| / TILE_SIZE
  {
    var k := |packet| / TILE_SIZE;
    seq(TILE_SIZE, i requires 0 <= i < TILE_SIZE => RowOf(packet, k, i))
  }

  function RowOf(packet: seq<byte>, k: nat, i: nat): (row: seq<byte>)
    requires k == |packet| / TILE_SIZE && i < TILE_SIZE
    ensures |row| == k
  {
    assert 0 <= i * k <= (i + 1) * k <= TILE_SIZE * k;
    packet[i * k..(i + 1) * k]
  }

  /** Bytes that do not fill the matrix. */
  function Residue(packet: seq<byte>): seq<byte> {
    packet[TILE_SIZE * (|packet| / TILE_SIZE)..]
  }

  predicate Shaped<T>(m: seq<seq<T>>, n: nat) {
    |m| == TILE_SIZE && forall i :: 0 <= i < TILE_SIZE ==> |m[i]| == n
  }

  function Encoded(code: Code, d: matrix, r: nat): (c: matrix)
    requires |d| == TILE_SIZE
    ensures |c| == TILE_SIZE
  {
    seq(TILE_SIZE, i requires 0 <= i < TILE_SIZE => code.encode(d[i], r))
  }

  /** Column by column. */
  function Serialised(c: matrix, n: nat): (s: seq<byte>)
    requires Shaped(c, n)
    ensures |s| == TILE_SIZE * n
  {
    seq(TILE_SIZE * n, p requires 0 <= p < TILE_SIZE * n => c[p % TILE_SIZE][p / TILE_SIZE])
  }

  function Columns(c: matrix, n: nat): seq<tile>
    requires Shaped(c, n)
  {
    Cut(Serialised(c, n), n)
  }

  lemma ColumnIsTile(c: matrix, n: nat, t: nat, j: nat)
    requires Shaped(c, n) && t < n && j < TILE_SIZE
    ensures Columns(c, n)[t][j] == c[j][t]
  {
    var p := TILE_SIZE * t + j;
    assert p / TILE_SIZE == t && p % TILE_SIZE == j;
  }

  // ---- Receiver side --------------------------------------------------------------------------

  /** `m` with `count` columns from `first` on overwritten by the tiles of a payload. */
  function StoredColumns(m: matrix, n: nat, first: nat, count: nat, payload: seq<byte>): (s: matrix)
    requires Shaped(m, n) && |payload| >= TILE_SIZE * count
    ensures Shaped(s, n)
  {
    seq(TILE_SIZE, j requires 0 <= j < TILE_SIZE =>
      seq(n, c requires 0 <= c < n =>
        if first <= c < first + count then payload[TILE_SIZE * (c - first) + j] else m[j][c]))
  }

  function MarkedColumns(m: markers, n: nat, first: nat, count: nat): (s: markers)
    requires Shaped(m, n)
    ensures Shaped(s, n)
  {
    seq(TILE_SIZE, j requires 0 <= j < TILE_SIZE =>
      seq(n, c requires 0 <= c < n => if first <= c < first + count then 1 else m[j][c]))
  }

  function Sum(row: seq<bit>): nat {
    if row == [] then 0 else Sum(row[..|row| - 1]) + row[|row| - 1]
  }

  /** `checkEnoughSymbols` */
  predicate EnoughSymbols(m: markers, k: nat) {
    forall j :: 0 <= j < |m| ==> Sum(m[j]) >= k
  }

  /** Columns of a row never received, in increasing order. */
  function Erasures(row: seq<bit>): seq<nat> {
    if row == [] then []
    else Erasures(row[..|row| - 1]) + if row[|row| - 1] == 0 then [|row| - 1] else []
  }

  lemma {:induction false} ErasuresExact(row: seq<bit>)
    ensures |Erasures(row)| + Sum(row) == |row|
    ensures forall c: nat :: c in Erasures(row) <==> c < |row| && row[c] == 0
    ensures Positions(Erasures(row), |row|)
  {
    if row == [] {
    } else {
      var init := row[..|row| - 1];
      ErasuresExact(init);
      forall c: nat ensures c in Erasures(row) <==> c < |row| && row[c] == 0 {
        if c < |init| { assert init[c] == row[c]; }
      }
    }
  }

  /** `decodeCmatrix`: row by row, giving up at the first row that cannot be decoded. */
  function DecodedRows(code: Code, c: matrix, m: markers, r: nat, d: matrix, i: nat): (decoded: matrix)
    requires |c| == |m| == |d| == TILE_SIZE && i <= TILE_SIZE
    ensures |decoded| == TILE_SIZE
    decreases TILE_SIZE - i
  {
    if i == TILE_SIZE || |Erasures(m[i])| > r then d
    else
      match code.decode(c[i], Erasures(m[i]), r)
      case None => d
      case Some(row) => DecodedRows(code, c, m, r, d[i := row], i + 1)
  }

  /** What the receiver reassembles: decoded matrix, flattened row by row, then the last tile. */
  function Reassembled(code: Code, c: matrix, m: markers, r: nat, d: matrix, lastTile: seq<byte>): seq<byte>
    requires |c| == |m| == |d| == TILE_SIZE
  {
    Concat(DecodedRows(code, c, m, r, d, 0)) + lastTile
  }

  /** Data symbols in each row. */
  function Symbols(packet: seq<byte>): nat {
    |packet| / TILE_SIZE
  }

  /** `sent` is the encoded matrix of the packet, under a code that meets the hypothesis. */
  ghost predicate Coded(code: Code, packet: seq<byte>, r: nat, sent: matrix) {
    && Recovers(code, Symbols(packet), r)
    && sent == Encoded(code, DataMatrix(packet), r)
  }

  lemma CodedShape(code: Code, packet: seq<byte>, r: nat, sent: matrix)
    requires Coded(code, packet, r, sent)
    ensures Shaped(sent, Symbols(packet) + r)
  {
    forall i | 0 <= i < TILE_SIZE ensures |sent[i]| == Symbols(packet) + r {
      assert |DataMatrix(packet)[i]| == Symbols(packet);
    }
  }

  // ---- Any k of n columns are enough ----------------------------------------------------------

  /** Every symbol marked as received is the sender's. */
  predicate Faithful(c: matrix, m: markers, sent: matrix, n: nat) {
    && Shaped(c, n) && Shaped(m, n) && Shaped(sent, n)
    && forall j, col :: 0 <= j < TILE_SIZE && 0 <= col < n && m[j][col] == 1 ==> c[j][col] == sent[j][col]
  }

  /** Storing tiles cut from the sender's matrix keeps every marked symbol the sender's. */
  lemma StoringKeepsFaithful(c: matrix, m: markers, sent: matrix, n: nat, first: nat, count: nat)
    requires Faithful(c, m, sent, n) && first + count <= n
    ensures var payload := Concat(Columns(sent, n)[first..first + count]);
            && |payload| == TILE_SIZE * count
            && Faithful(StoredColumns(c, n, first, count, payload), MarkedColumns(m, n, first, count), sent, n)
  {
    var tiles := Columns(sent, n)[first..first + count];
    var payload := Concat(tiles);
    ConcatTiles(tiles);
    var c' := StoredColumns(c, n, first, count, payload);
    forall j, col | 0 <= j < TILE_SIZE && 0 <= col < n && MarkedColumns(m, n, first, count)[j][col] == 1
      ensures c'[j][col] == sent[j][col]
    {
      if first <= col < first + count {
        var i := col - first;
        assert payload[TILE_SIZE * i..TILE_SIZE * i + TILE_SIZE][j] == payload[TILE_SIZE * i + j];
        assert tiles[i] == Columns(sent, n)[col];
        ColumnIsTile(sent, n, col, j);
      }
    }
  }

  /** One row: few enough erasures, and the decoder gives back the data. */
  lemma RowDecodes(code: Code, c: matrix, m: markers, k: nat, r: nat, data: matrix, i: nat)
    requires Shaped(data, k) && Recovers(code, k, r) && i < TILE_SIZE
    requires Shaped(Encoded(code, data, r), k + r) && Faithful(c, m, Encoded(code, data, r), k + r)
    requires EnoughSymbols(m, k)
    ensures |Erasures(m[i])| <= r && code.decode(c[i], Erasures(m[i]), r) == Some(data[i])
  {
    ErasuresExact(m[i]);
    var sent := code.encode(data[i], r);
    assert Encoded(code, data, r)[i] == sent;
    forall col | 0 <= col < k + r && col !in Erasures(m[i]) ensures c[i][col] == sent[col] {
      assert m[i][col] == 1;
    }
    assert AgreesOutside(c[i], sent, Erasures(m[i]));
  }

  lemma {:induction false} DecodedRowsRight(code: Code, c: matrix, m: markers, k: nat, r: nat, d: matrix, data: matrix, i: nat)
    requires Shaped(data, k) && Recovers(code, k, r) && |d| == TILE_SIZE && i <= TILE_SIZE
    requires Shaped(Encoded(code, data, r), k + r) && Faithful(c, m, Encoded(code, data, r), k + r)
    requires EnoughSymbols(m, k)
    requires forall j :: 0 <= j < i ==> d[j] == data[j]
    ensures DecodedRows(code, c, m, r, d, i) == data
    decreases TILE_SIZE - i
  {
    if i == TILE_SIZE {
      assert d == data;
    } else {
      RowDecodes(code, c, m, k, r, data, i);
      DecodedRowsRight(code, c, m, k, r, d[i := data[i]], data, i + 1);
    }
  }

  lemma RowEnds(i: nat, k: nat)
    requires i < TILE_SIZE
    ensures i * k + k == (i + 1) * k <= TILE_SIZE * k
  {
  }

  lemma {:induction false} RowsConcat(packet: seq<byte>, i: nat)
    requires i <= TILE_SIZE
    ensures var k := |packet| / TILE_SIZE; i * k <= |packet| && Concat(DataMatrix(packet)[..i]) == packet[..i * k]
  {
    var k := |packet| / TILE_SIZE;
    if i == 0 {
    } else {
      RowsConcat(packet, i - 1);
      RowEnds(i - 1, k);
      NextRow(packet, i - 1, (i - 1) * k, i * k);
    }
  }

  lemma NextRow(packet: seq<byte>, i: nat, from: nat, to: nat)
    requires i < TILE_SIZE && from == i * (|packet| / TILE_SIZE) && to == (i + 1) * (|packet| / TILE_SIZE) && from <= to <= |packet|
    requires Concat(DataMatrix(packet)[..i]) == packet[..from]
    ensures Concat(DataMatrix(packet)[..i + 1]) == packet[..to]
  {
    var rows := DataMatrix(packet)[..i + 1];
    assert rows[..i] == DataMatrix(packet)[..i] && rows[i] == packet[from..to];
    assert packet[..from] + packet[from..to] == packet[..to];
  }

  lemma FewErasures(m: markers, k: nat, r: nat, i: nat)
    requires Shaped(m, k + r) && EnoughSymbols(m, k) && i < TILE_SIZE
    ensures |Erasures(m[i])| <= r
  {
    ErasuresExact(m[i]);
  }

  lemma FlattenedPacket(packet: seq<byte>)
    ensures Concat(DataMatrix(packet)) + Residue(packet) == packet
  {
    RowsConcat(packet, TILE_SIZE);
    assert DataMatrix(packet)[..TILE_SIZE] == DataMatrix(packet);
  }

  /** Any-k-of-n: when the check for enough symbols passes, each row misses at most `r` symbols, and
      decoding, flattening and appending the last tile give the sender's packet. */
  lemma Reconstruction(code: Code, packet: seq<byte>, r: nat, sent: matrix, c: matrix, m: markers, d: matrix)
    requires Coded(code, packet, r, sent) && Faithful(c, m, sent, Symbols(packet) + r)
    requires EnoughSymbols(m, Symbols(packet)) && |d| == TILE_SIZE
    ensures forall i :: 0 <= i < TILE_SIZE ==> |Erasures(m[i])| <= r
    ensures Reassembled(code, c, m, r, d, Residue(packet)) == packet
  {
    forall i | 0 <= i < TILE_SIZE ensures |Erasures(m[i])| <= r {
      FewErasures(m, Symbols(packet), r, i);
    }
    DecodedRowsRight(code, c, m, Symbols(packet), r, d, DataMatrix(packet), 0);
    FlattenedPacket(packet);
  }

  // ---- Arbitrary deliveries -------------------------------------------------------------------

  /** Matrices of a receiver that stored the given runs of columns, in any order and repetition. */
  function Deliveries(sent: matrix, n: nat, runs: seq<(nat, nat)>): (res: (matrix, markers))
    requires Shaped(sent, n) && forall i :: 0 <= i < |runs| ==> runs[i].0 + runs[i].1 <= n
    ensures Faithful(res.0, res.1, sent, n)
  {
    if runs == [] then
      (seq(TILE_SIZE, _ => Repeat(0, n)), seq(TILE_SIZE, _ => Repeat(0, n)))
    else
      var last := runs[|runs| - 1];
      var (c, m) := Deliveries(sent, n, runs[..|runs| - 1]);
      StoringKeepsFaithful(c, m, sent, n, last.0, last.1);
      (StoredColumns(c, n, last.0, last.1, Concat(Columns(sent, n)[last.0..last.0 + last.1])),
       MarkedColumns(m, n, last.0, last.1))
  }

  predicate InSome(runs: seq<(nat, nat)>, c: nat) {
    exists i :: 0 <= i < |runs| && runs[i].0 <= c < runs[i].0 + runs[i].1
  }

  /** The columns some run covers. */
  function Covered(runs: seq<(nat, nat)>, n: nat): set<nat> {
    set c: nat | c < n && InSome(runs, c)
  }

  lemma {:induction false} MarkedIsCovered(sent: matrix, n: nat, runs: seq<(nat, nat)>)
    requires Shaped(sent, n) && forall i :: 0 <= i < |runs| ==> runs[i].0 + runs[i].1 <= n
    ensures forall j, c :: 0 <= j < TILE_SIZE && 0 <= c < n ==>
              (Deliveries(sent, n, runs).1[j][c] == 1 <==> c in Covered(runs, n))
  {
    if runs == [] {
    } else {
      var init, last := runs[..|runs| - 1], runs[|runs| - 1];
      MarkedIsCovered(sent, n, init);
      forall c: nat | c < n ensures c in Covered(runs, n) <==> c in Covered(init, n) || last.0 <= c < last.0 + last.1 {
        if c in Covered(init, n) {
          var i :| 0 <= i < |init| && init[i].0 <= c < init[i].0 + init[i].1;
          assert runs[i] == init[i];
        }
        if c in Covered(runs, n) && !(last.0 <= c < last.0 + last.1) {
          var i :| 0 <= i < |runs| && runs[i].0 <= c < runs[i].0 + runs[i].1;
          assert init[i] == runs[i];
        }
      }
    }
  }

  lemma {:induction false} SumIsCardinality(row: seq<bit>, s: set<nat>)
    requires forall c: nat :: c in s <==> c < |row| && row[c] == 1
    ensures Sum(row) == |s|
  {
    if row == [] {
      assert s == {};
    } else {
      var n := |row| - 1;
      var init := row[..n];
      assert forall c: nat :: c < n ==> init[c] == row[c];
      SumIsCardinality(init, s - {n});
    }
  }

  lemma EnoughIsCardinality(sent: matrix, n: nat, runs: seq<(nat, nat)>, k: nat)
    requires Shaped(sent, n) && forall i :: 0 <= i < |runs| ==> runs[i].0 + runs[i].1 <= n
    ensures EnoughSymbols(Deliveries(sent, n, runs).1, k) <==> |Covered(runs, n)| >= k
  {
    var m := Deliveries(sent, n, runs).1;
    MarkedIsCovered(sent, n, runs);
    forall j | 0 <= j < TILE_SIZE ensures Sum(m[j]) == |Covered(runs, n)| {
      SumIsCardinality(m[j], Covered(runs, n));
    }
    assert Sum(m[0]) == |Covered(runs, n)|;
  }

  /** Whatever tiles arrive, in whatever order and however often: the check passes exactly when at
      least `k` distinct tiles arrived, and then the packet is rebuilt. */
  lemma AnyKOfN(code: Code, packet: seq<byte>, r: nat, sent: matrix, runs: seq<(nat, nat)>, got: (matrix, markers), d: matrix)
    requires Coded(code, packet, r, sent) && |d| == TILE_SIZE
    requires forall i :: 0 <= i < |runs| ==> runs[i].0 + runs[i].1 <= Symbols(packet) + r
    requires got == Deliveries(sent, Symbols(packet) + r, runs)
    ensures EnoughSymbols(got.1, Symbols(packet)) <==> |Covered(runs, Symbols(packet) + r)| >= Symbols(packet)
    ensures EnoughSymbols(got.1, Symbols(packet)) ==> Reassembled(code, got.0, got.1, r, d, Residue(packet)) == packet
  {
    EnoughIsCardinality(sent, Symbols(packet) + r, runs, Symbols(packet));
    if EnoughSymbols(got.1, Symbols(packet)) {
      Reconstruction(code, packet, r, sent, got.0, got.1, d);
    }
  }

  // ---- Marks as a set of tiles -----------------------------------------------------------------

  /** Marks are set a tile, that is a column, at a time. */
  predicate Uniform(m: markers, n: nat) {
    Shaped(m, n) && forall j, c :: 0 <= j < TILE_SIZE && 0 <= c < n ==> m[j][c] == m[0][c]
  }

  /** The tiles marked as received. */
  function MarkedSet(m: markers, n: nat): set<nat>
    requires Shaped(m, n)
  {
    set c: nat | c < n && m[0][c] == 1
  }

  lemma MarksTiles(m: markers, n: nat, first: nat, count: nat)
    requires Uniform(m, n) && first + count <= n
    ensures var marked := MarkedColumns(m, n, first, count);
            Uniform(marked, n) && MarkedSet(marked, n) == MarkedSet(m, n) + TileRange(first, count)
  {
  }

  lemma NothingMarked(n: nat)
    ensures var m: markers := seq(TILE_SIZE, _ => Repeat(0, n)); Uniform(m, n) && MarkedSet(m, n) == {}
  {
  }

  /** Enough symbols in every row means enough tiles. */
  lemma EnoughTiles(m: markers, n: nat, k: nat)
    requires Uniform(m, n)
    ensures EnoughSymbols(m, k) <==> |MarkedSet(m, n)| >= k
  {
    forall j | 0 <= j < TILE_SIZE ensures Sum(m[j]) == |MarkedSet(m, n)| {
      SumIsCardinality(m[j], MarkedSet(m, n));
    }
    assert Sum(m[0]) == |MarkedSet(m, n)|;
  }

  // ---- The hypothesis is not empty -------------------------------------------------------------

  /** Repetition of a single symbol is a code that meets the hypothesis, for every `r`. */
  function RepetitionEncode(row: seq<byte>, r: nat): seq<byte> {
    if |row| == 1 then Repeat(row[0], 1 + r) else []
  }

  function FirstKept(received: seq<byte>, erasures: seq<nat>, i: nat): Option<seq<byte>>
    decreases |received| - i
  {
    if i >= |received| then None
    else if i !in erasures then Some([received[i]])
    else FirstKept(received, erasures, i + 1)
  }

  function RepetitionDecode(received: seq<byte>, erasures: seq<nat>, r: nat): Option<seq<byte>> {
    FirstKept(received, erasures, 0)
  }

  lemma {:induction false} AllErased(erasures: seq<nat>, n: nat)
    requires forall c: nat :: c < n ==> c in erasures
    ensures |erasures| >= n
  {
    if n == 0 {
    } else {
      assert n - 1 in erasures;
      var i :| 0 <= i < |erasures| && erasures[i] == n - 1;
      var fewer := erasures[..i] + erasures[i + 1..];
      forall c: nat | c < n - 1 ensures c in fewer {
        assert c in erasures;
        var j :| 0 <= j < |erasures| && erasures[j] == c;
        assert fewer[if j < i then j else j - 1] == c;
      }
      AllErased(fewer, n - 1);
    }
  }

  lemma {:induction false} FirstKeptRight(row: seq<byte>, received: seq<byte>, erasures: seq<nat>, r: nat, i: nat)
    requires |row| == 1 && |erasures| <= r && i <= r + 1
    requires AgreesOutside(received, RepetitionEncode(row, r), erasures)
    requires forall c: nat :: c < i ==> c in erasures
    ensures FirstKept(received, erasures, i) == Some(row)
    decreases r + 1 - i
  {
    if i == r + 1 {
      AllErased(erasures, r + 1);
    } else if i in erasures {
      FirstKeptRight(row, received, erasures, r, i + 1);
    } else {
      assert received[i] == row[0] && [received[i]] == row;
    }
  }

  lemma RepetitionRecovers(r: nat)
    ensures Recovers(Code(RepetitionEncode, RepetitionDecode), 1, r)
  {
    var code := Code(RepetitionEncode, RepetitionDecode);
    forall row: seq<byte>, received: seq<byte>, erasures: seq<nat>
      | |row| == 1 && |erasures| <= r && AgreesOutside(received, code.encode(row, r), erasures)
      ensures code.decode(received, erasures, r) == Some(row)
    {
      FirstKeptRight(row, received, erasures, r, 0);
    }
  }

  function Total(row: seq<byte>): nat {
    if row == [] then 0 else Total(row[..|row| - 1]) + row[|row| - 1]
  }

  function Checksum(row: seq<byte>): byte {
    Total(row) % 256
  }

  /** The symbol at `c` that makes the checksum right. */
  function Restored(kept: seq<byte>, c: nat, checksum: byte): byte
    requires c < |kept|
  {
    (checksum - Total(kept) + kept[c]) % 256
  }

  /** A checksum of the row is a code that meets the hypothesis for one parity symbol, whatever `k`. */
  function ChecksumEncode(row: seq<byte>, r: nat): seq<byte> {
    if r == 1 then row + [Checksum(row)] else row
  }

  function ChecksumDecode(received: seq<byte>, erasures: seq<nat>, r: nat): Option<seq<byte>> {
    if received == [] then None
    else
      var k := |received| - 1;
      var row := received[..k];
      if erasures == [] || erasures[0] >= k then Some(row)
      else Some(row[erasures[0] := Restored(row, erasures[0], received[k])])
  }

  lemma {:induction false} TotalOfUpdate(row: seq<byte>, c: nat, x: byte)
    requires c < |row|
    ensures Total(row[c := x]) == Total(row) - row[c] + x
  {
    var init := row[..|row| - 1];
    if c == |row| - 1 {
      assert row[c := x][..|row| - 1] == init;
    } else {
      TotalOfUpdate(init, c, x);
      assert row[c := x][..|row| - 1] == init[c := x];
    }
  }

  lemma ChecksumRecovers(k: nat)
    ensures Recovers(Code(ChecksumEncode, ChecksumDecode), k, 1)
  {
    var code := Code(ChecksumEncode, ChecksumDecode);
    forall row: seq<byte>, received: seq<byte>, erasures: seq<nat>
      | |row| == k && |erasures| <= 1 && Positions(erasures, k + 1) && AgreesOutside(received, code.encode(row, 1), erasures)
      ensures code.decode(received, erasures, 1) == Some(row)
    {
      ChecksumRight(row, received, erasures);
    }
  }

  lemma ChecksumRight(row: seq<byte>, received: seq<byte>, erasures: seq<nat>)
    requires |erasures| <= 1 && Positions(erasures, |row| + 1)
    requires AgreesOutside(received, row + [Checksum(row)], erasures)
    ensures ChecksumDecode(received, erasures, 1) == Some(row)
  {
    var k := |row|;
    var kept := received[..k];
    if erasures == [] || erasures[0] >= k {
      assert forall i :: 0 <= i < k ==> i !in erasures && kept[i] == row[i];
      assert kept == row;
    } else {
      var c := erasures[0];
      assert erasures == [c];
      assert forall i :: 0 <= i < k && i != c ==> i !in erasures && kept[i] == row[i];
      assert k !in erasures && received[k] == Checksum(row);
      RestoredRight(row, kept, c);
    }
  }

  lemma RestoredRight(row: seq<byte>, kept: seq<byte>, c: nat)
    requires |kept| == |row| && c < |row|
    requires forall i :: 0 <= i < |row| && i != c ==> kept[i] == row[i]
    ensures kept[c := Restored(kept, c, Checksum(row))] == row
  {
    assert kept == row[c := kept[c]];
    TotalOfUpdate(row, c, kept[c]);
    RestoredIs(row, kept, c);
  }

  lemma RestoredIs(row: seq<byte>, kept: seq<byte>, c: nat)
    requires c < |row| && c < |kept| && Total(kept) == Total(row) - row[c] + kept[c]
    ensures Restored(kept, c, Checksum(row)) == row[c]
  {
    ModuloBack(Total(row), row[c]);
    assert Checksum(row) - Total(kept) + kept[c] == Total(row) % 256 - Total(row) + row[c];
  }

  lemma ModuloBack(t: nat, x: byte)
    ensures (t % 256 - t + x) % 256 == x
  {
    assert t % 256 - t + x == x - 256 * (t / 256);
  }

  /** There are codes that meet the hypothesis: for rows of any length with one parity symbol, and
      for single symbols with any number of them. */
  lemma SomeCodeRecovers(k: nat, r: nat)
    requires k == 1 || r == 1
    ensures exists code :: Recovers(code, k, r)
  {
    if k == 1 {
      RepetitionRecovers(r);
    } else {
      ChecksumRecovers(k);
    }
  }
}
