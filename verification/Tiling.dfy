/** Cutting a byte string into tiles of ten bytes, and putting tiles back together. */
module Tiling {
  import opened Bytes
  import opened Message

  type tile = t: seq<byte> | |t| == TILE_SIZE witness seq(TILE_SIZE, _ => 0)

  /** The first `n` tiles of a byte string. */
  function Cut(s: seq<byte>, n: nat): (tiles: seq<tile>)
    requires n * TILE_SIZE <= |s|
    ensures |tiles| == n
  {
    seq(n, i requires 0 <= i < n => s[TILE_SIZE * i..TILE_SIZE * i + TILE_SIZE])
  }

  function Concat(tiles: seq<seq<byte>>): seq<byte> {
    if tiles == [] then [] else Concat(tiles[..|tiles| - 1]) + tiles[|tiles| - 1]
  }

  lemma {:induction false} ConcatOfCut(s: seq<byte>, n: nat, a: nat, b: nat)
    requires n * TILE_SIZE <= |s| && a <= b <= n
    ensures Concat(Cut(s, n)[a..b]) == s[TILE_SIZE * a..TILE_SIZE * b]
  {
    if a == b {
    } else {
      var t := Cut(s, n)[a..b];
      ConcatOfCut(s, n, a, b - 1);
      assert t[..|t| - 1] == Cut(s, n)[a..b - 1];
      assert s[TILE_SIZE * a..TILE_SIZE * b] == s[TILE_SIZE * a..TILE_SIZE * (b - 1)] + s[TILE_SIZE * (b - 1)..TILE_SIZE * b];
    }
  }

  lemma {:induction false} ConcatTiles(tiles: seq<tile>)
    ensures |Concat(tiles)| == TILE_SIZE * |tiles|
    ensures forall i :: 0 <= i < |tiles| ==> Concat(tiles)[TILE_SIZE * i..TILE_SIZE * i + TILE_SIZE] == tiles[i]
  {
    if tiles == [] {
    } else {
      var n := |tiles| - 1;
      ConcatTiles(tiles[..n]);
      forall i | 0 <= i < |tiles| ensures Concat(tiles)[TILE_SIZE * i..TILE_SIZE * i + TILE_SIZE] == tiles[i] {
        if i < n {
          assert Concat(tiles[..n])[TILE_SIZE * i..TILE_SIZE * i + TILE_SIZE] == tiles[i];
        }
      }
    }
  }

  /** `extractTiles` */
  method ExtractTiles(tiles: seq<tile>, first: nat, n: nat) returns (buffer: seq<byte>)
    requires first + n <= |tiles|
    ensures buffer == Concat(tiles[first..first + n])
  {
    buffer := [];
    for i := first to first + n
      invariant buffer == Concat(tiles[first..i])
    {
      assert tiles[first..i + 1][..i - first] == tiles[first..i];
      buffer := buffer + tiles[i];
    }
  }

  // ---- ACK-on-Error: the last tile is never empty -----------------------------------------------

  /** A packet may take four windows of 63 tiles. */
  const MAX_PACKET := MAX_WINDOWS * WINDOW_SIZE * TILE_SIZE

  /** Full tiles sent in regular fragments; the rest of the packet is the last tile. */
  function FullTiles(size: nat): nat
    requires size > 0
  {
    if size % TILE_SIZE == 0 then size / TILE_SIZE - 1 else size / TILE_SIZE
  }

  function WindowsFor(size: nat): nat {
    if size > TILE_SIZE * WINDOW_SIZE * 3 then 4
    else if size > TILE_SIZE * WINDOW_SIZE * 2 then 3
    else if size > TILE_SIZE * WINDOW_SIZE then 2
    else 1
  }

  function PacketTiles(packet: seq<byte>): seq<tile>
    requires packet != []
  {
    Cut(packet, FullTiles(|packet|))
  }

  function LastTile(packet: seq<byte>): seq<byte>
    requires packet != []
  {
    packet[TILE_SIZE * FullTiles(|packet|)..]
  }

  /** `divideInTiles` */
  method DivideInTiles(msg: seq<byte>) returns (nFullTiles: nat, tiles: seq<tile>, lastTile: seq<byte>, nWindows: nat)
    requires msg != []
    ensures nFullTiles == FullTiles(|msg|) && tiles == PacketTiles(msg)
    ensures lastTile == LastTile(msg) && nWindows == WindowsFor(|msg|)
  {
    var lastTileSize;
    if |msg| % TILE_SIZE == 0 {
      nFullTiles, lastTileSize := |msg| / TILE_SIZE - 1, TILE_SIZE;
    } else {
      nFullTiles, lastTileSize := |msg| / TILE_SIZE, |msg| % TILE_SIZE;
    }
    tiles := [];
    var k := 0;
    for i := 0 to nFullTiles
      invariant k == TILE_SIZE * i && tiles == PacketTiles(msg)[..i]
    {
      var row: seq<byte> := [];
      for j := 0 to TILE_SIZE
        invariant k == TILE_SIZE * i + j && row == msg[TILE_SIZE * i..k]
      {
        row := row + [msg[k]];
        k := k + 1;
      }
      tiles := tiles + [row];
    }
    lastTile := [];
    for i := 0 to lastTileSize
      invariant k == TILE_SIZE * nFullTiles + i && lastTile == msg[TILE_SIZE * nFullTiles..k]
    {
      lastTile := lastTile + [msg[k]];
      k := k + 1;
    }
    if |msg| > TILE_SIZE * WINDOW_SIZE * 3 {
      nWindows := 4;
    } else if |msg| > TILE_SIZE * WINDOW_SIZE * 2 {
      nWindows := 3;
    } else if |msg| > TILE_SIZE * WINDOW_SIZE {
      nWindows := 2;
    } else {
      nWindows := 1;
    }
  }

  /** Tiles and last tile give the packet back, the last tile has 1 to 10 bytes, and position 62 of
      the last window, where the receiver records the All-1, is never a regular tile's. */
  lemma TilingExact(packet: seq<byte>)
    requires 1 <= |packet| <= MAX_PACKET
    ensures Concat(PacketTiles(packet)) + LastTile(packet) == packet
    ensures 1 <= |LastTile(packet)| <= TILE_SIZE
    ensures var n, w := FullTiles(|packet|), WindowsFor(|packet|);
            1 <= w <= MAX_WINDOWS && (w - 1) * WINDOW_SIZE <= n <= w * WINDOW_SIZE - 1
  {
    var n := FullTiles(|packet|);
    ConcatOfCut(packet, n, 0, n);
    assert PacketTiles(packet)[0..n] == PacketTiles(packet);
  }
}
