/**
 * Tile addresses of an MBTiles `tiles` table and the conversion of a tile row
 * from the TMS scheme (origin at the south-west corner, rows grow northward)
 * to the XYZ scheme (origin at the north-west corner, rows grow southward).
 */
module TileCoords {

  /** One row of the `tiles` table: zoom_level, tile_column, tile_row, tile_data. */
  datatype Tile = Tile(zoom: nat, col: int, row: int, data: seq<bv8>)

  /** The (zoom_level, tile_column, tile_row) address of a tile. */
  datatype TileKey = TileKey(zoom: nat, col: int, row: int)

  function Key(t: Tile): TileKey {
    TileKey(t.zoom, t.col, t.row)
  }

  /** `2 ** zoom`: the number of rows (and of columns) of the tile grid at a zoom level. */
  function Pow2(zoom: nat): (n: nat)
    ensures n >= 1
  {
    if zoom == 0 then 1 else 2 * Pow2(zoom - 1)
  }

  /** A tile whose column and row both lie inside the grid of its zoom level. */
  predicate AddressValid(t: Tile) {
    0 <= t.col < Pow2(t.zoom) && 0 <= t.row < Pow2(t.zoom)
  }

  predicate AllAddressesValid(ts: seq<Tile>) {
    forall i :: 0 <= i < |ts| ==> AddressValid(ts[i])
  }

  /** No two tiles of `ts` share a (zoom, column, row) address. */
  predicate KeysUnique(ts: seq<Tile>) {
    forall i, j :: 0 <= i < j < |ts| ==> Key(ts[i]) != Key(ts[j])
  }

  predicate HasKey(ts: seq<Tile>, k: TileKey) {
    exists i :: 0 <= i < |ts| && Key(ts[i]) == k
  }

  /** An integer SQLite can store and Python's sqlite3 can bind: a signed 64-bit value. */
  predicate FitsInt64(x: int) {
    -0x8000_0000_0000_0000 <= x < 0x8000_0000_0000_0000
  }

  /** Every integer column of the tile fits in a SQLite INTEGER. */
  predicate TileFits(t: Tile) {
    FitsInt64(t.zoom) && FitsInt64(t.col) && FitsInt64(t.row)
  }

  predicate AllTilesFit(ts: seq<Tile>) {
    forall i :: 0 <= i < |ts| ==> TileFits(ts[i])
  }

  /**
   * The XYZ row of a tile given its TMS row at the same zoom level: the grid
   * is mirrored top to bottom, so a row inside the grid stays inside it.
   */
  function Flip(zoom: nat, row: int): (r: int)
    ensures 0 <= row < Pow2(zoom) <==> 0 <= r < Pow2(zoom)
  {
    (Pow2(zoom) - 1) - row
  }

  /** Flipping is its own inverse: the same formula converts XYZ back to TMS. */
  lemma FlipInvolution(zoom: nat, row: int)
    ensures Flip(zoom, Flip(zoom, row)) == row
  {
  }

  /** At a fixed zoom, distinct rows flip to distinct rows. */
  lemma FlipInjective(zoom: nat, a: int, b: int)
    ensures Flip(zoom, a) == Flip(zoom, b) <==> a == b
  {
  }

  /** A row further north in TMS order (larger) is further north in XYZ order (smaller). */
  lemma FlipReversesOrder(zoom: nat, a: int, b: int)
    ensures a < b <==> Flip(zoom, b) < Flip(zoom, a)
  {
  }

  /** The tile re-inserted for a fetched tile: only its row is converted. */
  function FlipTile(t: Tile): Tile {
    Tile(t.zoom, t.col, Flip(t.zoom, t.row), t.data)
  }

  /** The tiles re-inserted for a fetched sequence of tiles, in fetch order. */
  function FlipTiles(ts: seq<Tile>): (r: seq<Tile>)
    ensures |r| == |ts|
  {
    if ts == [] then [] else FlipTiles(ts[..|ts| - 1]) + [FlipTile(ts[|ts| - 1])]
  }

  /** Re-inserting one more fetched tile appends its flipped image. */
  lemma FlipTilesSnoc(ts: seq<Tile>, t: Tile)
    ensures FlipTiles(ts + [t]) == FlipTiles(ts) + [FlipTile(t)]
  {
  }

  /**
   * The i-th re-inserted tile is the i-th fetched tile with the same zoom,
   * column and data, and its row flipped.
   */
  lemma {:induction false} FlipTilesAt(ts: seq<Tile>, i: nat)
    requires i < |ts|
    ensures FlipTiles(ts)[i].zoom == ts[i].zoom
    ensures FlipTiles(ts)[i].col == ts[i].col
    ensures FlipTiles(ts)[i].data == ts[i].data
    ensures FlipTiles(ts)[i].row == Flip(ts[i].zoom, ts[i].row)
  {
    if i < |ts| - 1 {
      FlipTilesAt(ts[..|ts| - 1], i);
    }
  }

  /** Rewriting the table twice restores the original tiles. */
  lemma {:induction false} FlipTilesInvolution(ts: seq<Tile>)
    ensures FlipTiles(FlipTiles(ts)) == ts
  {
    var once := FlipTiles(ts);
    var twice := FlipTiles(once);
    forall i | 0 <= i < |ts|
      ensures twice[i] == ts[i]
    {
      FlipTilesAt(ts, i);
      FlipTilesAt(once, i);
      FlipInvolution(ts[i].zoom, ts[i].row);
    }
  }

  /** The re-inserted tiles have unique addresses exactly when the fetched ones do. */
  lemma {:induction false} FlipTilesKeysUnique(ts: seq<Tile>)
    ensures KeysUnique(FlipTiles(ts)) <==> KeysUnique(ts)
  {
    var r := FlipTiles(ts);
    forall i, j | 0 <= i < j < |ts|
      ensures Key(r[i]) == Key(r[j]) <==> Key(ts[i]) == Key(ts[j])
    {
      FlipTilesAt(ts, i);
      FlipTilesAt(ts, j);
      FlipInjective(ts[i].zoom, ts[i].row, ts[j].row);
    }
  }

  /** Valid tile addresses stay valid, and invalid ones stay invalid. */
  lemma {:induction false} FlipTilesAddressesValid(ts: seq<Tile>)
    ensures AllAddressesValid(FlipTiles(ts)) <==> AllAddressesValid(ts)
  {
    var r := FlipTiles(ts);
    forall i | 0 <= i < |ts|
      ensures AddressValid(r[i]) <==> AddressValid(ts[i])
    {
      FlipTilesAt(ts, i);
    }
  }

  /** Appending a tile keeps addresses unique exactly when its address is new. */
  lemma UniqueAppend(ts: seq<Tile>, t: Tile)
    ensures KeysUnique(ts + [t]) <==> KeysUnique(ts) && !HasKey(ts, Key(t))
  {
    var s := ts + [t];
    assert forall i :: 0 <= i < |ts| ==> s[i] == ts[i];
    assert s[|ts|] == t;
  }

  /** More zoom levels never mean fewer rows. */
  lemma {:induction false} Pow2Monotone(a: nat, b: nat)
    requires a <= b
    ensures Pow2(a) <= Pow2(b)
  {
    if a < b {
      Pow2Monotone(a, b - 1);
    }
  }

  /** The grid at zoom a + b has as many rows as the grids at zoom a and b multiplied. */
  lemma {:induction false} Pow2Add(a: nat, b: nat)
    ensures Pow2(a + b) == Pow2(a) * Pow2(b)
  {
    if b > 0 {
      Pow2Add(a, b - 1);
      assert Pow2(a + b) == 2 * Pow2(a + b - 1);
    }
  }

  /** The grid at zoom 63 has exactly 2^63 rows, one more than the largest SQLite INTEGER. */
  lemma Pow2Of63()
    ensures Pow2(63) == 0x8000_0000_0000_0000
  {
    Pow2Add(1, 1);
    Pow2Add(2, 2);
    Pow2Add(4, 4);
    Pow2Add(8, 8);
    Pow2Add(16, 16);
    Pow2Add(32, 32);
    assert Pow2(64) == 2 * Pow2(63);
  }

  /** The re-inserted row of every tile fits in a SQLite INTEGER. */
  predicate FlippedRowsFit(ts: seq<Tile>) {
    forall i :: 0 <= i < |ts| ==> FitsInt64(Flip(ts[i].zoom, ts[i].row))
  }

  /**
   * Tiles inside the grid of a zoom level of at most 63 flip to rows that
   * SQLite can store, so the rewrite of such a table never overflows.
   */
  lemma GridRowsFit(ts: seq<Tile>)
    requires AllAddressesValid(ts)
    requires forall i :: 0 <= i < |ts| ==> ts[i].zoom <= 63
    ensures FlippedRowsFit(ts)
  {
    forall i | 0 <= i < |ts|
      ensures FitsInt64(Flip(ts[i].zoom, ts[i].row))
    {
      Pow2Monotone(ts[i].zoom, 63);
      Pow2Of63();
    }
  }

  /**
   * At zoom 64 even row 0, whose own value fits, flips to 2^64 - 1, which
   * SQLite cannot store.
   */
  lemma Zoom64Overflows()
    ensures FitsInt64(0) && !FitsInt64(Flip(64, 0))
  {
    Pow2Of63();
    assert Pow2(64) == 2 * Pow2(63);
  }
}
