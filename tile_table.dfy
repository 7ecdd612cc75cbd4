/**
 * The rewrite of an MBTiles `tiles` table from TMS to XYZ row numbering:
 * snapshot every tile, delete them all, re-insert each with its row flipped,
 * then commit.
 */
module TileTable {
  import opened TileCoords

  /** How one INSERT ends: stored, refused by the binding of an out-of-range integer, or refused by the unique index. */
  datatype InsertOutcome = Inserted | Overflow | DuplicateKey

  /** The `tiles` table of one MBTiles database, seen through one open connection. */
  class Table {
    /** Whether the table declares a unique index on (zoom_level, tile_column, tile_row). */
    const uniqueIndex: bool
    /** The rows the connection sees, its uncommitted changes included. */
    var tiles: seq<Tile>
    /** The rows as last committed to the database file. */
    var committed: seq<Tile>

    /** What the database can hold: 64-bit integers, and unique addresses under the index. */
    ghost predicate Storable(ts: seq<Tile>) {
      AllTilesFit(ts) && (uniqueIndex ==> KeysUnique(ts))
    }

    ghost predicate Valid()
      reads this
    {
      Storable(tiles) && Storable(committed)
    }

    constructor (uniqueIndex: bool, tiles: seq<Tile>)
      requires AllTilesFit(tiles)
      requires uniqueIndex ==> KeysUnique(tiles)
      ensures Valid()
      ensures this.uniqueIndex == uniqueIndex && this.tiles == tiles && committed == tiles
    {
      this.uniqueIndex := uniqueIndex;
      this.tiles := tiles;
      this.committed := tiles;
    }

    /** SELECT zoom_level, tile_column, tile_row, tile_data FROM tiles, fetched in full. */
    method SelectAll() returns (rows: seq<Tile>)
      ensures rows == tiles
    {
      rows := tiles;
    }

    /** DELETE FROM tiles, inside the open transaction. */
    method DeleteAll()
      requires Valid()
      modifies this
      ensures Valid()
      ensures tiles == [] && committed == old(committed)
    {
      tiles := [];
    }

    /**
     * INSERT INTO tiles, inside the open transaction. A value outside the
     * signed 64-bit range cannot be bound (Python raises OverflowError); an
     * address already present is refused when a unique index exists. A
     * refused insert leaves the table as it was.
     */
    method Insert(t: Tile) returns (outcome: InsertOutcome)
      requires Valid()
      modifies this
      ensures Valid()
      ensures outcome == if !TileFits(t) then Overflow
                         else if uniqueIndex && HasKey(old(tiles), Key(t)) then DuplicateKey
                         else Inserted
      ensures tiles == if outcome == Inserted then old(tiles) + [t] else old(tiles)
      ensures committed == old(committed)
    {
      if !TileFits(t) {
        outcome := Overflow;
      } else if uniqueIndex && HasKey(tiles, Key(t)) {
        outcome := DuplicateKey;
      } else {
        outcome := Inserted;
        UniqueAppend(tiles, t);
        tiles := tiles + [t];
      }
    }

    /** conn.commit(): the connection's view becomes the content of the file. */
    method Commit()
      requires Valid()
      modifies this
      ensures Valid()
      ensures tiles == old(tiles) && committed == tiles
    {
      committed := tiles;
    }

    /** Discarding the open transaction, as happens when the script stops without committing. */
    method Rollback()
      requires Valid()
      modifies this
      ensures Valid()
      ensures committed == old(committed) && tiles == committed
    {
      tiles := committed;
    }

    /**
     * The whole rewrite. It succeeds exactly when every flipped row fits in
     * 64 bits; the file then holds the flipped images of the tiles it held
     * before, in the same order, and no insert hits the unique index. On an
     * overflow the script stops before committing, and the file keeps the
     * content it had.
     */
    method FlipAll() returns (ok: bool)
      requires Valid()
      modifies this
      ensures Valid()
      ensures ok <==> FlippedRowsFit(old(tiles))
      ensures ok ==> tiles == FlipTiles(old(tiles)) && committed == tiles
      ensures !ok ==> committed == old(committed) && tiles == committed
    {
      var fetched := SelectAll();
      DeleteAll();
      var i := 0;
      while i < |fetched|
        invariant 0 <= i <= |fetched|
        invariant Valid()
        invariant AllTilesFit(fetched) && (uniqueIndex ==> KeysUnique(fetched))
        invariant committed == old(committed)
        invariant tiles == FlipTiles(fetched[..i])
        invariant FlippedRowsFit(fetched[..i])
      {
        var zoom, x, yTms, data := fetched[i].zoom, fetched[i].col, fetched[i].row, fetched[i].data;
        var yXyz := Flip(zoom, yTms);
        var next := Tile(zoom, x, yXyz, data);
        assert fetched[..i + 1] == fetched[..i] + [fetched[i]];
        FlipTilesSnoc(fetched[..i], fetched[i]);
        if uniqueIndex {
          assert KeysUnique(fetched[..i + 1]);
          FlipTilesKeysUnique(fetched[..i + 1]);
          UniqueAppend(tiles, next);
        }
        var outcome := Insert(next);
        if outcome == Overflow {
          assert !FitsInt64(Flip(fetched[i].zoom, fetched[i].row));
          Rollback();
          ok := false;
          return;
        }
        assert outcome == Inserted;
        i := i + 1;
      }
      assert fetched[..|fetched|] == fetched;
      Commit();
      ok := true;
    }
  }
}
