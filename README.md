# TMS-to-XYZ tile flip

This project models the tile rewrite script of the orchard-mapping application.
The script converts an MBTiles archive from TMS row numbering to XYZ row numbering.
In TMS the origin is the south-west corner and rows grow northward.
In XYZ the origin is the north-west corner and rows grow southward.
At zoom level `z` the grid has `2^z` rows, so TMS row `y` becomes XYZ row `2^z - 1 - y`.

The script works on the `tiles` table. It fetches every `(zoom_level, tile_column, tile_row, tile_data)` row,
deletes all rows, and re-inserts each fetched tile with only its row converted.

- `tile_coords.dfy` (module `TileCoords`): tiles and their addresses, the row flip `Flip`,
  the re-inserted tuple `FlipTile` (zoom, column and data of the fetched tile with its row flipped),
  the re-inserted sequence `FlipTiles`, the signed 64-bit range of SQLite integers, and the lemmas about them.
- `tile_table.dfy` (module `TileTable`): the `tiles` table as a class `Table`. `SelectAll` reads its field `tiles`.
  `DeleteAll`, `Insert`, `Rollback` and the loop in `FlipAll` rewrite that field in place.
  A second field, `committed`, holds what was last committed to the database file; `Commit` writes it.

The table may declare a unique index on `(zoom_level, tile_column, tile_row)`, as the MBTiles
schema normally does. The schema is not part of this model, so the index is a constant
`uniqueIndex` of the table. With the index, an insert of an address that is already present
is refused and leaves the table unchanged. `FlipAll` proves that this never happens during the rewrite:
flipping is injective at a fixed zoom, so unique fetched addresses stay unique.

SQLite stores signed 64-bit integers, and Python's sqlite3 raises `OverflowError` when it binds an
integer outside that range. The fetched values always fit, but a flipped row may not: at zoom 64,
row 0 flips to `2^64 - 1`. Then the insert is refused, the script stops before `conn.commit()`,
and the uncommitted changes are discarded, so the file keeps its TMS rows. `FlipAll` models this:
it succeeds exactly when every flipped row fits. `GridRowsFit` shows that every flipped row fits
when all addresses lie inside their grid and no zoom exceeds 63.

## Model

| member | source | states |
|---|---|---|
| TileCoords.Pow2 | flip-tiles.py:23 | `2 ** zoom` is at least 1: every zoom level has at least one row |
| TileCoords.Flip | flip-tiles.py:23 | a TMS row lies in `[0, 2^zoom)` exactly when its XYZ row does, so valid rows stay valid |
| TileCoords.Pow2Monotone | flip-tiles.py:23 | a higher zoom never has fewer rows |
| TileCoords.Pow2Add | flip-tiles.py:23 | `2 ** (a + b)` is `2 ** a` times `2 ** b` |
| TileCoords.Pow2Of63 | flip-tiles.py:23 | the grid at zoom 63 has exactly 2^63 rows, one more than the largest SQLite integer |
| TileCoords.FlipInvolution | flip-tiles.py:23 | flipping twice at the same zoom gives back the original row, so the formula also converts XYZ to TMS |
| TileCoords.FlipInjective | flip-tiles.py:23 | at a fixed zoom, two rows flip to the same row exactly when they are equal |
| TileCoords.FlipReversesOrder | flip-tiles.py:23 | the flip reverses the order of rows: the northward TMS order becomes the southward XYZ order |
| TileCoords.FlipTiles | flip-tiles.py:22-25 | the re-inserted tiles are exactly as many as the fetched tiles |
| TileCoords.FlipTilesSnoc | flip-tiles.py:22-25 | each loop iteration appends the flipped image of the next fetched tile, in fetch order |
| TileCoords.FlipTilesAt | flip-tiles.py:22-25 | the i-th re-inserted tile keeps the zoom, column and data of the i-th fetched tile, and its row is `2^zoom - 1 - y_tms` |
| TileCoords.FlipTilesInvolution | flip-tiles.py:22-25 | running the rewrite twice restores the original tiles |
| TileCoords.FlipTilesKeysUnique | flip-tiles.py:22-25 | the re-inserted `(zoom, column, row)` addresses are unique exactly when the fetched ones are |
| TileCoords.FlipTilesAddressesValid | flip-tiles.py:22-25 | every re-inserted address lies in its zoom's grid exactly when every fetched one does |
| TileCoords.UniqueAppend | flip-tiles.py:24-25 | inserting one more tile keeps addresses unique exactly when its address is not yet present |
| TileCoords.GridRowsFit | flip-tiles.py:23-25 | when every tile lies inside its grid and no zoom exceeds 63, every flipped row fits in a signed 64-bit integer, so no insert overflows |
| TileCoords.Zoom64Overflows | flip-tiles.py:23-25 | at zoom 64, row 0 fits but its flipped row `2^64 - 1` does not, so the insert of the rewrite overflows |
| TileTable.Table.SelectAll | flip-tiles.py:13-14 | the fetch returns the whole current content of the table, in the order the model keeps the rows |
| TileTable.Table.DeleteAll | flip-tiles.py:19 | after the delete the table is empty |
| TileTable.Table.Insert | flip-tiles.py:24-25 | an insert appends the tile; it is refused with the table unchanged when an integer lies outside the signed 64-bit range, or else when a unique index exists and the address is taken; the committed content does not change |
| TileTable.Table.Commit | flip-tiles.py:27 | after the commit the file holds exactly what the connection sees |
| TileTable.Table.Rollback | flip-tiles.py:22-28 | when the script stops before the commit, the uncommitted changes are discarded and the file content is unchanged |
| TileTable.Table.FlipAll | flip-tiles.py:13-28 | the rewrite succeeds exactly when every flipped row fits in a signed 64-bit integer; then the committed table holds exactly the flipped images of the tiles it held before, in the same order, no pre-existing row survives, and the unique index is never violated; on an overflow nothing is committed and the file keeps its content |

## Left out

- Copying the archive file before the rewrite (flip-tiles.py:6): file-system I/O. The model starts from the table of the copy.
- The sqlite connection and the SQL text (flip-tiles.py:9-10, 13, 19, 24): the database is a foreign library. The table is an abstract sequence of rows. A transaction is modelled only as the pair of the connection's view and the committed content; `close` and durability are not modelled.
- TileTable.Table.SelectAll: a `SELECT` without `ORDER BY` promises no order. The model takes the order in which rows were inserted as the table's order, so "in the same order" in `FlipAll` is about that order.
- NULL, text or blob values in `zoom_level` or `tile_row` make line 23 raise `TypeError`. REAL values make it compute a float row, which is inserted and committed. Neither is modelled: the columns are integers here.
- The progress messages (flip-tiles.py:16, 30-31): console output.
- Negative zoom levels: Python would then compute `2 ** zoom` as a float. Zoom is a natural number here.
- The MBTiles table schema is not part of this model. The unique index on the tile address is a parameter of the table, not read from the schema.
- A `tiles` view over separate map and image tables, which some MBTiles files use, is not modelled. On such a file the delete and the inserts would fail.
- The rest of the application (the map UI, the CRUD endpoints, import, archive validation and tile serving) is not part of this model.
