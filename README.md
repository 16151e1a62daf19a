# Pipe-tile dungeon generator: a verified model

The generator builds a square map of pipe tiles. Each tile's glyph is chosen by a 4-bit connection
mask: 1 is the top edge, 2 the right, 4 the bottom and 8 the left. Mask 0 is the empty cell and mask 15
(the cross) is the start tile. Generation starts with every cell empty except the centre, which holds
the start tile. It then floods outward. Each filled cell fills every empty neighbour its pipes point
at. Each new tile is drawn from the catalog entries that point back at the filled cell. The draw is
narrowed edge by edge so the new tile agrees with every filled neighbour and never points off the map.

The repository has three copies of the generator, and each one is a module here:

- `RustGen` models `src/main.rs`: a 20x20 map, a recursive flood and weighted draws.
- `PyGen` models `py/main.py`: a 20x20 map. It floods either recursively or through a queue, one
  queue step per frame. It starts over when fewer than 35 cells are filled. Its flood draws through
  `_get_tile` with the top-neighbour bound corrected to `>= 0`. The bound as written on line 283 is
  modelled separately, and its failure is shown under "Findings".
- `CppGen` models `cpp/main.cpp`: a 16x16 map, a recursive flood and a uniform draw. Its edge
  subsets are filled by an out-parameter loop, and `create` pushes the cells one by one.

Three modules are shared by all three copies:

- `Connections` defines the mask arithmetic: bitwise AND on naturals, `bit_on` and the four edge tests.
- `Filters` defines order-preserving filtering and the subsequence relation.
- `Grid` is the specification the generators are proved against. It is written over a sequence of
  masks and a width:
  - `Consistent`: two filled cells side by side agree on their shared edge, and no filled cell points
    off the map.
  - `Admits`: the four edge rules of `get_tile`.
  - `Closed`: a cell whose open edges all lead to filled cells.
  - `EmptyCount`: the termination measure.
  - `ReachedVia`: the cells a flood filled are exactly the cells of a tree of open edges hanging from
    the cell it started at.

The main results:

- Every draw is admitted by its neighbours and comes from the subset it was drawn from.
- A placement the edge rules admit keeps the map consistent, and only such a placement does.
- Some admitted tile always exists in the subset a fill draws from, so a draw never faces an empty list.
  For Python this holds with the corrected top bound. With the bound as written, the draw for cell 20
  can face an empty list (`PyGen.EmptyDrawAsWritten`).
- The flood terminates, because every fill empties one fewer cell.
- Cells only ever go from empty to filled.
- A recursive flood fills only cells it reaches from its starting cell. The cells it fills are exactly
  the cells of a tree hanging from that cell, where each cell hangs from a neighbour that points at it.
  In a consistent map this gives each filled cell a chain back to the start. In that chain,
  neighbouring cells face each other with open edges (`Grid.ReachedByChain`). A generated dungeon is
  the centre plus such a tree.
- After a generation the map is consistent, the centre holds the start tile and every filled cell is
  closed: no pipe ends at an empty cell or at the border.
- Each flood step fills exactly the empty neighbours the current tile points at, in the order top,
  right, bottom, left. It returns them in that order.
- In the recursive flood's tree those cells are the first links, in that order, each hung straight
  from the current cell; the trees of the recursive floods hang below them (`Grid.Rooted`).
- The Python queue mode enqueues the same cells in the same order. Once the queue is drained,
  every filled cell is closed.

Random draws are choices (`:|`) of any index into the narrowed list. Every property above therefore
holds whatever the random generator returns.

## Model

| member | source | states |
|---|---|---|
| Connections.OneBit | src/main.rs:95-109 | `Pow2(k)` has bit k set and no other bit, so the edge bits 1, 2, 4 and 8 used by the four connection tests are one-bit masks |
| Connections.BitOnEveryBit | src/main.rs:74-76 | `bit_on(mask, bit)` holds for a one-bit `bit` exactly when that bit of the mask is set |
| Connections.EdgeBits | src/main.rs:95-109 | each `has_*_connection` test is `bit_on` with bit 1, 2, 4 or 8 |
| Connections.EdgeMeansFilled | src/main.rs:95-109 | a mask with any open edge is not the empty mask |
| Connections.EmptyIffNoEdge | src/main.rs:12-32 | a mask below 16 is 0 exactly when none of its four edges is open |
| Connections.EdgesDetermineMask | src/main.rs:12-32 | two masks below 16 with the same four edges are equal |
| Filters.KeepIf | src/main.rs:88-93 | filtering keeps exactly the elements that pass, in their original order, and no more of them than there were |
| Filters.KeepIfSubMultiset | src/main.rs:88-93 | the filtered list is a sub-multiset of the input: no element appears more often than it did before filtering |
| Grid.PlaceKeepsConsistent | src/main.rs:270-356 | writing a non-empty mask into an empty cell of a consistent map keeps it consistent if and only if the four edge rules admit the mask there |
| Grid.AdmittedPlacement | src/main.rs:373-374 | an admitted mask written into an empty cell leaves the map consistent |
| Grid.ConsistentPlacement | src/main.rs:273-356 | a mask whose placement keeps the map consistent satisfies all four edge rules |
| Grid.MinimalFit | src/main.rs:358-359 | at every cell the four edge rules admit some mask below 16 |
| Grid.EmptyCountFill | src/main.rs:370-375 | filling one empty cell lowers the number of empty cells by one |
| Grid.EmptyCountGrows | src/main.rs:395-397 | a map that only gained filled cells has no more empty cells than before |
| Grid.ClosedStays | src/main.rs:395-397 | a closed cell stays closed while further empty cells are filled |
| Grid.FilledOneMore | src/main.rs:372-374 | the record of filled cells grows by exactly the cell just filled |
| Grid.FloodStart | src/main.rs:363-394 | after the four fills, the recursion's bookkeeping holds for the list of filled cells |
| Grid.FloodStep | src/main.rs:395-397 | one recursive call keeps the bookkeeping for the rest of the list |
| Grid.FloodEnd | src/main.rs:363-398 | when the list is done, the current cell and every cell filled since the start are closed |
| Grid.PendingStep | py/main.py:196-199 | in queue mode, a queue step keeps every filled cell either closed or still queued |
| Grid.ClosedIsJoined | src/main.rs:363-398 | in a consistent map, a closed cell's open edges meet open edges of filled neighbours |
| Grid.Targets | src/main.rs:369-393 | the cells one flood step fills: at most four, each on the map, other than the current cell, and empty |
| Grid.TargetsInTurn | src/main.rs:369-393 | testing each neighbour in the map left by the blocks before it gives the same cells as testing all four in the map before the first block |
| Grid.TargetsClose | src/main.rs:363-393 | once every target of a cell is filled, the cell is closed |
| Grid.TargetsPointed | src/main.rs:369-393 | the current cell points at each of its targets, and keeps doing so as the map fills |
| Grid.RootedStart | src/main.rs:363-393 | the cells filled next to the current cell hang straight from it: a tree of its targets, in order |
| Grid.RootedStep | src/main.rs:395-397 | grafting the tree of the flood from the k-th filled neighbour onto the tree keeps it a tree whose cells are exactly those filled since the start |
| Grid.SpansGrows | src/main.rs:395-397 | a tree of open edges stays one as further empty cells are filled |
| Grid.SpansGraft | src/main.rs:395-397 | hanging a subtree from one of a tree's cells keeps it a tree, and its cells are the two lists of cells joined |
| Grid.FilledInTurn | src/main.rs:395-397 | the cells filled in two rounds are those of the first round followed by those of the second |
| Grid.PathReaches | src/main.rs:363-398 | the path parent by parent to any cell of a tree starts at the root, ends at that cell, runs along open edges and passes only through cells of the tree |
| Grid.JoinedBack | src/main.rs:369-393 | in a consistent map, a filled cell that a neighbour points at points back at it |
| Grid.ReachedByChain | src/main.rs:363-398 | in a consistent map, every cell a flood filled is joined to its starting cell by a chain of neighbours that face each other with open edges, each filled by the flood |
| Grid.SeedConsistent | src/main.rs:402-405 | a map with a single filled cell away from the border is consistent |
| Grid.Columns | src/main.rs:376-393 | the left and right guards of `generate_tiles` keep a fill inside the current row |
| RustGen.TotalTilesIsSquare | src/main.rs:9-10 | the 400 cells are `MAP_SIZE * MAP_SIZE` |
| RustGen.CatalogByMask | src/main.rs:41-69 | catalog entry i has mask i, the glyph `TILE_TYPES[i]` and a positive weight; only entry 0 carries the empty glyph |
| RustGen.InitTiles | src/main.rs:78-86 | the list holds exactly the masks with the given bit, each once, in increasing order |
| RustGen.InitWtiles | src/main.rs:88-93 | the subset for a bit holds exactly the catalog entries with that bit, in catalog order |
| RustGen.InitWtilesHasMask | src/main.rs:88-93 | a mask with the bit set has its catalog entry in the subset |
| RustGen.InitWtilesPointsBack | src/main.rs:88-93 | every subset entry is a non-empty mask with the bit, and every such mask is in the subset |
| RustGen.CoordRoundTrip | src/main.rs:116-122 | `Coord::new` and `to_index` are inverse on the map's cells |
| RustGen.TileNew | src/main.rs:133-140 | a new tile sits at its index's coordinates with the glyph of its mask |
| RustGen.TileEmpty | src/main.rs:142-144 | an empty tile has mask 0 and the empty glyph |
| RustGen.Tile.SetChar | src/main.rs:146-149 | setting a mask sets glyph and mask together and keeps the tile's position |
| RustGen.GlyphTestIsMaskTest | src/main.rs:370-393 | comparing a tile's glyph with the empty glyph is the same as comparing its mask with 0 |
| RustGen.NeighborsAdjacent | src/main.rs:266-268 | the four neighbour indices are the cells one row up, one column right, one row down and one column left |
| RustGen.SubsetHasFit | src/main.rs:358-359 | a subset that points back holds an entry admitted at any empty cell next to a filled cell pointing at it |
| RustGen.FitAbove | src/main.rs:370-375 | the top subset has an admitted entry for the empty cell above a cell with a top edge |
| RustGen.FitRightOf | src/main.rs:376-381 | the right subset has an admitted entry for the empty cell to the right |
| RustGen.FitBelow | src/main.rs:382-387 | the bottom subset has an admitted entry for the empty cell below |
| RustGen.FitLeftOf | src/main.rs:388-393 | the left subset has an admitted entry for the empty cell to the left |
| RustGen.InCatalog | src/main.rs:41-61 | every catalog entry sits at the position of its own mask, which is below 16 |
| RustGen.EmptyTiles | src/main.rs:232-238 | a fresh array of 400 empty tiles, tile i at cell i |
| RustGen.Map.Empty | src/main.rs:219-238 | a map of empty, correctly placed tiles whose four subsets point back as `init_wtiles` builds them |
| RustGen.Map.GetTile | src/main.rs:270-361 | the drawn mask comes from the given subset and the four edge rules admit it at the cell |
| RustGen.Map.FilterTop | src/main.rs:273-292 | the top step keeps, in order, exactly the entries the top rule admits |
| RustGen.Map.FilterRight | src/main.rs:294-313 | the right step keeps, in order, exactly the entries the right rule admits |
| RustGen.Map.FilterBottom | src/main.rs:315-334 | the bottom step keeps, in order, exactly the entries the bottom rule admits |
| RustGen.Map.FilterLeft | src/main.rs:336-356 | the left step keeps, in order, exactly the entries the left rule admits |
| RustGen.Map.EmptyAt | src/main.rs:279 | a neighbour whose glyph is the empty glyph has mask 0 |
| RustGen.Map.SetTileChar | src/main.rs:374 | only the one cell changes, to the given mask, with glyph and position kept in step |
| RustGen.Map.FillCell | src/main.rs:373-374 | an empty cell gets an admitted non-empty mask; the map stays consistent and only gains that cell |
| RustGen.Map.FillIfEmpty | src/main.rs:370-375 | an empty neighbour is filled and recorded; a filled one is left alone |
| RustGen.Map.FillEmpty | src/main.rs:372-374 | filling an empty neighbour extends the record of filled cells by it |
| RustGen.Map.FillTop | src/main.rs:370-375 | the list gains the cell above exactly when the current tile points up, there is a row above and that cell was empty; the cell above then ends up filled |
| RustGen.Map.FillRight | src/main.rs:376-381 | the list gains the cell to the right exactly when the current tile points right, it is not in the last column and that cell was empty; that cell then ends up filled |
| RustGen.Map.FillBottom | src/main.rs:382-387 | the list gains the cell below exactly when the current tile points down, there is a row below and that cell was empty; that cell then ends up filled |
| RustGen.Map.FillLeft | src/main.rs:388-393 | the list gains the cell to the left exactly when the current tile points left, it is not in the first column and that cell was empty; that cell then ends up filled |
| RustGen.Map.FillNeighbors | src/main.rs:363-393 | the list is exactly the empty neighbours the current tile points at (`Grid.Targets`), in the order top, right, bottom, left; the current cell ends up closed and the map stays consistent |
| RustGen.Map.GenerateTiles | src/main.rs:363-398 | the recursion terminates; the map stays consistent and only gains cells; the current cell and every cell filled by the call end up closed; the cells it fills are exactly those of a tree of open edges hanging from the current cell (`Grid.ReachedVia`); the tree's first links are the current cell's targets in the order top, right, bottom, left, each hung straight from the current cell, and the recursive calls' trees hang below them (`Grid.Rooted`) |
| RustGen.CreateDungeon | src/main.rs:402-406 | the map is consistent, holds the start tile at the centre, and every filled cell is closed; the filled cells are exactly the centre and the cells of a tree of open edges hanging from it |
| RustGen.SeededMap | src/main.rs:403-405 | an empty map with the start tile written at the centre, which is consistent |
| RustGen.SeedAtCenter | src/main.rs:404-405 | the map holding only the start tile at cell 210 is consistent |
| PyGen.Sizes | py/main.py:176-178 | `TOTAL_SIZE` is `WIDTH * WIDTH`, and the centre constant is the index `generate` computes |
| PyGen.CatalogByMask | py/main.py:67-87 | catalog entry i has mask i and a positive weight |
| PyGen.InCatalog | py/main.py:67-87 | every catalog entry sits at the position of its own mask, which is below 16 |
| PyGen.I2c | py/main.py:7-10 | the column is below the width (0 standing for `WIDTH`), and column plus row times width is the index |
| PyGen.I2cInverse | py/main.py:7-10 | column plus row times width gives the cell index back |
| PyGen.WeightedTiles | py/main.py:112-116 | the subset holds exactly the catalog entries with the bit, in catalog order |
| PyGen.FilterConnection | py/main.py:134-135 | keeps, in order, exactly the entries with the connection |
| PyGen.FilterNoConnection | py/main.py:137-138 | keeps, in order, exactly the entries without the connection |
| PyGen.FilterPartition | py/main.py:134-138 | the two filters split a list into two parts whose sizes and multisets add up to it |
| PyGen.NeighborsAdjacent | py/main.py:90-96 | the four neighbour indices are the adjacent cells |
| PyGen.Tile.SetCharIndex | py/main.py:166-169 | the tile takes the catalog entry of the new mask and keeps its index |
| PyGen.FilledCount | py/main.py:191-193 | the filled cells plus the empty cells are all the cells |
| PyGen.SeedMasks | py/main.py:240-247 | all cells empty but the centre, which holds the start mask |
| PyGen.SeedMasksConsistent | py/main.py:240-247 | the seeded map is consistent |
| PyGen.WeightedTilesPointsBack | py/main.py:184-187 | every subset entry is a non-empty mask with the bit, and every such mask is in it |
| PyGen.EdgeSubset | py/main.py:184-187 | each subset built in the constructor is `weighted_tiles` of its bit and points back |
| PyGen.SubsetHasFit | py/main.py:310-315 | a subset that points back holds an entry the edge rules admit next to a cell pointing at it |
| PyGen.FitAbove | py/main.py:324-326 | the top subset has an admitted entry for the empty cell above |
| PyGen.FitRightOf | py/main.py:328-330 | the right subset has an admitted entry for the empty cell to the right |
| PyGen.FitBelow | py/main.py:332-334 | the bottom subset has an admitted entry for the empty cell below |
| PyGen.FitLeftOf | py/main.py:336-338 | the left subset has an admitted entry for the empty cell to the left |
| PyGen.AsWrittenAwayFromWidth | py/main.py:281-287 | away from cell 20 (the cell below cell 0), the as-written edge rules agree with the intended ones |
| PyGen.EmptyDrawAsWritten | py/main.py:281-287 | as written, filling cell 20 below a downward pipe at cell 0 leaves no admitted entry in the bottom subset |
| PyGen.BrokenJoinAsWritten | py/main.py:281-287 | as written, cell 20 filled from its right neighbour may take a mask without a top edge under cell 0's downward pipe, which breaks consistency |
| PyGen.JoinKeptWhenCorrected | py/main.py:281-287 | with the corrected top test, the four rules admit at cell 20 the `left_tiles` entry with top and right edges (mask 3), and writing it keeps the map consistent; that every admitted mask does so is `Grid.AdmittedPlacement` |
| PyGen.Map.constructor | py/main.py:181-189 | no tiles, an empty queue, not generating, and the four subsets pointing back |
| PyGen.Map.MapSize | py/main.py:191-193 | the number of filled cells, which is the number of cells less the empty ones |
| PyGen.Map.GoodMapSize | py/main.py:231-238 | holds exactly when at least 35 cells are filled |
| PyGen.Map.Generate | py/main.py:240-248 | the map is reseeded (all empty but the start tile at the centre) and consistent; the centre joins the back of the queue |
| PyGen.Map.Update | py/main.py:195-203 | with cells queued, one queue step; once drained after generating, stop and reseed when too small; otherwise nothing changes |
| PyGen.Map.FloodNext | py/main.py:196-199 | the front cell leaves the queue and is closed; the queue is the rest followed by exactly that cell's targets, in the order top, right, bottom, left |
| PyGen.Map.Drained | py/main.py:195-203 | with the queue empty, every filled cell of the map is closed |
| PyGen.Map.FilterTileVec | py/main.py:263-276 | off the map, drop entries with the connection; next to a filled cell, keep those matching its edge; next to an empty cell, keep the list |
| PyGen.Map.TopStep | py/main.py:281-287 | the top step keeps exactly the entries the corrected top rule admits |
| PyGen.Map.RightStep | py/main.py:288-294 | the right step keeps exactly the entries the right rule admits |
| PyGen.Map.BottomStep | py/main.py:295-301 | the bottom step keeps exactly the entries the bottom rule admits |
| PyGen.Map.LeftStep | py/main.py:302-308 | the left step keeps exactly the entries the left rule admits |
| PyGen.Map.Narrow | py/main.py:278-308 | the narrowed list is a subsequence holding exactly the entries all four corrected rules admit |
| PyGen.Map.GetTile | py/main.py:278-315 | with the corrected top test, the draw comes from the subset and the edge rules admit it |
| PyGen.Map.GetTileAsWritten | py/main.py:278-315 | as written: a draw admitted by the as-written rules, or none when the narrowed list is empty (where `random.choices` raises) |
| PyGen.Map.SetTileCharIndex | py/main.py:326 | only the one cell changes, to the catalog entry of the mask |
| PyGen.Map.FillCell | py/main.py:326 | an empty cell gets an admitted non-empty mask; the map stays consistent and only gains that cell |
| PyGen.Map.FillIfEmpty | py/main.py:324-326 | an empty neighbour is filled and recorded; a filled one is left alone |
| PyGen.Map.FillEmpty | py/main.py:325-326 | filling an empty neighbour extends the record of filled cells by it |
| PyGen.Map.FillTop | py/main.py:324-326 | the list gains the cell above exactly when the current tile points up, there is a row above and that cell was empty; the cell above then ends up filled |
| PyGen.Map.FillRight | py/main.py:328-330 | the list gains the cell to the right exactly when the current tile points right, it is not in the last column and that cell was empty; that cell then ends up filled |
| PyGen.Map.FillBottom | py/main.py:332-334 | the list gains the cell below exactly when the current tile points down, there is a row below and that cell was empty; that cell then ends up filled |
| PyGen.Map.FillLeft | py/main.py:336-338 | the list gains the cell to the left exactly when the current tile points left, it is not in the first column and that cell was empty; that cell then ends up filled |
| PyGen.Map.FillNeighbors | py/main.py:317-338 | the list is exactly the empty neighbours the current tile points at (`Grid.Targets`), in the order top, right, bottom, left; the current cell ends up closed and the map stays consistent |
| PyGen.Map.GenerateTiles | py/main.py:317-345 | terminates; consistent; only gains cells; current cell closed; recursively every filled cell closed, or in queue mode the queue gains exactly the current cell's targets, in the order top, right, bottom, left; in both modes the cells it fills are exactly those of a tree of open edges hanging from the current cell, whose first links are the current cell's targets in that order, each hung straight from the current cell (`Grid.Rooted`) |
| PyGen.Map.RecurseInto | py/main.py:340-342 | the recursion over the filled cells leaves every cell filled since the start closed; those cells are exactly the cells of a tree of open edges hanging from the current cell, whose first links are the filled neighbours in order, each hung straight from the current cell (`Grid.Rooted`) |
| PyGen.Map.Enqueue | py/main.py:343-345 | the queue gains the filled cells at its back, in order, and the tiles are untouched |
| CppGen.Sizes | cpp/main.cpp:9-11 | `MAP_SIZE` is `SIZE * SIZE`, and the centre constant is the index `create` computes |
| CppGen.CatalogByMask | cpp/main.cpp:68-88 | catalog entry i has mask i and a positive weight |
| CppGen.InCatalog | cpp/main.cpp:68-88 | every catalog entry sits at the position of its own mask, which is below 16 |
| CppGen.CoordRoundTrip | cpp/main.cpp:26-34 | `c2i` and `i2c` are inverse on the map's cells |
| CppGen.NeighborsAdjacent | cpp/main.cpp:90-98 | the four neighbour indices are the adjacent cells |
| CppGen.CatalogWith | cpp/main.cpp:114-120 | the catalog entries with the bit, in catalog order, and only they |
| CppGen.WeightedTiles | cpp/main.cpp:114-120 | the loop appends the catalog entries with the bit to the vector, keeping what it held |
| CppGen.CatalogWithPointsBack | cpp/main.cpp:157-163 | every entry with a bit is a non-empty mask with it, and every such mask is present |
| CppGen.EdgeSubset | cpp/main.cpp:159-162 | filling an empty vector gives exactly the catalog entries with the bit |
| CppGen.Tile.SetCharIndex | cpp/main.cpp:149-151 | the mask changes to the given one; the index and the weight stay |
| CppGen.EmptyTile | cpp/main.cpp:189 | an empty tile at index i has mask 0 |
| CppGen.SubsetHasFit | cpp/main.cpp:312 | a subset that points back holds an entry the edge rules admit next to a cell pointing at it |
| CppGen.FitAbove | cpp/main.cpp:323-326 | the top subset has an admitted entry for the empty cell above |
| CppGen.FitRightOf | cpp/main.cpp:327-330 | the right subset has an admitted entry for the empty cell to the right |
| CppGen.FitBelow | cpp/main.cpp:331-334 | the bottom subset has an admitted entry for the empty cell below |
| CppGen.FitLeftOf | cpp/main.cpp:335-338 | the left subset has an admitted entry for the empty cell to the left |
| CppGen.SeedAtCenter | cpp/main.cpp:191-192 | the map holding only the start tile at cell 136 is consistent |
| CppGen.Map.constructor | cpp/main.cpp:157-163 | no tiles, and each subset is the catalog entries with its bit |
| CppGen.Map.FilterTopConnectable | cpp/main.cpp:198-205 | keeps, in order, exactly the entries without a top edge |
| CppGen.Map.FilterNotTopConnectable | cpp/main.cpp:207-214 | keeps, in order, exactly the entries with a top edge |
| CppGen.Map.FilterRightConnectable | cpp/main.cpp:216-223 | keeps, in order, exactly the entries without a right edge |
| CppGen.Map.FilterNotRightConnectable | cpp/main.cpp:225-232 | keeps, in order, exactly the entries with a right edge |
| CppGen.Map.FilterBottomConnectable | cpp/main.cpp:234-241 | keeps, in order, exactly the entries without a bottom edge |
| CppGen.Map.FilterNotBottomConnectable | cpp/main.cpp:243-250 | keeps, in order, exactly the entries with a bottom edge |
| CppGen.Map.FilterLeftConnectable | cpp/main.cpp:252-259 | keeps, in order, exactly the entries without a left edge |
| CppGen.Map.FilterNotLeftConnectable | cpp/main.cpp:261-268 | keeps, in order, exactly the entries with a left edge |
| CppGen.Map.FiltersPartition | cpp/main.cpp:198-268 | each pair of filters splits a list into two parts whose multisets add up to it |
| CppGen.Map.NarrowTop | cpp/main.cpp:273-281 | the top step keeps exactly the entries the top rule admits |
| CppGen.Map.NarrowRight | cpp/main.cpp:283-291 | the right step keeps exactly the entries the right rule admits |
| CppGen.Map.NarrowBottom | cpp/main.cpp:293-301 | the bottom step keeps exactly the entries the bottom rule admits |
| CppGen.Map.NarrowLeft | cpp/main.cpp:303-311 | the left step keeps exactly the entries the left rule admits |
| CppGen.Map.GetTile | cpp/main.cpp:270-314 | the drawn mask comes from the given list and the four edge rules admit it at the cell |
| CppGen.Map.SetTileCharIndex | cpp/main.cpp:325 | only the one cell's mask changes |
| CppGen.Map.FillCell | cpp/main.cpp:325 | an empty cell gets an admitted non-empty mask; the map stays consistent and only gains that cell |
| CppGen.Map.FillIfEmpty | cpp/main.cpp:323-326 | an empty neighbour is filled and recorded; a filled one is left alone |
| CppGen.Map.FillEmpty | cpp/main.cpp:324-325 | filling an empty neighbour extends the record of filled cells by it |
| CppGen.Map.FillTop | cpp/main.cpp:323-326 | the list gains the cell above exactly when the current tile points up, there is a row above and that cell was empty; the cell above then ends up filled |
| CppGen.Map.FillRight | cpp/main.cpp:327-330 | the list gains the cell to the right exactly when the current tile points right, it is not in the last column and that cell was empty; that cell then ends up filled |
| CppGen.Map.FillBottom | cpp/main.cpp:331-334 | the list gains the cell below exactly when the current tile points down, there is a row below and that cell was empty; that cell then ends up filled |
| CppGen.Map.FillLeft | cpp/main.cpp:335-338 | the list gains the cell to the left exactly when the current tile points left, it is not in the first column and that cell was empty; that cell then ends up filled |
| CppGen.Map.FillNeighbors | cpp/main.cpp:316-338 | the list is exactly the empty neighbours the current tile points at (`Grid.Targets`), in the order top, right, bottom, left; the current cell ends up closed and the map stays consistent |
| CppGen.Map.GenerateTiles | cpp/main.cpp:316-343 | terminates; the map stays consistent and only gains cells; the current cell and every cell it fills end up closed; the cells it fills are exactly those of a tree of open edges hanging from the current cell, whose first links are the current cell's targets in the order top, right, bottom, left, each hung straight from the current cell (`Grid.Rooted`) |
| CppGen.Map.PushEmptyTiles | cpp/main.cpp:188-190 | the vector gains 256 empty tiles, tile i with index i, after what it held |
| CppGen.Map.Create | cpp/main.cpp:187-194 | the map has 256 tiles, is consistent, holds the start tile at the centre, and every filled cell is closed; the filled cells are exactly the centre and the cells of a tree of open edges hanging from it |

## Left out

- Random draws: the model picks any index of the narrowed list. The weight distributions are not
  modelled: Rust's Walker alias table (`TileGenerator`), Python's `random.choices` weights and
  C++'s uniform `rand() % n`. Neither are seeds or generator state. Each property holds for every
  possible draw.
- Console and window output: `print`, `render`, `print_separator`, the `Tileset` texture rectangles,
  pygame surfaces, the messages `good_map_size` prints, and the C++ glyph table (`TILE_TYPES`,
  `Tile::get_char`). They produce output only, and no tile depends on them.
- `main` and the event loops, which only call the operations modelled here and draw.
- Random fills: Rust `Map::random`, Python `randomize` and C++ `randomize`. They put any mask in
  every cell, so there is no property to state.
- Python `create`: it retries until the map is big enough, which terminates only with probability
  one. Its steps are modelled one by one: `PyGen.Map.Generate`, `PyGen.Map.GenerateTiles` in
  recursive mode, and `PyGen.Map.GoodMapSize`.
- Python's float division in `i2c` and in the centre index is modelled as integer division on
  naturals. The two agree on non-negative cell indices, which are the only ones used.
- CppGen.I2c is defined on natural numbers only. C++ `%` and `/` truncate toward zero on negative
  numbers and Dafny's do not. The generator never calls `i2c`.
- RustGen.Map.Empty states the four subsets by their content (`PointsBack`). It does not state that
  they equal `init_wtiles` as sequences. `RustGen.InitWtiles` states the order separately.
- PyGen.Map.constructor states the subsets by their content (`PointsBack`).
  `PyGen.EdgeSubset` states that each is `weighted_tiles` of its bit.
- The size of each edge subset (8 of the 16 entries) is not stated as a number. The subsets' content
  is stated entry by entry instead.
- CppGen.Map.Create requires a map without tiles, as the constructor leaves it. The source pushes
  onto whatever the vector holds, but `main` calls `create` once on a fresh map.
- CppGen.Map.GetTile requires that some entry of the list be admitted. `rand() % 0` is undefined
  behaviour in C++, and the generator's callers never reach it (`CppGen.SubsetHasFit`).
- RustGen.Map.GetTile requires an admitted entry too, because Rust panics when it indexes an empty
  list. The generator never reaches that case (`RustGen.SubsetHasFit`).
- Rust `Tile` glyphs are kept only as far as the empty glyph is concerned. A glyph is the catalog
  entry of its mask, and the emptiness test on glyphs is proved to be the test on masks. The Unicode
  box-drawing characters themselves play no part.
- Integer widths (`usize`, `u8`, `i32`, C++ `int`) are unbounded here. Every value stays within
  0..400 or is a neighbour index in -20..420, so no width wraps.
- PyGen.Map.FillCell, PyGen.Map.FillIfEmpty, PyGen.Map.FillEmpty, PyGen.Map.FillTop, PyGen.Map.FillRight,
  PyGen.Map.FillBottom, PyGen.Map.FillLeft, PyGen.Map.FillNeighbors, PyGen.Map.GenerateTiles,
  PyGen.Map.RecurseInto, PyGen.Map.FloodNext, PyGen.Map.Update and PyGen.Map.Generate draw through
  `PyGen.Map.GetTile`, which uses the corrected top bound (`>= 0`). They do not follow line 283 as
  written. Their properties, that the map stays consistent and every draw is non-empty, hold only
  for the corrected bound (see "Findings").
- PyGen.Map.Update and PyGen.Map.FloodNext state reachability one queue step at a time: each step
  fills exactly the front cell's targets and queues them. No invariant across frames says that every
  cell filled by a queue-driven run hangs from the centre. The recursive mode states it in full.
- Python `queue.Queue` is a sequence and the edge-subset lists are sequences. The source's `copy()`
  calls are implicit in value semantics.

## Findings

| source | as written | input that shows it | evidently intended | confidence | as-written member | corrected member |
|---|---|---|---|---|---|---|
| py/main.py:283 | `_get_tile` treats a top neighbour as on the map only when its index is `> 0`, so cell 0 counts as off the map for cell 20 below it | Cell 0 holds a tile with right and bottom edges (mask 6) and cell 20 is empty. Filling cell 20 from above drops every bottom-subset entry, which all have a top edge, and leaves `random.choices` an empty list. Filling it instead from a cell 21 with a left edge may draw a mask without a top edge under cell 0's downward pipe | `n.top >= 0`, the bound `_generate_tiles` uses on line 324 and the Rust copy uses | not executed | PyGen.Map.GetTileAsWritten, PyGen.EmptyDrawAsWritten, PyGen.BrokenJoinAsWritten | PyGen.Map.GetTile, PyGen.JoinKeptWhenCorrected |
