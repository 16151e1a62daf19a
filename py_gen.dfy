/** The Python generator (py/main.py): the same flood fill as the Rust copy
    on a 20 x 20 map, with its own catalog weights, a first-in first-out
    queue that lets `update` advance the flood one cell per frame, and a
    regeneration step that starts over when the finished map is too small.

    The source's `_get_tile` treats the cell at index `WIDTH` as if it were
    on the top row (`n.top > 0` where the rest of the file uses `>= 0`).
    `GetTileAsWritten` models that test and `EmptyDrawAsWritten` and
    `BrokenJoinAsWritten` show what it does; the map itself draws with
    `GetTile`, which applies the bound the rest of the file uses. */
module PyGen {
  import opened Connections
  import opened Filters
  import opened Grid

  const Width: nat := 20
  /** `TOTAL_SIZE = WIDTH * WIDTH`, written out so that the solver sees a constant. */
  const TotalSize: nat := 400
  const MinSize: nat := 35
  const StartCharIndex: nat := 15
  const EmptyCharIndex: nat := 0
  /** The centre cell `int(WIDTH / 2 + WIDTH / 2 * WIDTH)`, written out. */
  const CenterIndex: nat := 210

  lemma Sizes()
    ensures TotalSize == Width * Width
    ensures CenterIndex == Width / 2 + Width / 2 * Width
  {
  }

  datatype Option<T> = None | Some(value: T)

  /** A catalog entry: mask, glyph and sampling weight. */
  datatype TileType = TileType(charIndex: nat, ch: char, weight: nat)

  /** `WEIGHTED_TILE_TYPES`: the same masks and glyphs as the Rust copy, other weights. */
  const WeightedTileTypes: seq<TileType> := [
    TileType(0, ' ', 1), TileType(1, '\U{2568}', 16), TileType(2, '\U{255E}', 16), TileType(3, '\U{255A}', 12),
    TileType(4, '\U{2565}', 16), TileType(5, '\U{2551}', 12), TileType(6, '\U{2554}', 12), TileType(7, '\U{2560}', 6),
    TileType(8, '\U{2561}', 16), TileType(9, '\U{255D}', 12), TileType(10, '\U{2550}', 12), TileType(11, '\U{2569}', 6),
    TileType(12, '\U{2557}', 12), TileType(13, '\U{2563}', 6), TileType(14, '\U{2566}', 6), TileType(15, '\U{256C}', 2)
  ]

  /** Entry `i` of the catalog has mask `i` and a positive weight, so
      `random.choices` can draw any entry of a non-empty list. */
  lemma CatalogByMask(i: nat)
    requires i < 16
    ensures |WeightedTileTypes| == 16
    ensures WeightedTileTypes[i].charIndex == i && WeightedTileTypes[i].weight > 0
  {
  }

  /** Every catalog entry is the entry of its own mask. */
  lemma InCatalog(e: TileType)
    requires e in WeightedTileTypes
    ensures e.charIndex < 16 && WeightedTileTypes[e.charIndex] == e
  {
    var i :| 0 <= i < |WeightedTileTypes| && WeightedTileTypes[i] == e;
    CatalogByMask(i);
  }

  /** `i2c`: the column and row of cell `i` on a map `width` cells wide,
      where width 0 stands for `WIDTH`. */
  function I2c(i: nat, width: nat): (c: (nat, nat))
    ensures var w := if width == 0 then Width else width;
      c.0 < w && c.0 + c.1 * w == i
  {
    var w := if width == 0 then Width else width;
    (i % w, i / w)
  }

  /** A column and row inside a map of width `w` are recovered from their cell index. */
  lemma I2cInverse(x: nat, y: nat, w: nat)
    requires 0 < w && x < w
    ensures I2c(x + y * w, w) == (x, y)
  {
    DivUnique(x + y * w, w, y, x);
  }

  /** `weighted_tiles`: the catalog entries whose mask has every bit of `bit`, in catalog order. */
  function WeightedTiles(bit: nat): (r: seq<TileType>)
    ensures forall t :: t in r <==> t in WeightedTileTypes && BitOn(t.charIndex, bit)
    ensures IsSubseq(r, WeightedTileTypes)
  {
    KeepIf(WeightedTileTypes, (t: TileType) => BitOn(t.charIndex, bit))
  }

  /** `filter_connection`: the entries whose mask has the connection, in order. */
  function FilterConnection(hasConnection: nat -> bool, tileVec: seq<TileType>): (r: seq<TileType>)
    ensures forall t :: t in r <==> t in tileVec && hasConnection(t.charIndex)
    ensures IsSubseq(r, tileVec)
  {
    KeepIf(tileVec, (t: TileType) => hasConnection(t.charIndex))
  }

  /** `filter_no_connection`: the entries whose mask lacks the connection, in order. */
  function FilterNoConnection(hasConnection: nat -> bool, tileVec: seq<TileType>): (r: seq<TileType>)
    ensures forall t :: t in r <==> t in tileVec && !hasConnection(t.charIndex)
    ensures IsSubseq(r, tileVec)
  {
    KeepIf(tileVec, (t: TileType) => !hasConnection(t.charIndex))
  }

  /** The two filters split a list: every entry lands in exactly one of them. */
  lemma FilterPartition(hasConnection: nat -> bool, tileVec: seq<TileType>)
    ensures |FilterConnection(hasConnection, tileVec)| + |FilterNoConnection(hasConnection, tileVec)| == |tileVec|
    ensures multiset(FilterConnection(hasConnection, tileVec)) + multiset(FilterNoConnection(hasConnection, tileVec))
            == multiset(tileVec)
  {
    KeepIfPartition(tileVec, (t: TileType) => hasConnection(t.charIndex), (t: TileType) => !hasConnection(t.charIndex));
  }

  /** `Neighbors`: the indices above, below, left and right of a cell. */
  datatype Neighbors = Neighbors(top: int, bottom: int, left: int, right: int)

  function NeighborsOf(index: int): Neighbors {
    Neighbors(index - Width, index + Width, index - 1, index + 1)
  }

  /** The four indices of `Neighbors` are the cells next to `ti` whenever
      the source's guards for them hold: above unless on row 0, right unless
      in the last column, below unless on the last row, left unless in
      column 0. */
  lemma NeighborsAdjacent(ti: nat)
    requires ti < TotalSize
    ensures var n := NeighborsOf(ti); var (x, y) := I2c(ti, 0);
      && (n.top >= 0 <==> y > 0)
      && (n.top >= 0 ==> I2c(n.top, 0) == (x, y - 1))
      && (x != Width - 1 ==> 0 <= n.right < TotalSize && I2c(n.right, 0) == (x + 1, y))
      && (n.bottom < TotalSize <==> y < Width - 1)
      && (n.bottom < TotalSize ==> I2c(n.bottom, 0) == (x, y + 1))
      && (x > 0 ==> 0 <= n.left && I2c(n.left, 0) == (x - 1, y))
  {
    var (x, y) := I2c(ti, 0);
    assert ti == x + y * Width;
    if y > 0 { I2cInverse(x, y - 1, Width); }
    if x != Width - 1 { I2cInverse(x + 1, y, Width); }
    if y < Width - 1 { I2cInverse(x, y + 1, Width); }
    if x > 0 { I2cInverse(x - 1, y, Width); }
  }

  /** The tile type is the catalog entry of its own mask. */
  predicate Catalogued(tt: TileType) {
    tt.charIndex < 16 && WeightedTileTypes[tt.charIndex] == tt
  }

  /** A cell of the map: its index and its tile type. */
  datatype Tile = Tile(index: nat, tileType: TileType)
  {
    /** The `char_index` setter: the tile type becomes the catalog entry of the new mask. */
    function SetCharIndex(i: nat): (r: Tile)
      requires i < 16
      ensures r.index == index && r.tileType.charIndex == i && Catalogued(r.tileType)
    {
      CatalogByMask(i);
      Tile(index, WeightedTileTypes[i])
    }
  }

  /** The filled-cell test of `map_size`. */
  predicate Filled(t: Tile) {
    t.tileType.charIndex != EmptyCharIndex
  }

  /** The masks of a tile list. */
  function MasksOf(ts: seq<Tile>): (g: seq<nat>)
    ensures |g| == |ts| && forall i :: 0 <= i < |ts| ==> g[i] == ts[i].tileType.charIndex
  {
    seq(|ts|, i requires 0 <= i < |ts| => ts[i].tileType.charIndex)
  }

  /** Counting the filled tiles and counting the empty masks add up to the whole map. */
  lemma {:induction false} FilledCount(ts: seq<Tile>)
    ensures |KeepIf(ts, Filled)| + EmptyCount(MasksOf(ts)) == |ts|
  {
    if ts != [] {
      assert MasksOf(ts)[1..] == MasksOf(ts[1..]);
      FilledCount(ts[1..]);
    }
  }

  /** The map with only the start tile at the centre, as `generate` leaves it. */
  function SeedMasks(): (g: seq<nat>)
    ensures |g| == TotalSize
  {
    seq(TotalSize, i => if i == CenterIndex then StartCharIndex else EmptyCharIndex)
  }

  /** The seeded map is consistent: the centre tile is away from the border. */
  lemma SeedMasksConsistent()
    ensures Consistent(SeedMasks(), Width)
  {
    Sizes();
    assert CenterIndex % Width == 10;
    SeedConsistent(SeedMasks(), Width, CenterIndex);
  }

  /** `sub` points back along edge `bit`: each of its entries is a
      non-empty mask with every bit of `bit`, and each such mask has its
      catalog entry in `sub`. */
  ghost predicate PointsBack(sub: seq<TileType>, bit: nat) {
    && (forall e :: e in sub ==> 0 < e.charIndex < 16 && BitOn(e.charIndex, bit))
    && (forall m :: 0 <= m < 16 && BitOn(m, bit) ==> WeightedTileTypes[m] in sub)
  }

  /** `weighted_tiles` of an edge bit is a subset that points back along that edge. */
  lemma WeightedTilesPointsBack(bit: nat)
    requires bit == 1 || bit == 2 || bit == 4 || bit == 8
    ensures PointsBack(WeightedTiles(bit), bit)
  {
    forall e | e in WeightedTiles(bit) ensures 0 < e.charIndex < 16 {
      InCatalog(e);
    }
    forall m | 0 <= m < 16 && BitOn(m, bit) ensures WeightedTileTypes[m] in WeightedTiles(bit) {
      CatalogByMask(m);
    }
  }

  /** `weighted_tiles(bit)` for an edge bit: the catalog entries with that
      edge, in catalog order, which point back along it. */
  method EdgeSubset(bit: nat) returns (sub: seq<TileType>)
    requires bit == 1 || bit == 2 || bit == 4 || bit == 8
    ensures IsSubseq(sub, WeightedTileTypes) && PointsBack(sub, bit)
  {
    sub := WeightedTiles(bit);
    WeightedTilesPointsBack(bit);
  }

  /** A subset that points back along the edge facing the cell a fill comes
      from holds an admissible entry for the cell being filled. */
  lemma SubsetHasFit(g: seq<nat>, t: nat, sub: seq<TileType>, bit: nat)
    requires |g| == TotalSize && t < TotalSize && PointsBack(sub, bit)
    requires BitOn(MinimalFit(g, Width, t), bit)
    ensures exists e :: e in sub && Admits(g, Width, t, e.charIndex)
  {
    var m := MinimalFit(g, Width, t);
    assert WeightedTileTypes[m] in sub;
    CatalogByMask(m);
  }

  /** The cell above a filled cell `s` that points up: `top_tiles` holds an admissible entry. */
  lemma FitAbove(g: seq<nat>, s: nat, sub: seq<TileType>)
    requires |g| == TotalSize && Width <= s < TotalSize && PointsBack(sub, 4)
    requires g[s] != 0 && HasTop(g[s])
    ensures exists e :: e in sub && Admits(g, Width, s - Width, e.charIndex)
  {
    var t := s - Width;
    assert BottomRule(g, Width, t, MinimalFit(g, Width, t));
    EdgeBits(MinimalFit(g, Width, t));
    SubsetHasFit(g, t, sub, 4);
  }

  /** The cell right of a filled cell `s` that points right: `right_tiles` holds an admissible entry. */
  lemma FitRightOf(g: seq<nat>, s: nat, sub: seq<TileType>)
    requires |g| == TotalSize && s + 1 < TotalSize && s % Width != Width - 1 && PointsBack(sub, 8)
    requires g[s] != 0 && HasRight(g[s])
    ensures exists e :: e in sub && Admits(g, Width, s + 1, e.charIndex)
  {
    var t := s + 1;
    Columns(s, Width);
    assert LeftRule(g, Width, t, MinimalFit(g, Width, t));
    EdgeBits(MinimalFit(g, Width, t));
    SubsetHasFit(g, t, sub, 8);
  }

  /** The cell below a filled cell `s` that points down: `bottom_tiles` holds an admissible entry. */
  lemma FitBelow(g: seq<nat>, s: nat, sub: seq<TileType>)
    requires |g| == TotalSize && s + Width < TotalSize && PointsBack(sub, 1)
    requires g[s] != 0 && HasBottom(g[s])
    ensures exists e :: e in sub && Admits(g, Width, s + Width, e.charIndex)
  {
    var t := s + Width;
    assert TopRule(g, Width, t, MinimalFit(g, Width, t));
    EdgeBits(MinimalFit(g, Width, t));
    SubsetHasFit(g, t, sub, 1);
  }

  /** The cell left of a filled cell `s` that points left: `left_tiles` holds an admissible entry. */
  lemma FitLeftOf(g: seq<nat>, s: nat, sub: seq<TileType>)
    requires |g| == TotalSize && 0 < s < TotalSize && s % Width != 0 && PointsBack(sub, 2)
    requires g[s] != 0 && HasLeft(g[s])
    ensures exists e :: e in sub && Admits(g, Width, s - 1, e.charIndex)
  {
    var t := s - 1;
    Columns(s, Width);
    assert RightRule(g, Width, t, MinimalFit(g, Width, t));
    EdgeBits(MinimalFit(g, Width, t));
    SubsetHasFit(g, t, sub, 2);
  }

  /** The top step of `_get_tile` for the bounds test `inBounds`: outside
      the map no top edge; under a filled cell the top edge matches that
      cell's bottom edge; under an empty cell anything. */
  predicate TopRuleIf(g: seq<nat>, t: int, m: nat, inBounds: bool)
    requires 0 <= t < |g| && (inBounds ==> t >= Width)
  {
    if !inBounds then !HasTop(m)
    else g[t - Width] != 0 ==> (HasTop(m) <==> HasBottom(g[t - Width]))
  }

  /** The four steps of `_get_tile` as written: the top step takes the
      cell above to exist only when its index is positive, so cell `WIDTH`
      is treated as if it were on the top row. */
  predicate AdmitsAsWritten(g: seq<nat>, t: int, m: nat) {
    && |g| == TotalSize && 0 <= t < |g|
    && TopRuleIf(g, t, m, t - Width > 0)
    && RightRule(g, Width, t, m)
    && BottomRule(g, Width, t, m)
    && LeftRule(g, Width, t, m)
  }

  /** Away from cell `WIDTH` the test as written admits exactly the masks the four edge rules admit. */
  lemma AsWrittenAwayFromWidth(g: seq<nat>, t: int, m: nat)
    requires |g| == TotalSize && 0 <= t < |g| && t != Width
    ensures AdmitsAsWritten(g, t, m) <==> Admits(g, Width, t, m)
  {
  }

  /** Cell 0 points right to cell 1 and down to the empty cell `WIDTH`.
      This map and the next one are consistent, but a flood from the centre
      does not produce them: cell 1 (and cell `WIDTH + 1` below) has only a
      left edge, and only cell 0 could have filled it. They show the rule
      of `_get_tile` at cell `WIDTH`, which reads only cells 0, `WIDTH + 1`
      and `2 * WIDTH`; a map the flood does reach, with mask 6 at cell 0 and
      cell `WIDTH` still empty, meets the same rule there. */
  function CornerOpen(): (g: seq<nat>)
    ensures |g| == TotalSize
  {
    seq(TotalSize, i => if i == 0 then 6 else if i == 1 then 8 else 0)
  }

  /** `CornerOpen` with a tile at cell `WIDTH + 1` that points left to the empty cell `WIDTH`. */
  function CornerAndBelowRight(): (g: seq<nat>)
    ensures |g| == TotalSize
  {
    CornerOpen()[Width + 1 := 8]
  }

  /** A consistent map with three filled cells at most, none of them pointing out of the map. */
  lemma SmallConsistent(g: seq<nat>)
    requires |g| == TotalSize && g[0] == 6 && g[1] == 8 && g[Width] == 0
    requires g[Width + 1] == 0 || g[Width + 1] == 8
    requires forall i :: 0 <= i < TotalSize && i != 0 && i != 1 && i != Width + 1 ==> g[i] == 0
    ensures Consistent(g, Width)
  {
    Sizes();
    forall i | 0 <= i < |g| ensures Sealed(g, Width, i) {
      if g[i] != 0 {
        assert i == 0 || i == 1 || i == Width + 1;
      }
    }
  }

  /** The empty draw: cell 0 points down to the empty cell `WIDTH`, so
      `_generate_tiles` fills it from `bottom_tiles`, a subset whose entries
      all have a top edge. The test as written forbids a top edge there, so
      no entry survives and `random.choices` is handed an empty list; the
      four edge rules admit an entry of the subset. */
  lemma EmptyDrawAsWritten(bottomTiles: seq<TileType>)
    requires PointsBack(bottomTiles, 1)
    ensures Consistent(CornerOpen(), Width)
    ensures HasBottom(CornerOpen()[0]) && CornerOpen()[Width] == 0
    ensures forall e :: e in bottomTiles ==> !AdmitsAsWritten(CornerOpen(), Width, e.charIndex)
    ensures exists e :: e in bottomTiles && Admits(CornerOpen(), Width, Width, e.charIndex)
  {
    var g := CornerOpen();
    assert g[0] == 6 && g[1] == 8 && g[Width] == 0;
    forall e | e in bottomTiles ensures !AdmitsAsWritten(g, Width, e.charIndex) {
      EdgeBits(e.charIndex);
    }
    assert WeightedTileTypes[1] in bottomTiles;
    assert Admits(g, Width, Width, WeightedTileTypes[1].charIndex);
    SmallConsistent(g);
  }

  /** The broken join: with cell `WIDTH + 1` pointing left, `_generate_tiles`
      fills cell `WIDTH` from `left_tiles`. The test as written admits that
      subset's entry with only a right edge, and every non-empty mask it
      admits there leaves cell 0's bottom edge facing a tile with no top
      edge, so the map is no longer consistent. */
  lemma BrokenJoinAsWritten(leftTiles: seq<TileType>)
    requires PointsBack(leftTiles, 2)
    ensures Consistent(CornerAndBelowRight(), Width)
    ensures CornerAndBelowRight()[Width] == 0 && HasLeft(CornerAndBelowRight()[Width + 1])
    ensures WeightedTileTypes[2] in leftTiles && AdmitsAsWritten(CornerAndBelowRight(), Width, 2)
    ensures forall m :: m != 0 && AdmitsAsWritten(CornerAndBelowRight(), Width, m) ==>
              !Consistent(CornerAndBelowRight()[Width := m], Width)
  {
    var g := CornerAndBelowRight();
    assert g[0] == 6 && g[1] == 8 && g[Width] == 0 && g[Width + 1] == 8;
    assert BitOn(2, 2);
    SmallConsistent(g);
    forall m | m != 0 && AdmitsAsWritten(g, Width, m) ensures !Consistent(g[Width := m], Width) {
      var h := g[Width := m];
      assert h[0] != 0 && h[Width] != 0 && HasBottom(h[0]) && !HasTop(h[Width]);
    }
  }

  /** In the same state the four edge rules admit the entry of `left_tiles`
      with a top and a right edge, and writing it keeps the map consistent. */
  lemma JoinKeptWhenCorrected(leftTiles: seq<TileType>)
    requires PointsBack(leftTiles, 2)
    ensures WeightedTileTypes[3] in leftTiles && Admits(CornerAndBelowRight(), Width, Width, 3)
    ensures Consistent(CornerAndBelowRight()[Width := 3], Width)
  {
    var g := CornerAndBelowRight();
    assert g[0] == 6 && g[1] == 8 && g[Width] == 0 && g[Width + 1] == 8 && g[2 * Width] == 0;
    assert BitOn(3, 2);
    SmallConsistent(g);
    assert TopRule(g, Width, Width, 3) && RightRule(g, Width, Width, 3);
    assert BottomRule(g, Width, Width, 3) && LeftRule(g, Width, Width, 3);
    AdmittedPlacement(g, Width, Width, 3);
  }

  class Map {
    var tiles: seq<Tile>
    var nextTileQueue: seq<nat>
    var generatingTiles: bool
    const bottomTiles: seq<TileType>
    const leftTiles: seq<TileType>
    const topTiles: seq<TileType>
    const rightTiles: seq<TileType>

    /** Each directional subset holds the catalog entries that point back
        towards the cell a fill comes from. */
    ghost predicate Subsets() {
      && PointsBack(bottomTiles, 1)
      && PointsBack(leftTiles, 2)
      && PointsBack(topTiles, 4)
      && PointsBack(rightTiles, 8)
    }

    ghost function Masks(): seq<nat>
      reads this
    {
      MasksOf(tiles)
    }

    /** The map has all its cells: cell `i` is tile `i`, with a catalog tile type. */
    ghost predicate Sized()
      reads this
    {
      && |tiles| == TotalSize
      && forall i :: 0 <= i < TotalSize ==> tiles[i].index == i && Catalogued(tiles[i].tileType)
    }

    /** Between two calls of `update`: the queue holds cells of the map; a
        map that has not been generated has nothing queued; a generated map
        is consistent and every filled cell that is not waiting in the queue
        is closed. */
    ghost predicate Valid()
      reads this
    {
      && Subsets()
      && (forall j :: j in nextTileQueue ==> j < TotalSize)
      && (|tiles| == 0 ==> nextTileQueue == [])
      && (|tiles| != 0 ==> Sized() && Consistent(Masks(), Width) && PendingClosed(Masks(), Width, nextTileQueue))
    }

    /** `Map.__init__`: no tiles, an empty queue, the four directional subsets. */
    constructor ()
      ensures Valid() && tiles == [] && nextTileQueue == [] && !generatingTiles
    {
      nextTileQueue := [];
      tiles := [];
      var b := EdgeSubset(1);
      var l := EdgeSubset(2);
      var t := EdgeSubset(4);
      var r := EdgeSubset(8);
      bottomTiles, leftTiles, topTiles, rightTiles := b, l, t, r;
      generatingTiles := false;
    }

    /** `map_size`: the number of filled cells, which is the number of cells less the empty ones. */
    function MapSize(): (r: nat)
      reads this
      ensures r + EmptyCount(MasksOf(tiles)) == |tiles|
    {
      FilledCount(tiles);
      |KeepIf(tiles, Filled)|
    }

    /** `good_map_size`: at least `MIN_SIZE` cells are filled. */
    predicate GoodMapSize()
      reads this
      ensures GoodMapSize() <==> EmptyCount(MasksOf(tiles)) + MinSize <= |tiles|
    {
      MapSize() >= MinSize
    }

    /** `generate`: every cell empty but the centre, which holds the start
        tile; the centre joins the back of the queue, whatever it held. */
    method Generate()
      requires Valid()
      modifies this
      ensures Valid() && Sized() && Masks() == SeedMasks()
      ensures nextTileQueue == old(nextTileQueue) + [CenterIndex]
      ensures generatingTiles == old(generatingTiles)
    {
      tiles := seq(TotalSize, i requires 0 <= i => Tile(i, WeightedTileTypes[EmptyCharIndex]));
      var centerIndex := Width / 2 + Width / 2 * Width;
      tiles := tiles[centerIndex := tiles[centerIndex].SetCharIndex(StartCharIndex)];
      nextTileQueue := nextTileQueue + [centerIndex];
      assert Masks() == SeedMasks();
      SeedMasksConsistent();
      assert centerIndex in nextTileQueue;
    }

    /** The state after one queue step from masks `g` and queue `q`: the
        front cell `q[0]` was taken off the queue and is now closed, cells
        only went from empty to filled, and the queue is the rest of `q`
        followed by exactly the cells that were filled. */
    ghost predicate Advanced(g: seq<nat>, q: seq<nat>)
      reads this
    {
      && q != [] && q[0] < TotalSize && Sized()
      && Grows(g, Masks()) && Closed(Masks(), Width, q[0])
      && |q| - 1 <= |nextTileQueue|
      && nextTileQueue[..|q| - 1] == q[1..]
      && FilledExactly(g, Masks(), nextTileQueue[|q| - 1..])
    }

    /** `update`: one frame. With a cell waiting, take it off the front of
        the queue and fill around it, queueing the cells it fills; once the
        queue has run dry after generating, stop, and start over if the map
        is too small; otherwise do nothing. */
    method Update()
      requires Valid()
      modifies this
      ensures Valid()
      ensures old(nextTileQueue) != [] ==> generatingTiles && Advanced(old(Masks()), old(nextTileQueue))
      ensures old(nextTileQueue) == [] && old(generatingTiles) && old(GoodMapSize()) ==>
        !generatingTiles && tiles == old(tiles) && nextTileQueue == []
      ensures old(nextTileQueue) == [] && old(generatingTiles) && !old(GoodMapSize()) ==>
        !generatingTiles && Sized() && Masks() == SeedMasks() && nextTileQueue == [CenterIndex]
      ensures old(nextTileQueue) == [] && !old(generatingTiles) ==>
        !generatingTiles && tiles == old(tiles) && nextTileQueue == []
    {
      if nextTileQueue != [] {
        generatingTiles := true;
        FloodNext();
      } else if generatingTiles {
        generatingTiles := false;
        if !GoodMapSize() {
          Generate();
        }
      }
    }

    /** The queue step of `update`: `_generate_tiles` on the cell taken off
        the front of the queue, in queue mode. */
    method FloodNext()
      requires Valid() && nextTileQueue != []
      modifies this
      ensures Valid() && Advanced(old(Masks()), old(nextTileQueue))
      ensures nextTileQueue == old(nextTileQueue)[1..] + Targets(old(Masks()), Width, old(nextTileQueue)[0])
      ensures generatingTiles == old(generatingTiles)
    {
      ghost var q := nextTileQueue;
      ghost var g := Masks();
      var c := nextTileQueue[0];
      assert c in q;
      nextTileQueue := nextTileQueue[1..];
      assert forall j :: j in nextTileQueue ==> j in q;
      ghost var tree := GenerateTiles(c, true);
      ghost var idx := nextTileQueue[|q| - 1..];
      PendingStep(g, Masks(), Width, q, idx);
      assert nextTileQueue == q[1..] + idx;
    }

    /** With nothing left in the queue, every filled cell of a generated map is closed. */
    lemma Drained()
      requires Valid() && tiles != [] && nextTileQueue == []
      ensures forall j :: 0 <= j < TotalSize && Masks()[j] != 0 ==> Closed(Masks(), Width, j)
    {
    }

    /** `_filter_tile_vec`: one edge step of `_get_tile`. Outside the map,
        drop the entries with the connection; next to a filled cell, keep
        those whose connection matches the neighbour's facing edge
        (`connection_check`); next to an empty cell, keep the list. */
    function FilterTileVec(tileVec: seq<TileType>, inBounds: bool, charIndex: int,
                           connectionCheck: nat -> bool, hasConnection: nat -> bool): (r: seq<TileType>)
      reads this
      requires inBounds ==> 0 <= charIndex < |tiles|
      ensures IsSubseq(r, tileVec)
      ensures !inBounds ==> forall t :: t in r <==> t in tileVec && !hasConnection(t.charIndex)
      ensures inBounds && tiles[charIndex].tileType.charIndex != EmptyCharIndex ==>
        forall t :: t in r <==>
          t in tileVec && (hasConnection(t.charIndex) <==> connectionCheck(tiles[charIndex].tileType.charIndex))
      ensures inBounds && tiles[charIndex].tileType.charIndex == EmptyCharIndex ==> r == tileVec
    {
      if !inBounds then FilterNoConnection(hasConnection, tileVec)
      else if tiles[charIndex].tileType.charIndex != EmptyCharIndex then
        if connectionCheck(tiles[charIndex].tileType.charIndex) then FilterConnection(hasConnection, tileVec)
        else FilterNoConnection(hasConnection, tileVec)
      else
        KeepIfAll(tileVec, (t: TileType) => true);
        tileVec
    }

    /** The top step of `_get_tile` keeps the entries the top rule admits. */
    lemma TopStep(ti: nat, tileVec: seq<TileType>, inBounds: bool)
      requires Sized() && ti < TotalSize && (inBounds ==> ti >= Width)
      ensures forall x :: x in FilterTileVec(tileVec, inBounds, ti - Width, HasBottom, HasTop) <==>
        x in tileVec && TopRuleIf(Masks(), ti, x.charIndex, inBounds)
    {
    }

    /** The right step of `_get_tile` keeps the entries the right rule admits. */
    lemma RightStep(ti: nat, tileVec: seq<TileType>)
      requires Sized() && ti < TotalSize
      ensures ti % Width != Width - 1 ==> ti + 1 < TotalSize
      ensures forall x :: x in FilterTileVec(tileVec, ti % Width != Width - 1, ti + 1, HasLeft, HasRight) <==>
        x in tileVec && RightRule(Masks(), Width, ti, x.charIndex)
    {
      Sizes();
      Columns(ti, Width);
    }

    /** The bottom step of `_get_tile` keeps the entries the bottom rule admits. */
    lemma BottomStep(ti: nat, tileVec: seq<TileType>)
      requires Sized() && ti < TotalSize
      ensures forall x :: x in FilterTileVec(tileVec, ti + Width < TotalSize, ti + Width, HasTop, HasBottom) <==>
        x in tileVec && BottomRule(Masks(), Width, ti, x.charIndex)
    {
    }

    /** The left step of `_get_tile` keeps the entries the left rule admits. */
    lemma LeftStep(ti: nat, tileVec: seq<TileType>)
      requires Sized() && ti < TotalSize
      ensures forall x :: x in FilterTileVec(tileVec, ti % Width > 0, ti - 1, HasRight, HasLeft) <==>
        x in tileVec && LeftRule(Masks(), Width, ti, x.charIndex)
    {
      Sizes();
      Columns(ti, Width);
    }

    /** The four `_filter_tile_vec` steps of `_get_tile`, with the top
        step's bounds test given as `topInBounds`: the survivors are, in
        their order in `tileVec`, the entries the four edge steps admit. */
    method Narrow(ti: nat, tileVec: seq<TileType>, topInBounds: bool) returns (v: seq<TileType>)
      requires Sized() && ti < TotalSize && (topInBounds ==> ti >= Width)
      ensures IsSubseq(v, tileVec)
      ensures forall x :: x in v <==>
        && x in tileVec
        && TopRuleIf(Masks(), ti, x.charIndex, topInBounds)
        && RightRule(Masks(), Width, ti, x.charIndex)
        && BottomRule(Masks(), Width, ti, x.charIndex)
        && LeftRule(Masks(), Width, ti, x.charIndex)
    {
      Sizes();
      Columns(ti, Width);
      var n := NeighborsOf(ti);
      var v1 := FilterTileVec(tileVec, topInBounds, n.top, HasBottom, HasTop);
      TopStep(ti, tileVec, topInBounds);
      var v2 := FilterTileVec(v1, ti % Width != Width - 1, n.right, HasLeft, HasRight);
      RightStep(ti, v1);
      var v3 := FilterTileVec(v2, n.bottom < TotalSize, n.bottom, HasTop, HasBottom);
      BottomStep(ti, v2);
      v := FilterTileVec(v3, ti % Width > 0, n.left, HasRight, HasLeft);
      LeftStep(ti, v3);
      IsSubseqTrans(v, v3, v2);
      IsSubseqTrans(v, v2, v1);
      IsSubseqTrans(v, v1, tileVec);
    }

    /** `_get_tile` with the top bound the rest of the file uses
        (`n.top >= 0`): narrow `tileVec` and draw one of the survivors. The
        weighted draw is any index into the narrowed list; it is never empty
        when some entry of `tileVec` is admissible. */
    method GetTile(ti: nat, tileVec: seq<TileType>) returns (ci: nat)
      requires Sized() && ti < TotalSize
      requires exists t :: t in tileVec && Admits(Masks(), Width, ti, t.charIndex)
      ensures Admits(Masks(), Width, ti, ci)
      ensures exists t :: t in tileVec && t.charIndex == ci
    {
      var n := NeighborsOf(ti);
      var v := Narrow(ti, tileVec, n.top >= 0);
      assert forall x :: x in tileVec && Admits(Masks(), Width, ti, x.charIndex) ==> x in v;
      var k :| 0 <= k < |v|;
      ci := v[k].charIndex;
      assert v[k] in v;
    }

    /** `_get_tile` as written (`n.top > 0`). `None` is the failure of
        `random.choices` on an empty list: it happens exactly when no entry
        of `tileVec` passes the four steps as written. */
    method GetTileAsWritten(ti: nat, tileVec: seq<TileType>) returns (r: Option<nat>)
      requires Sized() && ti < TotalSize
      ensures r.None? <==> forall t :: t in tileVec ==> !AdmitsAsWritten(Masks(), ti, t.charIndex)
      ensures r.Some? ==> AdmitsAsWritten(Masks(), ti, r.value) && exists t :: t in tileVec && t.charIndex == r.value
    {
      var n := NeighborsOf(ti);
      var v := Narrow(ti, tileVec, n.top > 0);
      if |v| == 0 {
        r := None;
      } else {
        var k :| 0 <= k < |v|;
        r := Some(v[k].charIndex);
        assert v[k] in v;
      }
    }

    /** `self.tiles[t].char_index = ci`: cell `t` takes mask `ci`, every other cell stays. */
    method SetTileCharIndex(t: nat, ci: nat)
      requires Sized() && t < TotalSize && ci < 16
      modifies this
      ensures Sized() && Masks() == old(Masks())[t := ci]
      ensures nextTileQueue == old(nextTileQueue) && generatingTiles == old(generatingTiles)
    {
      tiles := tiles[t := tiles[t].SetCharIndex(ci)];
      assert Masks() == old(Masks())[t := ci];
    }

    /** One fill of `_generate_tiles`: draw a tile for the empty cell `t`
        from `tileVec` and write it. The map stays consistent and only cell
        `t` changes, to a non-empty admissible mask from `tileVec`. */
    method FillCell(t: nat, tileVec: seq<TileType>)
      requires Sized() && Consistent(Masks(), Width) && t < TotalSize && Masks()[t] == 0
      requires forall e :: e in tileVec ==> 0 < e.charIndex < 16
      requires exists e :: e in tileVec && Admits(Masks(), Width, t, e.charIndex)
      modifies this
      ensures Sized() && Consistent(Masks(), Width)
      ensures Masks() == old(Masks())[t := Masks()[t]]
      ensures Masks()[t] != 0 && Admits(old(Masks()), Width, t, Masks()[t])
      ensures exists e :: e in tileVec && e.charIndex == Masks()[t]
      ensures nextTileQueue == old(nextTileQueue) && generatingTiles == old(generatingTiles)
    {
      ghost var g := Masks();
      var ci := GetTile(t, tileVec);
      SetTileCharIndex(t, ci);
      AdmittedPlacement(g, Width, t, ci);
    }

    /** What the blocks of `_generate_tiles` keep: the map is consistent,
        it has grown from `g0` by exactly the cells listed in `idx`, and the
        current cell `cur` still holds mask `chi`. */
    ghost predicate Progress(g0: seq<nat>, cur: nat, chi: nat, idx: seq<nat>)
      reads this
    {
      && Sized() && Subsets() && cur < TotalSize
      && Consistent(Masks(), Width)
      && Grows(g0, Masks()) && FilledExactly(g0, Masks(), idx)
      && (forall j :: j in idx ==> j < TotalSize)
      && Masks()[cur] == chi
      && (idx != [] ==> chi != 0)
    }

    /** One guarded block of `_generate_tiles` once its in-range and
        points-at tests have passed: if the neighbour `t` is empty, record it
        and fill it from `tileVec`; otherwise leave everything as it is. */
    method FillIfEmpty(ghost g0: seq<nat>, ghost cur: nat, ghost chi: nat, tileIndexes: seq<nat>,
                       t: nat, tileVec: seq<TileType>)
      returns (r: seq<nat>)
      requires Progress(g0, cur, chi, tileIndexes) && t < TotalSize && t != cur && chi != 0
      requires forall e :: e in tileVec ==> 0 < e.charIndex < 16
      requires Masks()[t] == 0 ==> exists e :: e in tileVec && Admits(Masks(), Width, t, e.charIndex)
      modifies this
      ensures Progress(g0, cur, chi, r) && Grows(old(Masks()), Masks())
      ensures Masks()[t] != 0
      ensures r == if old(Masks())[t] == 0 then tileIndexes + [t] else tileIndexes
      ensures nextTileQueue == old(nextTileQueue) && generatingTiles == old(generatingTiles)
    {
      r := tileIndexes;
      if tiles[t].tileType.charIndex == EmptyCharIndex {
        r := r + [t];
        FillEmpty(g0, cur, chi, tileIndexes, t, tileVec);
      }
    }

    /** The filling branch of `FillIfEmpty`: the empty neighbour `t` is
        filled and joins the list of cells filled since `g0`. */
    method FillEmpty(ghost g0: seq<nat>, ghost cur: nat, ghost chi: nat, tileIndexes: seq<nat>,
                     t: nat, tileVec: seq<TileType>)
      requires Progress(g0, cur, chi, tileIndexes) && t < TotalSize && t != cur && chi != 0
      requires forall e :: e in tileVec ==> 0 < e.charIndex < 16
      requires Masks()[t] == 0 && exists e :: e in tileVec && Admits(Masks(), Width, t, e.charIndex)
      modifies this
      ensures Progress(g0, cur, chi, tileIndexes + [t]) && Grows(old(Masks()), Masks())
      ensures Masks()[t] != 0
      ensures nextTileQueue == old(nextTileQueue) && generatingTiles == old(generatingTiles)
    {
      ghost var h := Masks();
      FillCell(t, tileVec);
      FilledOneMore(g0, h, Masks(), tileIndexes, t);
    }

    /** The top block of `_generate_tiles`, filling from `top_tiles`. */
    method FillTop(ghost g0: seq<nat>, ti: nat, chi: nat, tileIndexes: seq<nat>) returns (r: seq<nat>)
      requires Progress(g0, ti, chi, tileIndexes)
      modifies this
      ensures Progress(g0, ti, chi, r) && Grows(old(Masks()), Masks())
      ensures ti >= Width && HasTop(chi) ==> Masks()[ti - Width] != 0
      ensures r == tileIndexes + TopTarget(old(Masks()), Width, ti)
      ensures nextTileQueue == old(nextTileQueue) && generatingTiles == old(generatingTiles)
    {
      EdgeMeansFilled(chi);
      ghost var target := TopTarget(Masks(), Width, ti);
      var n := NeighborsOf(ti);
      assert n.top == ti - Width;
      r := tileIndexes;
      if n.top >= 0 && HasTop(chi) {
        assert target == if Masks()[n.top] == 0 then [n.top] else [];
        FitAbove(Masks(), ti, topTiles);
        r := FillIfEmpty(g0, ti, chi, r, n.top, topTiles);
        assert Masks()[ti - Width] != 0;
      } else {
        assert target == [];
      }
    }

    /** The right block of `_generate_tiles`, outside the last column, filling from `right_tiles`. */
    method FillRight(ghost g0: seq<nat>, ti: nat, chi: nat, tileIndexes: seq<nat>) returns (r: seq<nat>)
      requires Progress(g0, ti, chi, tileIndexes)
      modifies this
      ensures Progress(g0, ti, chi, r) && Grows(old(Masks()), Masks())
      ensures ti % Width != Width - 1 && ti + 1 < TotalSize && HasRight(chi) ==> Masks()[ti + 1] != 0
      ensures r == tileIndexes + RightTarget(old(Masks()), Width, ti)
      ensures nextTileQueue == old(nextTileQueue) && generatingTiles == old(generatingTiles)
    {
      EdgeMeansFilled(chi);
      ghost var target := RightTarget(Masks(), Width, ti);
      Sizes();
      Columns(ti, Width);
      var n := NeighborsOf(ti);
      r := tileIndexes;
      if ti % Width != Width - 1 && HasRight(chi) {
        assert target == if Masks()[n.right] == 0 then [n.right] else [];
        FitRightOf(Masks(), ti, rightTiles);
        r := FillIfEmpty(g0, ti, chi, r, n.right, rightTiles);
        assert Masks()[ti + 1] != 0;
      } else {
        assert target == [];
      }
    }

    /** The bottom block of `_generate_tiles`, above the last row, filling from `bottom_tiles`. */
    method FillBottom(ghost g0: seq<nat>, ti: nat, chi: nat, tileIndexes: seq<nat>) returns (r: seq<nat>)
      requires Progress(g0, ti, chi, tileIndexes)
      modifies this
      ensures Progress(g0, ti, chi, r) && Grows(old(Masks()), Masks())
      ensures ti + Width < TotalSize && HasBottom(chi) ==> Masks()[ti + Width] != 0
      ensures r == tileIndexes + BottomTarget(old(Masks()), Width, ti)
      ensures nextTileQueue == old(nextTileQueue) && generatingTiles == old(generatingTiles)
    {
      EdgeMeansFilled(chi);
      ghost var target := BottomTarget(Masks(), Width, ti);
      var n := NeighborsOf(ti);
      r := tileIndexes;
      if n.bottom < TotalSize && HasBottom(chi) {
        assert target == if Masks()[n.bottom] == 0 then [n.bottom] else [];
        FitBelow(Masks(), ti, bottomTiles);
        r := FillIfEmpty(g0, ti, chi, r, n.bottom, bottomTiles);
        assert Masks()[ti + Width] != 0;
      } else {
        assert target == [];
      }
    }

    /** The left block of `_generate_tiles`, outside the first column, filling from `left_tiles`. */
    method FillLeft(ghost g0: seq<nat>, ti: nat, chi: nat, tileIndexes: seq<nat>) returns (r: seq<nat>)
      requires Progress(g0, ti, chi, tileIndexes)
      modifies this
      ensures Progress(g0, ti, chi, r) && Grows(old(Masks()), Masks())
      ensures 0 < ti && ti % Width != 0 && HasLeft(chi) ==> Masks()[ti - 1] != 0
      ensures r == tileIndexes + LeftTarget(old(Masks()), Width, ti)
      ensures nextTileQueue == old(nextTileQueue) && generatingTiles == old(generatingTiles)
    {
      EdgeMeansFilled(chi);
      ghost var target := LeftTarget(Masks(), Width, ti);
      Sizes();
      Columns(ti, Width);
      var n := NeighborsOf(ti);
      assert n.left == ti - 1;
      r := tileIndexes;
      if ti % Width > 0 && HasLeft(chi) {
        assert target == if Masks()[n.left] == 0 then [n.left] else [];
        FitLeftOf(Masks(), ti, leftTiles);
        r := FillIfEmpty(g0, ti, chi, r, n.left, leftTiles);
        assert Masks()[ti - 1] != 0;
      } else {
        assert target == [];
      }
    }

    /** The four blocks of `_generate_tiles` in the order top, right,
        bottom, left. Afterwards the current cell is closed, the map is still
        consistent, and the recorded cells are exactly the cells that were
        filled. */
    method FillNeighbors(curIndex: nat) returns (tileIndexes: seq<nat>)
      requires Sized() && Subsets() && Consistent(Masks(), Width) && curIndex < TotalSize
      modifies this
      ensures Sized() && Consistent(Masks(), Width) && Grows(old(Masks()), Masks())
      ensures Closed(Masks(), Width, curIndex)
      ensures forall j :: j in tileIndexes ==> j < TotalSize
      ensures FilledExactly(old(Masks()), Masks(), tileIndexes)
      ensures tileIndexes == Targets(old(Masks()), Width, curIndex)
      ensures tileIndexes != [] ==> Masks()[curIndex] != 0
      ensures nextTileQueue == old(nextTileQueue) && generatingTiles == old(generatingTiles)
    {
      ghost var g0 := Masks();
      tileIndexes := [];
      var ti := tiles[curIndex].index;
      var chi := tiles[curIndex].tileType.charIndex;
      Sizes();
      Columns(ti, Width);
      assert ti == curIndex;
      tileIndexes := FillTop(g0, ti, chi, tileIndexes);
      assert tileIndexes == TopTarget(g0, Width, ti);
      ghost var g1 := Masks();
      tileIndexes := FillRight(g0, ti, chi, tileIndexes);
      ghost var g2 := Masks();
      tileIndexes := FillBottom(g0, ti, chi, tileIndexes);
      ghost var g3 := Masks();
      tileIndexes := FillLeft(g0, ti, chi, tileIndexes);
      TargetsInTurn(g0, g1, g2, g3, Width, ti);
      assert tileIndexes == Targets(g0, Width, ti);
      TargetsClose(g0, Masks(), Width, ti);
    }

    /** `_generate_tiles`: fill around the current cell, then either recurse
        into the filled cells (`use_queue` false) or put them at the back of
        the queue (`use_queue` true), in the order they were filled. The
        recursion ends because every recursive call sees fewer empty cells.
        The map stays consistent, cells only go from empty to filled, and
        the current cell is closed; in recursive mode so is every cell filled
        on the way, in queue mode the queue gains exactly the filled cells. */
    method GenerateTiles(curIndex: nat, useQueue: bool) returns (ghost tree: seq<Link>)
      requires Sized() && Subsets() && Consistent(Masks(), Width) && curIndex < TotalSize
      requires forall j :: j in nextTileQueue ==> j < TotalSize
      modifies this
      ensures Sized() && Consistent(Masks(), Width) && Grows(old(Masks()), Masks())
      ensures generatingTiles == old(generatingTiles)
      ensures forall j :: j in nextTileQueue ==> j < TotalSize
      ensures Closed(Masks(), Width, curIndex)
      ensures !useQueue ==> nextTileQueue == old(nextTileQueue)
      ensures !useQueue ==> forall j :: 0 <= j < TotalSize && old(Masks())[j] == 0 && Masks()[j] != 0 ==>
                Closed(Masks(), Width, j)
      ensures useQueue ==> |old(nextTileQueue)| <= |nextTileQueue|
      ensures useQueue ==> nextTileQueue[..|old(nextTileQueue)|] == old(nextTileQueue)
      ensures useQueue ==> FilledExactly(old(Masks()), Masks(), nextTileQueue[|old(nextTileQueue)|..])
      ensures useQueue ==> nextTileQueue == old(nextTileQueue) + Targets(old(Masks()), Width, curIndex)
      ensures ReachedVia(old(Masks()), Masks(), Width, curIndex, tree)
      ensures Rooted(old(Masks()), Masks(), Width, curIndex, tree, Targets(old(Masks()), Width, curIndex))
      ensures useQueue ==> tree == RootLinks(Targets(old(Masks()), Width, curIndex))
      decreases EmptyCount(Masks()), 1
    {
      ghost var g0 := Masks();
      var tileIndexes := FillNeighbors(curIndex);
      RootedStart(g0, Masks(), Width, curIndex, tileIndexes);
      if !useQueue {
        FloodStart(g0, Masks(), Width, curIndex, tileIndexes);
        tree := RecurseInto(g0, curIndex, tileIndexes);
      } else {
        tree := RootLinks(tileIndexes);
        Enqueue(tileIndexes);
      }
    }

    /** The recursive half of `_generate_tiles`: `_generate_tiles` on each
        filled cell in turn. Every filled cell since `g0` ends up closed. */
    method RecurseInto(ghost g0: seq<nat>, curIndex: nat, tileIndexes: seq<nat>) returns (ghost tree: seq<Link>)
      requires Sized() && Subsets() && Consistent(Masks(), Width)
      requires Flooded(g0, Masks(), Masks(), Width, curIndex, tileIndexes)
      requires Rooted(g0, Masks(), Width, curIndex, RootLinks(tileIndexes), tileIndexes)
      requires forall j :: j in nextTileQueue ==> j < TotalSize
      modifies this
      ensures Sized() && Consistent(Masks(), Width) && Grows(g0, Masks())
      ensures Closed(Masks(), Width, curIndex)
      ensures forall j :: 0 <= j < TotalSize && g0[j] == 0 && Masks()[j] != 0 ==> Closed(Masks(), Width, j)
      ensures ReachedVia(g0, Masks(), Width, curIndex, tree)
      ensures Rooted(g0, Masks(), Width, curIndex, tree, tileIndexes)
      ensures nextTileQueue == old(nextTileQueue) && generatingTiles == old(generatingTiles)
      decreases EmptyCount(g0), 0
    {
      ghost var g1 := Masks();
      tree := RootLinks(tileIndexes);
      for k := 0 to |tileIndexes|
        invariant Sized() && Consistent(Masks(), Width)
        invariant nextTileQueue == old(nextTileQueue) && generatingTiles == old(generatingTiles)
        invariant Flooded(g0, g1, Masks(), Width, curIndex, tileIndexes[k..])
        invariant Rooted(g0, Masks(), Width, curIndex, tree, tileIndexes)
      {
        var i := tileIndexes[k];
        assert i in tileIndexes[k..];
        ghost var h := Masks();
        ghost var sub := GenerateTiles(i, false);
        FloodStep(g0, g1, h, Masks(), Width, curIndex, tileIndexes[k..]);
        assert tileIndexes[k..][1..] == tileIndexes[k + 1..];
        GrowsTrans(g0, g1, h);
        RootedStep(g0, h, Masks(), Width, curIndex, tree, tileIndexes, k, sub);
        tree := tree + Graft(sub, k, |tree|);
      }
      FloodEnd(g0, g1, Masks(), Width, curIndex);
    }

    /** The queue half of `_generate_tiles`: put each filled cell at the back of the queue, in order. */
    method Enqueue(tileIndexes: seq<nat>)
      modifies this
      ensures nextTileQueue == old(nextTileQueue) + tileIndexes
      ensures tiles == old(tiles) && generatingTiles == old(generatingTiles)
    {
      for k := 0 to |tileIndexes|
        invariant tiles == old(tiles) && generatingTiles == old(generatingTiles)
        invariant nextTileQueue == old(nextTileQueue) + tileIndexes[..k]
      {
        nextTileQueue := nextTileQueue + [tileIndexes[k]];
        assert tileIndexes[..k + 1] == tileIndexes[..k] + [tileIndexes[k]];
      }
      assert tileIndexes[..|tileIndexes|] == tileIndexes;
    }
  }
}
