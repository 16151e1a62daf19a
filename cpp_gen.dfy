/** The C++ generator (cpp/main.cpp): the same flood fill as the Rust
    generator on a 16 x 16 map. The tile list is a growable vector that
    `create` fills, the directional subsets are appended to by a loop, the
    four edge filters are named after what they let through the other way
    round, and the final draw is uniform over the narrowed list. */
module CppGen {
  import opened Connections
  import opened Filters
  import opened Grid

  const Size: nat := 16
  /** `SIZE * SIZE`, written out so that the solver sees a constant. */
  const MapSize: nat := 256
  const TotalTileTypes: nat := 16
  const StartCharIndex: nat := 15
  const EmptyCharIndex: nat := 0
  /** `SIZE / 2 + SIZE / 2 * SIZE`, the cell `create` seeds. */
  const CenterIndex: nat := 136

  lemma Sizes()
    ensures MapSize == Size * Size
    ensures CenterIndex == Size / 2 + Size / 2 * Size
  {
  }

  /** A catalog entry: its mask (`tile_index`) and sampling weight. */
  datatype TileType = TileType(tileIndex: nat, weight: nat)

  const WeightedTileTypes: seq<TileType> := [
    TileType(0, 1), TileType(1, 8), TileType(2, 8), TileType(3, 6),
    TileType(4, 8), TileType(5, 4), TileType(6, 6), TileType(7, 8),
    TileType(8, 8), TileType(9, 6), TileType(10, 6), TileType(11, 4),
    TileType(12, 6), TileType(13, 4), TileType(14, 4), TileType(15, 2)
  ]

  /** Entry `i` of the catalog has mask `i` and a positive weight. */
  lemma CatalogByMask(i: nat)
    requires i < TotalTileTypes
    ensures |WeightedTileTypes| == TotalTileTypes
    ensures WeightedTileTypes[i].tileIndex == i && WeightedTileTypes[i].weight > 0
  {
  }

  /** Every catalog entry is the entry of its own mask. */
  lemma InCatalog(e: TileType)
    requires e in WeightedTileTypes
    ensures e.tileIndex < TotalTileTypes && WeightedTileTypes[e.tileIndex] == e
  {
    var i :| 0 <= i < |WeightedTileTypes| && WeightedTileTypes[i] == e;
    CatalogByMask(i);
  }

  datatype Coord = Coord(x: int, y: int)

  /** `c2i`: the index of a position. */
  function C2i(c: Coord): int {
    c.x + c.y * Size
  }

  /** `i2c` on a cell index: its column and row. */
  function I2c(i: nat): Coord {
    Coord(i % Size, i / Size)
  }

  /** `c2i` and `i2c` are inverse on the map: every index comes back from
      its coordinates, and every position inside the map from its index. */
  lemma CoordRoundTrip(i: nat, c: Coord)
    ensures i < MapSize ==> 0 <= I2c(i).x < Size && 0 <= I2c(i).y < Size
    ensures C2i(I2c(i)) == i
    ensures 0 <= c.x < Size && 0 <= c.y < Size ==> 0 <= C2i(c) < MapSize && I2c(C2i(c) as nat) == c
  {
    if 0 <= c.x < Size && 0 <= c.y < Size {
      DivUnique(c.x + c.y * Size, Size, c.y, c.x);
    }
  }

  /** `Neighbors(index)`: the indices above, below, left and right of `index`. */
  datatype Neighbors = Neighbors(top: int, bottom: int, left: int, right: int)

  function NeighborsOf(index: int): Neighbors {
    Neighbors(index - Size, index + Size, index - 1, index + 1)
  }

  /** The four indices of `Neighbors` are the cells next to `ti` on the map
      whenever the source's guards for them hold: above unless on row 0,
      right unless in the last column, below unless on the last row, left
      unless in column 0. */
  lemma NeighborsAdjacent(ti: nat)
    requires ti < MapSize
    ensures var n := NeighborsOf(ti); var c := I2c(ti);
      && (n.top >= 0 <==> c.y > 0)
      && (n.top >= 0 ==> I2c(n.top) == Coord(c.x, c.y - 1))
      && (c.x != Size - 1 ==> 0 <= n.right < MapSize && I2c(n.right) == Coord(c.x + 1, c.y))
      && (n.bottom < MapSize <==> c.y < Size - 1)
      && (n.bottom < MapSize ==> I2c(n.bottom) == Coord(c.x, c.y + 1))
      && (c.x > 0 ==> 0 <= n.left && I2c(n.left) == Coord(c.x - 1, c.y))
  {
    var x, y := ti % Size, ti / Size;
    assert ti == x + y * Size;
    if y > 0 { DivUnique(ti - Size, Size, y - 1, x); }
    if x != Size - 1 { DivUnique(ti + 1, Size, y, x + 1); }
    if y < Size - 1 { DivUnique(ti + Size, Size, y + 1, x); }
    if x > 0 { DivUnique(ti - 1, Size, y, x - 1); }
  }

  /** The test `weighted_tiles` applies to a catalog entry. */
  function WithBit(bit: nat): TileType -> bool {
    (t: TileType) => BitOn(t.tileIndex, bit)
  }

  /** The catalog entries whose mask has every bit of `bit`, in catalog order. */
  function CatalogWith(bit: nat): (r: seq<TileType>)
    ensures forall t :: t in r <==> t in WeightedTileTypes && BitOn(t.tileIndex, bit)
    ensures IsSubseq(r, WeightedTileTypes)
  {
    KeepIf(WeightedTileTypes, WithBit(bit))
  }

  /** `weighted_tiles(bit, tileset)`: append to `tileset`, in catalog
      order, every entry whose mask has `bit`; what `tileset` held stays. */
  method WeightedTiles(bit: nat, tileset: seq<TileType>) returns (r: seq<TileType>)
    ensures |r| >= |tileset| && r[..|tileset|] == tileset
    ensures r[|tileset|..] == CatalogWith(bit)
  {
    r := tileset;
    for i := 0 to TotalTileTypes
      invariant r == tileset + KeepIf(WeightedTileTypes[..i], WithBit(bit))
    {
      KeepIfStep(WeightedTileTypes, i, WithBit(bit));
      if BitOn(WeightedTileTypes[i].tileIndex, bit) {
        r := r + [WeightedTileTypes[i]];
      }
    }
    assert WeightedTileTypes[..TotalTileTypes] == WeightedTileTypes;
  }

  /** `sub` points back along edge `bit`: each of its entries is a
      non-empty mask with every bit of `bit`, and each such mask has its
      catalog entry in `sub`. */
  ghost predicate PointsBack(sub: seq<TileType>, bit: nat) {
    && (forall e :: e in sub ==> 0 < e.tileIndex < TotalTileTypes && BitOn(e.tileIndex, bit))
    && (forall m :: 0 <= m < TotalTileTypes && BitOn(m, bit) ==> WeightedTileTypes[m] in sub)
  }

  /** The subset of an edge bit points back along that edge. */
  lemma CatalogWithPointsBack(bit: nat)
    requires bit == 1 || bit == 2 || bit == 4 || bit == 8
    ensures PointsBack(CatalogWith(bit), bit)
  {
    forall e | e in CatalogWith(bit) ensures 0 < e.tileIndex < TotalTileTypes {
      InCatalog(e);
    }
    forall m | 0 <= m < TotalTileTypes && BitOn(m, bit) ensures WeightedTileTypes[m] in CatalogWith(bit) {
      CatalogByMask(m);
    }
  }

  /** One line of the `Map` constructor: `weighted_tiles(bit, v)` on an
      empty `v`, which leaves the subset that points back along `bit`. */
  method EdgeSubset(bit: nat) returns (sub: seq<TileType>)
    requires bit == 1 || bit == 2 || bit == 4 || bit == 8
    ensures sub == CatalogWith(bit) && PointsBack(sub, bit)
  {
    sub := WeightedTiles(bit, []);
    CatalogWithPointsBack(bit);
  }

  /** A cell of the map: its index and its tile type. */
  datatype Tile = Tile(index: nat, tileType: TileType)
  {
    /** `char_index`: the mask of the tile. */
    function CharIndex(): nat {
      tileType.tileIndex
    }

    /** `set_char_index`: a new mask; the index and the weight stay. */
    function SetCharIndex(i: nat): (r: Tile)
      ensures r.index == index && r.tileType.weight == tileType.weight && r.CharIndex() == i
    {
      Tile(index, tileType.(tileIndex := i))
    }
  }

  /** `Tile{ i, EMPTY_CHAR_INDEX }`: the tile type is mask 0 with weight 0. */
  function EmptyTile(i: nat): (r: Tile)
    ensures r.index == i && r.CharIndex() == EmptyCharIndex
  {
    Tile(i, TileType(EmptyCharIndex, 0))
  }

  /** The masks of a tile vector. */
  function MasksOf(ts: seq<Tile>): (g: seq<nat>)
    ensures |g| == |ts| && forall i :: 0 <= i < |ts| ==> g[i] == ts[i].CharIndex()
  {
    seq(|ts|, i requires 0 <= i < |ts| => ts[i].CharIndex())
  }

  /** A subset that points back along the edge facing the cell a fill
      comes from holds an admissible entry for the cell being filled, so
      the narrowed list `get_tile` draws from is never empty. */
  lemma SubsetHasFit(g: seq<nat>, t: nat, sub: seq<TileType>, bit: nat)
    requires |g| == MapSize && t < MapSize && PointsBack(sub, bit)
    requires BitOn(MinimalFit(g, Size, t), bit)
    ensures exists e :: e in sub && Admits(g, Size, t, e.tileIndex)
  {
    var m := MinimalFit(g, Size, t);
    assert WeightedTileTypes[m] in sub;
    CatalogByMask(m);
  }

  /** The cell above a filled cell `s` that points up: `top_tiles` holds an admissible entry. */
  lemma FitAbove(g: seq<nat>, s: nat, sub: seq<TileType>)
    requires |g| == MapSize && Size <= s < MapSize && PointsBack(sub, 4)
    requires g[s] != 0 && HasTop(g[s])
    ensures exists e :: e in sub && Admits(g, Size, s - Size, e.tileIndex)
  {
    var t := s - Size;
    assert BottomRule(g, Size, t, MinimalFit(g, Size, t));
    EdgeBits(MinimalFit(g, Size, t));
    SubsetHasFit(g, t, sub, 4);
  }

  /** The cell right of a filled cell `s` that points right: `right_tiles` holds an admissible entry. */
  lemma FitRightOf(g: seq<nat>, s: nat, sub: seq<TileType>)
    requires |g| == MapSize && s + 1 < MapSize && s % Size != Size - 1 && PointsBack(sub, 8)
    requires g[s] != 0 && HasRight(g[s])
    ensures exists e :: e in sub && Admits(g, Size, s + 1, e.tileIndex)
  {
    var t := s + 1;
    Columns(s, Size);
    assert LeftRule(g, Size, t, MinimalFit(g, Size, t));
    EdgeBits(MinimalFit(g, Size, t));
    SubsetHasFit(g, t, sub, 8);
  }

  /** The cell below a filled cell `s` that points down: `bottom_tiles` holds an admissible entry. */
  lemma FitBelow(g: seq<nat>, s: nat, sub: seq<TileType>)
    requires |g| == MapSize && s + Size < MapSize && PointsBack(sub, 1)
    requires g[s] != 0 && HasBottom(g[s])
    ensures exists e :: e in sub && Admits(g, Size, s + Size, e.tileIndex)
  {
    var t := s + Size;
    assert TopRule(g, Size, t, MinimalFit(g, Size, t));
    EdgeBits(MinimalFit(g, Size, t));
    SubsetHasFit(g, t, sub, 1);
  }

  /** The cell left of a filled cell `s` that points left: `left_tiles` holds an admissible entry. */
  lemma FitLeftOf(g: seq<nat>, s: nat, sub: seq<TileType>)
    requires |g| == MapSize && 0 < s < MapSize && s % Size != 0 && PointsBack(sub, 2)
    requires g[s] != 0 && HasLeft(g[s])
    ensures exists e :: e in sub && Admits(g, Size, s - 1, e.tileIndex)
  {
    var t := s - 1;
    Columns(s, Size);
    assert RightRule(g, Size, t, MinimalFit(g, Size, t));
    EdgeBits(MinimalFit(g, Size, t));
    SubsetHasFit(g, t, sub, 2);
  }

  /** The map holding only the start tile at the centre is consistent. */
  lemma SeedAtCenter(g: seq<nat>)
    requires |g| == MapSize && forall i :: 0 <= i < |g| && i != CenterIndex ==> g[i] == 0
    ensures Consistent(g, Size)
  {
    Sizes();
    assert CenterIndex % Size == 8;
    SeedConsistent(g, Size, CenterIndex);
  }

  class Map {
    var tiles: seq<Tile>
    const bottomTiles: seq<TileType>
    const topTiles: seq<TileType>
    const rightTiles: seq<TileType>
    const leftTiles: seq<TileType>

    /** Each directional subset holds the catalog entries that point back
        towards the cell a fill comes from: `top_tiles` is used for the cell
        above, so it holds the entries with a bottom edge, and so on. */
    ghost predicate Subsets() {
      && PointsBack(bottomTiles, 1)
      && PointsBack(leftTiles, 2)
      && PointsBack(topTiles, 4)
      && PointsBack(rightTiles, 8)
    }

    ghost function Masks(): seq<nat>
      reads this
    {
      MasksOf(tiles)
    }

    /** The map has all its cells: cell `i` is tile `i`, with a catalog mask. */
    ghost predicate Sized()
      reads this
    {
      && |tiles| == MapSize
      && forall i :: 0 <= i < MapSize ==> tiles[i].index == i && tiles[i].CharIndex() < TotalTileTypes
    }

    /** `Map()`: no tiles, and the four directional subsets, each appended
        to an empty list by `weighted_tiles`. */
    constructor ()
      ensures tiles == [] && Subsets()
      ensures bottomTiles == CatalogWith(1) && leftTiles == CatalogWith(2)
      ensures topTiles == CatalogWith(4) && rightTiles == CatalogWith(8)
    {
      tiles := [];
      var b := EdgeSubset(1);
      var l := EdgeSubset(2);
      var t := EdgeSubset(4);
      var r := EdgeSubset(8);
      bottomTiles, leftTiles, topTiles, rightTiles := b, l, t, r;
    }

    /** `filter_top_connectable`: drops the entries with a top edge. */
    function FilterTopConnectable(src: seq<TileType>): (dst: seq<TileType>)
      ensures IsSubseq(dst, src)
      ensures forall t :: t in dst <==> t in src && !HasTop(t.tileIndex)
    {
      KeepIf(src, (t: TileType) => !HasTop(t.tileIndex))
    }

    /** `filter_not_top_connectable`: keeps only the entries with a top edge. */
    function FilterNotTopConnectable(src: seq<TileType>): (dst: seq<TileType>)
      ensures IsSubseq(dst, src)
      ensures forall t :: t in dst <==> t in src && HasTop(t.tileIndex)
    {
      KeepIf(src, (t: TileType) => HasTop(t.tileIndex))
    }

    /** `filter_right_connectable`: drops the entries with a right edge. */
    function FilterRightConnectable(src: seq<TileType>): (dst: seq<TileType>)
      ensures IsSubseq(dst, src)
      ensures forall t :: t in dst <==> t in src && !HasRight(t.tileIndex)
    {
      KeepIf(src, (t: TileType) => !HasRight(t.tileIndex))
    }

    /** `filter_not_right_connectable`: keeps only the entries with a right edge. */
    function FilterNotRightConnectable(src: seq<TileType>): (dst: seq<TileType>)
      ensures IsSubseq(dst, src)
      ensures forall t :: t in dst <==> t in src && HasRight(t.tileIndex)
    {
      KeepIf(src, (t: TileType) => HasRight(t.tileIndex))
    }

    /** `filter_bottom_connectable`: drops the entries with a bottom edge. */
    function FilterBottomConnectable(src: seq<TileType>): (dst: seq<TileType>)
      ensures IsSubseq(dst, src)
      ensures forall t :: t in dst <==> t in src && !HasBottom(t.tileIndex)
    {
      KeepIf(src, (t: TileType) => !HasBottom(t.tileIndex))
    }

    /** `filter_not_bottom_connectable`: keeps only the entries with a bottom edge. */
    function FilterNotBottomConnectable(src: seq<TileType>): (dst: seq<TileType>)
      ensures IsSubseq(dst, src)
      ensures forall t :: t in dst <==> t in src && HasBottom(t.tileIndex)
    {
      KeepIf(src, (t: TileType) => HasBottom(t.tileIndex))
    }

    /** `filter_left_connectable`: drops the entries with a left edge. */
    function FilterLeftConnectable(src: seq<TileType>): (dst: seq<TileType>)
      ensures IsSubseq(dst, src)
      ensures forall t :: t in dst <==> t in src && !HasLeft(t.tileIndex)
    {
      KeepIf(src, (t: TileType) => !HasLeft(t.tileIndex))
    }

    /** `filter_not_left_connectable`: keeps only the entries with a left edge. */
    function FilterNotLeftConnectable(src: seq<TileType>): (dst: seq<TileType>)
      ensures IsSubseq(dst, src)
      ensures forall t :: t in dst <==> t in src && HasLeft(t.tileIndex)
    {
      KeepIf(src, (t: TileType) => HasLeft(t.tileIndex))
    }

    /** Along each edge, the two filters split their input: every entry
        goes to exactly one of them, as often as it occurs. */
    lemma FiltersPartition(src: seq<TileType>)
      ensures multiset(FilterTopConnectable(src)) + multiset(FilterNotTopConnectable(src)) == multiset(src)
      ensures multiset(FilterRightConnectable(src)) + multiset(FilterNotRightConnectable(src)) == multiset(src)
      ensures multiset(FilterBottomConnectable(src)) + multiset(FilterNotBottomConnectable(src)) == multiset(src)
      ensures multiset(FilterLeftConnectable(src)) + multiset(FilterNotLeftConnectable(src)) == multiset(src)
    {
      KeepIfPartition(src, (t: TileType) => !HasTop(t.tileIndex), (t: TileType) => HasTop(t.tileIndex));
      KeepIfPartition(src, (t: TileType) => !HasRight(t.tileIndex), (t: TileType) => HasRight(t.tileIndex));
      KeepIfPartition(src, (t: TileType) => !HasBottom(t.tileIndex), (t: TileType) => HasBottom(t.tileIndex));
      KeepIfPartition(src, (t: TileType) => !HasLeft(t.tileIndex), (t: TileType) => HasLeft(t.tileIndex));
    }

    /** `get_tile`: narrows `tileVec` edge by edge and draws one of the
        survivors. The draw is any index into the narrowed list; the source
        takes it modulo the list's length, so the list must not be empty,
        which is the case exactly when `tileVec` holds an admissible entry. */
    method GetTile(ti: nat, tileVec: seq<TileType>) returns (ci: nat)
      requires Sized() && ti < MapSize
      requires exists t :: t in tileVec && Admits(Masks(), Size, ti, t.tileIndex)
      ensures Admits(Masks(), Size, ti, ci)
      ensures exists t :: t in tileVec && t.tileIndex == ci
    {
      var v1 := NarrowTop(ti, tileVec);
      var v2 := NarrowRight(ti, v1);
      var v3 := NarrowBottom(ti, v2);
      var v := NarrowLeft(ti, v3);
      assert forall x :: x in tileVec && Admits(Masks(), Size, ti, x.tileIndex) ==> x in v;
      var i :| 0 <= i < |v|;
      ci := v[i].tileIndex;
      assert v[i] in v;
    }

    /** The top step of `get_tile`: on row 0 drop every entry with a top
        edge; under a filled cell keep the entries whose top edge matches
        that cell's bottom edge; under an empty cell keep everything. */
    method NarrowTop(ti: nat, tileVec: seq<TileType>) returns (v: seq<TileType>)
      requires Sized() && ti < MapSize
      ensures IsSubseq(v, tileVec)
      ensures forall x :: x in v <==> x in tileVec && TopRule(Masks(), Size, ti, x.tileIndex)
    {
      var n := NeighborsOf(ti);
      v := tileVec;
      if n.top < 0 {
        v := FilterTopConnectable(v);
      } else if tiles[n.top].CharIndex() != EmptyCharIndex {
        if HasBottom(tiles[n.top].CharIndex()) {
          v := FilterNotTopConnectable(v);
        } else {
          v := FilterTopConnectable(v);
        }
      } else {
        assert IsSubseq(v, tileVec) by { KeepIfAll(v, (t: TileType) => true); }
      }
    }

    /** The right step of `get_tile`, for the last column and the cell to the right. */
    method NarrowRight(ti: nat, tileVec: seq<TileType>) returns (v: seq<TileType>)
      requires Sized() && ti < MapSize
      ensures IsSubseq(v, tileVec)
      ensures forall x :: x in v <==> x in tileVec && RightRule(Masks(), Size, ti, x.tileIndex)
    {
      var n := NeighborsOf(ti);
      v := tileVec;
      if ti % Size == Size - 1 {
        v := FilterRightConnectable(v);
      } else if tiles[n.right].CharIndex() != EmptyCharIndex {
        if HasLeft(tiles[n.right].CharIndex()) {
          v := FilterNotRightConnectable(v);
        } else {
          v := FilterRightConnectable(v);
        }
      } else {
        assert IsSubseq(v, tileVec) by { KeepIfAll(v, (t: TileType) => true); }
      }
    }

    /** The bottom step of `get_tile`, for the last row and the cell below. */
    method NarrowBottom(ti: nat, tileVec: seq<TileType>) returns (v: seq<TileType>)
      requires Sized() && ti < MapSize
      ensures IsSubseq(v, tileVec)
      ensures forall x :: x in v <==> x in tileVec && BottomRule(Masks(), Size, ti, x.tileIndex)
    {
      var n := NeighborsOf(ti);
      v := tileVec;
      if n.bottom >= MapSize {
        v := FilterBottomConnectable(v);
      } else if tiles[n.bottom].CharIndex() != EmptyCharIndex {
        if HasTop(tiles[n.bottom].CharIndex()) {
          v := FilterNotBottomConnectable(v);
        } else {
          v := FilterBottomConnectable(v);
        }
      } else {
        assert IsSubseq(v, tileVec) by { KeepIfAll(v, (t: TileType) => true); }
      }
    }

    /** The left step of `get_tile`, for the first column and the cell to the left. */
    method NarrowLeft(ti: nat, tileVec: seq<TileType>) returns (v: seq<TileType>)
      requires Sized() && ti < MapSize
      ensures IsSubseq(v, tileVec)
      ensures forall x :: x in v <==> x in tileVec && LeftRule(Masks(), Size, ti, x.tileIndex)
    {
      var n := NeighborsOf(ti);
      v := tileVec;
      if ti % Size == 0 {
        v := FilterLeftConnectable(v);
      } else if tiles[n.left].CharIndex() != EmptyCharIndex {
        if HasRight(tiles[n.left].CharIndex()) {
          v := FilterNotLeftConnectable(v);
        } else {
          v := FilterLeftConnectable(v);
        }
      } else {
        assert IsSubseq(v, tileVec) by { KeepIfAll(v, (t: TileType) => true); }
      }
    }

    /** `tiles[t].set_char_index(ci)`: cell `t` takes mask `ci`, every other cell stays. */
    method SetTileCharIndex(t: nat, ci: nat)
      requires Sized() && t < MapSize && ci < TotalTileTypes
      modifies this
      ensures Sized() && Masks() == old(Masks())[t := ci]
    {
      tiles := tiles[t := tiles[t].SetCharIndex(ci)];
      assert Masks() == old(Masks())[t := ci];
    }

    /** One fill of `generate_tiles`: draw a tile for the empty cell `t`
        from `tileVec` and write it. The map stays consistent and only cell
        `t` changes, to a non-empty admissible mask from `tileVec`. */
    method FillCell(t: nat, tileVec: seq<TileType>)
      requires Sized() && Consistent(Masks(), Size) && t < MapSize && Masks()[t] == 0
      requires forall e :: e in tileVec ==> 0 < e.tileIndex < TotalTileTypes
      requires exists e :: e in tileVec && Admits(Masks(), Size, t, e.tileIndex)
      modifies this
      ensures Sized() && Consistent(Masks(), Size)
      ensures Masks() == old(Masks())[t := Masks()[t]]
      ensures Masks()[t] != 0 && Admits(old(Masks()), Size, t, Masks()[t])
      ensures exists e :: e in tileVec && e.tileIndex == Masks()[t]
    {
      ghost var g := Masks();
      var ci := GetTile(t, tileVec);
      SetTileCharIndex(t, ci);
      AdmittedPlacement(g, Size, t, ci);
    }

    /** What the blocks of `generate_tiles` keep: the map is consistent,
        it has grown from `g0` by exactly the cells listed in `idx`, and the
        current cell `cur` still holds mask `chi`. */
    ghost predicate Progress(g0: seq<nat>, cur: nat, chi: nat, idx: seq<nat>)
      reads this
    {
      && Sized() && Subsets() && cur < MapSize
      && Consistent(Masks(), Size)
      && Grows(g0, Masks()) && FilledExactly(g0, Masks(), idx)
      && (forall j :: j in idx ==> j < MapSize)
      && Masks()[cur] == chi
      && (idx != [] ==> chi != 0)
    }

    /** One guarded block of `generate_tiles` once its in-range and
        points-at tests have passed: if the neighbour `t` is empty, record it
        and fill it from `tileVec`; otherwise leave everything as it is. */
    method FillIfEmpty(ghost g0: seq<nat>, ghost cur: nat, ghost chi: nat, tileIndexes: seq<nat>,
                       t: nat, tileVec: seq<TileType>)
      returns (r: seq<nat>)
      requires Progress(g0, cur, chi, tileIndexes) && t < MapSize && t != cur && chi != 0
      requires forall e :: e in tileVec ==> 0 < e.tileIndex < TotalTileTypes
      requires Masks()[t] == 0 ==> exists e :: e in tileVec && Admits(Masks(), Size, t, e.tileIndex)
      modifies this
      ensures Progress(g0, cur, chi, r) && Grows(old(Masks()), Masks())
      ensures Masks()[t] != 0
      ensures r == if old(Masks())[t] == 0 then tileIndexes + [t] else tileIndexes
    {
      r := tileIndexes;
      if tiles[t].CharIndex() == EmptyCharIndex {
        r := r + [t];
        FillEmpty(g0, cur, chi, tileIndexes, t, tileVec);
      }
    }

    /** The filling branch of `FillIfEmpty`: the empty neighbour `t` is
        filled and joins the list of cells filled since `g0`. */
    method FillEmpty(ghost g0: seq<nat>, ghost cur: nat, ghost chi: nat, tileIndexes: seq<nat>,
                     t: nat, tileVec: seq<TileType>)
      requires Progress(g0, cur, chi, tileIndexes) && t < MapSize && t != cur && chi != 0
      requires forall e :: e in tileVec ==> 0 < e.tileIndex < TotalTileTypes
      requires Masks()[t] == 0 && exists e :: e in tileVec && Admits(Masks(), Size, t, e.tileIndex)
      modifies this
      ensures Progress(g0, cur, chi, tileIndexes + [t]) && Grows(old(Masks()), Masks())
      ensures Masks()[t] != 0
    {
      ghost var h := Masks();
      FillCell(t, tileVec);
      FilledOneMore(g0, h, Masks(), tileIndexes, t);
    }

    /** The top block of `generate_tiles`: if the current tile points up
        and the cell above is empty, record it and fill it from `top_tiles`.
        Afterwards the cell above is filled whenever the current tile points at it. */
    method FillTop(ghost g0: seq<nat>, ti: nat, chi: nat, tileIndexes: seq<nat>) returns (r: seq<nat>)
      requires Progress(g0, ti, chi, tileIndexes)
      modifies this
      ensures Progress(g0, ti, chi, r) && Grows(old(Masks()), Masks())
      ensures ti >= Size && HasTop(chi) ==> Masks()[ti - Size] != 0
      ensures r == tileIndexes + TopTarget(old(Masks()), Size, ti)
    {
      EdgeMeansFilled(chi);
      ghost var target := TopTarget(Masks(), Size, ti);
      var n := NeighborsOf(ti);
      assert n.top == ti - Size;
      r := tileIndexes;
      if n.top >= 0 && HasTop(chi) {
        assert target == if Masks()[n.top] == 0 then [n.top as nat] else [];
        FitAbove(Masks(), ti, topTiles);
        r := FillIfEmpty(g0, ti, chi, r, n.top as nat, topTiles);
        assert Masks()[ti - Size] != 0;
      } else {
        assert target == [];
      }
    }

    /** The right block of `generate_tiles`, outside the last column, filling from `right_tiles`. */
    method FillRight(ghost g0: seq<nat>, ti: nat, chi: nat, tileIndexes: seq<nat>) returns (r: seq<nat>)
      requires Progress(g0, ti, chi, tileIndexes)
      modifies this
      ensures Progress(g0, ti, chi, r) && Grows(old(Masks()), Masks())
      ensures ti % Size != Size - 1 && ti + 1 < MapSize && HasRight(chi) ==> Masks()[ti + 1] != 0
      ensures r == tileIndexes + RightTarget(old(Masks()), Size, ti)
    {
      EdgeMeansFilled(chi);
      ghost var target := RightTarget(Masks(), Size, ti);
      Sizes();
      Columns(ti, Size);
      var n := NeighborsOf(ti);
      r := tileIndexes;
      if ti % Size != Size - 1 && HasRight(chi) {
        assert target == if Masks()[n.right] == 0 then [n.right as nat] else [];
        FitRightOf(Masks(), ti, rightTiles);
        r := FillIfEmpty(g0, ti, chi, r, n.right as nat, rightTiles);
        assert Masks()[ti + 1] != 0;
      } else {
        assert target == [];
      }
    }

    /** The bottom block of `generate_tiles`, above the last row, filling from `bottom_tiles`. */
    method FillBottom(ghost g0: seq<nat>, ti: nat, chi: nat, tileIndexes: seq<nat>) returns (r: seq<nat>)
      requires Progress(g0, ti, chi, tileIndexes)
      modifies this
      ensures Progress(g0, ti, chi, r) && Grows(old(Masks()), Masks())
      ensures ti + Size < MapSize && HasBottom(chi) ==> Masks()[ti + Size] != 0
      ensures r == tileIndexes + BottomTarget(old(Masks()), Size, ti)
    {
      EdgeMeansFilled(chi);
      ghost var target := BottomTarget(Masks(), Size, ti);
      var n := NeighborsOf(ti);
      r := tileIndexes;
      if n.bottom < MapSize && HasBottom(chi) {
        assert target == if Masks()[n.bottom] == 0 then [n.bottom as nat] else [];
        FitBelow(Masks(), ti, bottomTiles);
        r := FillIfEmpty(g0, ti, chi, r, n.bottom as nat, bottomTiles);
        assert Masks()[ti + Size] != 0;
      } else {
        assert target == [];
      }
    }

    /** The left block of `generate_tiles`, outside the first column, filling from `left_tiles`. */
    method FillLeft(ghost g0: seq<nat>, ti: nat, chi: nat, tileIndexes: seq<nat>) returns (r: seq<nat>)
      requires Progress(g0, ti, chi, tileIndexes)
      modifies this
      ensures Progress(g0, ti, chi, r) && Grows(old(Masks()), Masks())
      ensures 0 < ti && ti % Size != 0 && HasLeft(chi) ==> Masks()[ti - 1] != 0
      ensures r == tileIndexes + LeftTarget(old(Masks()), Size, ti)
    {
      EdgeMeansFilled(chi);
      ghost var target := LeftTarget(Masks(), Size, ti);
      Sizes();
      Columns(ti, Size);
      var n := NeighborsOf(ti);
      r := tileIndexes;
      if ti % Size > 0 && HasLeft(chi) {
        assert target == if Masks()[n.left] == 0 then [n.left as nat] else [];
        FitLeftOf(Masks(), ti, leftTiles);
        r := FillIfEmpty(g0, ti, chi, r, n.left as nat, leftTiles);
        assert Masks()[ti - 1] != 0;
      } else {
        assert target == [];
      }
    }

    /** The first half of `generate_tiles`: the four blocks in the order
        top, right, bottom, left. Afterwards the current cell is closed, the
        map is still consistent, and the recorded cells are exactly the
        cells that were filled. */
    method FillNeighbors(curIndex: nat) returns (tileIndexes: seq<nat>)
      requires Sized() && Subsets() && Consistent(Masks(), Size) && curIndex < MapSize
      modifies this
      ensures Sized() && Consistent(Masks(), Size) && Grows(old(Masks()), Masks())
      ensures Closed(Masks(), Size, curIndex)
      ensures forall j :: j in tileIndexes ==> j < MapSize
      ensures FilledExactly(old(Masks()), Masks(), tileIndexes)
      ensures tileIndexes == Targets(old(Masks()), Size, curIndex)
      ensures tileIndexes != [] ==> Masks()[curIndex] != 0
    {
      ghost var g0 := Masks();
      tileIndexes := [];
      var ti := tiles[curIndex].index;
      var chi := tiles[curIndex].tileType.tileIndex;
      Sizes();
      Columns(ti, Size);
      assert ti == curIndex;
      tileIndexes := FillTop(g0, ti, chi, tileIndexes);
      assert tileIndexes == TopTarget(g0, Size, ti);
      ghost var g1 := Masks();
      tileIndexes := FillRight(g0, ti, chi, tileIndexes);
      ghost var g2 := Masks();
      tileIndexes := FillBottom(g0, ti, chi, tileIndexes);
      ghost var g3 := Masks();
      tileIndexes := FillLeft(g0, ti, chi, tileIndexes);
      TargetsInTurn(g0, g1, g2, g3, Size, ti);
      assert tileIndexes == Targets(g0, Size, ti);
      TargetsClose(g0, Masks(), Size, ti);
    }

    /** `generate_tiles`: fill around the current cell, then recurse into
        every cell that was filled, in the order they were filled. The
        number of empty cells falls with every recursive call, so the flood
        ends. Afterwards the map is still consistent, cells only ever went
        from empty to filled, and the current cell and every cell filled
        on the way are closed: none of their open edges leads to an empty
        cell or off the map. The cells it fills are exactly those of `tree`,
        a tree of open edges hanging from the current cell: the flood
        reaches nothing that is not connected to where it started. */
    method GenerateTiles(curIndex: nat) returns (ghost tree: seq<Link>)
      requires Sized() && Subsets() && Consistent(Masks(), Size) && curIndex < MapSize
      modifies this
      ensures Sized() && Consistent(Masks(), Size) && Grows(old(Masks()), Masks())
      ensures Closed(Masks(), Size, curIndex)
      ensures forall j :: 0 <= j < MapSize && old(Masks())[j] == 0 && Masks()[j] != 0 ==>
                Closed(Masks(), Size, j)
      ensures ReachedVia(old(Masks()), Masks(), Size, curIndex, tree)
      ensures Rooted(old(Masks()), Masks(), Size, curIndex, tree, Targets(old(Masks()), Size, curIndex))
      decreases EmptyCount(Masks())
    {
      ghost var g0 := Masks();
      var tileIndexes := FillNeighbors(curIndex);
      ghost var g1 := Masks();
      FloodStart(g0, g1, Size, curIndex, tileIndexes);
      RootedStart(g0, g1, Size, curIndex, tileIndexes);
      tree := RootLinks(tileIndexes);
      for k := 0 to |tileIndexes|
        invariant Sized() && Consistent(Masks(), Size)
        invariant Flooded(g0, g1, Masks(), Size, curIndex, tileIndexes[k..])
        invariant Rooted(g0, Masks(), Size, curIndex, tree, tileIndexes)
      {
        var i := tileIndexes[k];
        assert i in tileIndexes[k..];
        ghost var h := Masks();
        ghost var sub := GenerateTiles(i);
        FloodStep(g0, g1, h, Masks(), Size, curIndex, tileIndexes[k..]);
        assert tileIndexes[k..][1..] == tileIndexes[k + 1..];
        GrowsTrans(g0, g1, h);
        RootedStep(g0, h, Masks(), Size, curIndex, tree, tileIndexes, k, sub);
        tree := tree + Graft(sub, k, |tree|);
      }
      FloodEnd(g0, g1, Masks(), Size, curIndex);
    }

    /** The push loop of `create`: tile `i` of the `MAP_SIZE` new tiles is
        the empty tile with index `i`, after whatever the map held. */
    method PushEmptyTiles()
      modifies this
      ensures |tiles| == |old(tiles)| + MapSize && tiles[..|old(tiles)|] == old(tiles)
      ensures forall i :: 0 <= i < MapSize ==> tiles[|old(tiles)| + i] == EmptyTile(i)
    {
      ghost var t0 := tiles;
      for i := 0 to MapSize
        invariant |tiles| == |t0| + i && tiles[..|t0|] == t0
        invariant forall j :: 0 <= j < i ==> tiles[|t0| + j] == EmptyTile(j)
      {
        tiles := tiles + [EmptyTile(i)];
      }
    }

    /** `create` on a map that has no tiles yet: `MAP_SIZE` empty tiles, the
        start tile at the centre, and a flood from there. The result is
        consistent, holds the start tile at the centre, and every filled
        cell is closed, so no pipe ends at an empty cell or at the border.
        The filled cells are the centre and the cells of `tree`, a tree of
        open edges hanging from the centre: the dungeon is the part of the
        map the flood reaches from the start tile. */
    method Create() returns (ghost tree: seq<Link>)
      requires tiles == [] && Subsets()
      modifies this
      ensures Sized() && Consistent(Masks(), Size)
      ensures Masks()[CenterIndex] == StartCharIndex
      ensures forall j :: 0 <= j < MapSize && Masks()[j] != 0 ==> Closed(Masks(), Size, j)
      ensures forall j :: 0 <= j < MapSize ==> (Masks()[j] != 0 <==> j == CenterIndex || j in Cells(tree))
      ensures Spans(Masks(), Size, CenterIndex, tree)
    {
      PushEmptyTiles();
      forall i | 0 <= i < MapSize ensures tiles[i] == EmptyTile(i) {
        assert tiles[|old(tiles)| + i] == EmptyTile(i);
      }
      ghost var e := Masks();
      assert forall i :: 0 <= i < MapSize ==> e[i] == 0;
      var centerIndex := Size / 2 + Size / 2 * Size;
      SetTileCharIndex(centerIndex, StartCharIndex);
      ghost var g := Masks();
      SeedAtCenter(g);
      tree := GenerateTiles(centerIndex);
      forall j | 0 <= j < MapSize
        ensures Masks()[j] != 0 ==> Closed(Masks(), Size, j)
        ensures Masks()[j] != 0 <==> j == centerIndex || j in Cells(tree)
      {
        if j != centerIndex {
          assert g[j] == 0;
        }
      }
    }
  }
}
