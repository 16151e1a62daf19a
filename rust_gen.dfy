/** The Rust generator (src/main.rs): a 20 x 20 map filled outwards from a
    fully connected centre tile. Each neighbour the current tile points at
    that is still empty gets a tile drawn from the catalog entries that
    point back, narrowed by the four edge rules; then the generator recurses
    into the cells it filled. */
module RustGen {
  import opened Connections
  import opened Filters
  import opened Grid

  const MapSize: nat := 20
  /** `MAP_SIZE * MAP_SIZE`, written out so that the solver sees a constant. */
  const TotalTiles: nat := 400

  lemma TotalTilesIsSquare()
    ensures TotalTiles == MapSize * MapSize
  {
  }

  /** The glyph of each connection mask, indexed by mask. */
  const TileTypes: seq<char> := [
    ' ', '\U{2568}', '\U{255E}', '\U{255A}',
    '\U{2565}', '\U{2551}', '\U{2554}', '\U{2560}',
    '\U{2561}', '\U{255D}', '\U{2550}', '\U{2569}',
    '\U{2557}', '\U{2563}', '\U{2566}', '\U{256C}'
  ]

  /** A catalog entry: mask (`ci`), glyph and sampling weight. */
  datatype TileType = TileType(ci: nat, ch: char, w: nat)

  const WeightedTileTypes: seq<TileType> := [
    TileType(0, ' ', 1), TileType(1, '\U{2568}', 8), TileType(2, '\U{255E}', 8), TileType(3, '\U{255A}', 6),
    TileType(4, '\U{2565}', 8), TileType(5, '\U{2551}', 4), TileType(6, '\U{2554}', 6), TileType(7, '\U{2560}', 8),
    TileType(8, '\U{2561}', 8), TileType(9, '\U{255D}', 6), TileType(10, '\U{2550}', 6), TileType(11, '\U{2569}', 4),
    TileType(12, '\U{2557}', 6), TileType(13, '\U{2563}', 4), TileType(14, '\U{2566}', 4), TileType(15, '\U{256C}', 2)
  ]

  const StartCharIndex: nat := 15
  const EmptyCharIndex: nat := 0
  const StartChar: char := WeightedTileTypes[StartCharIndex].ch
  const EmptyChar: char := WeightedTileTypes[EmptyCharIndex].ch

  /** Entry `i` of the catalog has mask `i`, the glyph of mask `i` and a positive weight. */
  lemma CatalogByMask(i: nat)
    requires i < 16
    ensures |WeightedTileTypes| == |TileTypes| == 16
    ensures WeightedTileTypes[i].ci == i && WeightedTileTypes[i].ch == TileTypes[i]
    ensures WeightedTileTypes[i].w > 0
    ensures WeightedTileTypes[i].ch == EmptyChar <==> i == EmptyCharIndex
  {
  }

  /** `init_tiles`: the masks in 0..15 that have every bit of `bit`, ascending. */
  method InitTiles(bit: nat) returns (tiles: seq<nat>)
    ensures forall i :: i in tiles <==> 0 <= i < |TileTypes| && BitOn(i, bit)
    ensures forall j, k :: 0 <= j < k < |tiles| ==> tiles[j] < tiles[k]
  {
    tiles := [];
    for i := 0 to |TileTypes|
      invariant forall x :: x in tiles <==> 0 <= x < i && BitOn(x, bit)
      invariant forall j, k :: 0 <= j < k < |tiles| ==> tiles[j] < tiles[k]
      invariant forall j :: 0 <= j < |tiles| ==> tiles[j] < i
    {
      if BitOn(i, bit) {
        tiles := tiles + [i];
      }
    }
  }

  /** `init_wtiles`: the catalog entries whose mask has every bit of `bit`, in catalog order. */
  function InitWtiles(bit: nat): (r: seq<TileType>)
    ensures forall t :: t in r <==> t in WeightedTileTypes && BitOn(t.ci, bit)
    ensures IsSubseq(r, WeightedTileTypes)
  {
    KeepIf(WeightedTileTypes, (wt: TileType) => BitOn(wt.ci, bit))
  }

  /** A directional subset holds, for every mask with that bit, its catalog entry. */
  lemma InitWtilesHasMask(bit: nat, m: nat)
    requires m < 16 && BitOn(m, bit)
    ensures WeightedTileTypes[m] in InitWtiles(bit)
  {
    CatalogByMask(m);
  }

  datatype Coord = Coord(x: nat, y: nat)

  /** `Coord::to_index`. */
  function ToIndex(x: nat, y: nat): nat {
    x + y * MapSize
  }

  /** `Coord::new`: the column and row of cell `i`. */
  function CoordNew(i: nat): Coord {
    Coord(i % MapSize, i / MapSize)
  }

  /** A position inside the map and its cell index determine each other. */
  lemma CoordRoundTrip(x: nat, y: nat, i: nat)
    ensures x < MapSize && y < MapSize ==> ToIndex(x, y) < TotalTiles && CoordNew(ToIndex(x, y)) == Coord(x, y)
    ensures i < TotalTiles ==> CoordNew(i).x < MapSize && CoordNew(i).y < MapSize
    ensures ToIndex(CoordNew(i).x, CoordNew(i).y) == i
  {
    if x < MapSize && y < MapSize {
      DivUnique(x + y * MapSize, MapSize, y, x);
    }
  }

  /** A cell of the map: its index, position, glyph and mask (`ch_i`). */
  datatype Tile = Tile(indx: nat, pos: Coord, ch: char, chI: nat)
  {
    /** `Tile::set_char`: a new mask together with its glyph; index and position stay. */
    function SetChar(t: nat): (r: Tile)
      requires t < 16
      ensures r.indx == indx && r.pos == pos && r.chI == t && Synced(r)
    {
      CatalogByMask(t);
      Tile(indx, pos, WeightedTileTypes[t].ch, t)
    }
  }

  /** The glyph is the catalog glyph of the mask. */
  predicate Synced(tile: Tile) {
    tile.chI < 16 && tile.ch == WeightedTileTypes[tile.chI].ch
  }

  /** `Tile::new`. */
  function TileNew(i: nat, t: nat): (r: Tile)
    requires t < 16
    ensures r.indx == i && r.pos == CoordNew(i) && r.chI == t && Synced(r)
  {
    Tile(i, CoordNew(i), WeightedTileTypes[t].ch, t)
  }

  /** `Tile::empty`. */
  function TileEmpty(i: nat): (r: Tile)
    ensures r.indx == i && r.pos == CoordNew(i) && r.chI == EmptyCharIndex && r.ch == EmptyChar
  {
    TileNew(i, EmptyCharIndex)
  }

  /** For a tile whose glyph and mask agree, the source's emptiness test on
      the glyph is the test for mask 0. */
  lemma GlyphTestIsMaskTest(tile: Tile)
    requires Synced(tile)
    ensures tile.ch == EmptyChar <==> tile.chI == EmptyCharIndex
  {
    CatalogByMask(tile.chI);
  }

  /** The masks of a tile vector. */
  function MasksOf(ts: seq<Tile>): (g: seq<nat>)
    ensures |g| == |ts| && forall i :: 0 <= i < |ts| ==> g[i] == ts[i].chI
  {
    seq(|ts|, i requires 0 <= i < |ts| => ts[i].chI)
  }

  /** `Map::get_neighbors`: the indices above, right of, below and left of `ti`. */
  function GetNeighbors(ti: nat): (int, int, int, int) {
    (ti - MapSize, ti + 1, ti + MapSize, ti - 1)
  }

  /** The four indices of `get_neighbors` are the cells next to `ti` on the
      map whenever the source's guards for them hold: above unless on row 0,
      right unless in the last column, below unless on the last row, left
      unless in column 0. */
  lemma NeighborsAdjacent(ti: nat)
    requires ti < TotalTiles
    ensures var (ui, ri, bi, li) := GetNeighbors(ti); var c := CoordNew(ti);
      && (ui >= 0 <==> c.y > 0)
      && (ui >= 0 ==> CoordNew(ui) == Coord(c.x, c.y - 1))
      && (c.x != MapSize - 1 ==> 0 <= ri < TotalTiles && CoordNew(ri) == Coord(c.x + 1, c.y))
      && (bi < TotalTiles <==> c.y < MapSize - 1)
      && (bi < TotalTiles ==> CoordNew(bi) == Coord(c.x, c.y + 1))
      && (c.x > 0 ==> 0 <= li && CoordNew(li) == Coord(c.x - 1, c.y))
  {
    var x, y := ti % MapSize, ti / MapSize;
    assert ti == x + y * MapSize;
    if y > 0 { DivUnique(ti - MapSize, MapSize, y - 1, x); }
    if x != MapSize - 1 { DivUnique(ti + 1, MapSize, y, x + 1); }
    if y < MapSize - 1 { DivUnique(ti + MapSize, MapSize, y + 1, x); }
    if x > 0 { DivUnique(ti - 1, MapSize, y, x - 1); }
  }

  /** `sub` points back along edge `bit`: each of its entries is a
      non-empty mask with every bit of `bit`, and each such mask has its
      catalog entry in `sub`. */
  ghost predicate PointsBack(sub: seq<TileType>, bit: nat) {
    && (forall e :: e in sub ==> 0 < e.ci < 16 && BitOn(e.ci, bit))
    && (forall m :: 0 <= m < 16 && BitOn(m, bit) ==> WeightedTileTypes[m] in sub)
  }

  /** `init_wtiles` of an edge bit is a subset that points back along that edge. */
  lemma InitWtilesPointsBack(bit: nat)
    requires bit == 1 || bit == 2 || bit == 4 || bit == 8
    ensures PointsBack(InitWtiles(bit), bit)
  {
    forall e | e in InitWtiles(bit) ensures 0 < e.ci < 16 {
      InCatalog(e);
    }
    forall m | 0 <= m < 16 && BitOn(m, bit) ensures WeightedTileTypes[m] in InitWtiles(bit) {
      InitWtilesHasMask(bit, m);
    }
  }

  /** A cell the generator fills is next to the filled cell it was reached
      from, which points at it; every admissible mask there has the edge
      facing back, so a subset that points back along that edge holds an
      admissible entry: the list `get_tile` draws from is never empty. */
  lemma SubsetHasFit(g: seq<nat>, t: nat, sub: seq<TileType>, bit: nat)
    requires |g| == TotalTiles && t < TotalTiles && PointsBack(sub, bit)
    requires BitOn(MinimalFit(g, MapSize, t), bit)
    ensures exists e :: e in sub && Admits(g, MapSize, t, e.ci)
  {
    var m := MinimalFit(g, MapSize, t);
    assert WeightedTileTypes[m] in sub;
    CatalogByMask(m);
  }

  /** The cell above a filled cell `s` that points up: `top_tiles` holds an admissible entry. */
  lemma FitAbove(g: seq<nat>, s: nat, sub: seq<TileType>)
    requires |g| == TotalTiles && MapSize <= s < TotalTiles && PointsBack(sub, 4)
    requires g[s] != 0 && HasTop(g[s])
    ensures exists e :: e in sub && Admits(g, MapSize, s - MapSize, e.ci)
  {
    var t := s - MapSize;
    assert BottomRule(g, MapSize, t, MinimalFit(g, MapSize, t));
    EdgeBits(MinimalFit(g, MapSize, t));
    SubsetHasFit(g, t, sub, 4);
  }

  /** The cell right of a filled cell `s` that points right: `right_tiles` holds an admissible entry. */
  lemma FitRightOf(g: seq<nat>, s: nat, sub: seq<TileType>)
    requires |g| == TotalTiles && s + 1 < TotalTiles && s % MapSize != MapSize - 1 && PointsBack(sub, 8)
    requires g[s] != 0 && HasRight(g[s])
    ensures exists e :: e in sub && Admits(g, MapSize, s + 1, e.ci)
  {
    var t := s + 1;
    Columns(s, MapSize);
    assert LeftRule(g, MapSize, t, MinimalFit(g, MapSize, t));
    EdgeBits(MinimalFit(g, MapSize, t));
    SubsetHasFit(g, t, sub, 8);
  }

  /** The cell below a filled cell `s` that points down: `bottom_tiles` holds an admissible entry. */
  lemma FitBelow(g: seq<nat>, s: nat, sub: seq<TileType>)
    requires |g| == TotalTiles && s + MapSize < TotalTiles && PointsBack(sub, 1)
    requires g[s] != 0 && HasBottom(g[s])
    ensures exists e :: e in sub && Admits(g, MapSize, s + MapSize, e.ci)
  {
    var t := s + MapSize;
    assert TopRule(g, MapSize, t, MinimalFit(g, MapSize, t));
    EdgeBits(MinimalFit(g, MapSize, t));
    SubsetHasFit(g, t, sub, 1);
  }

  /** The cell left of a filled cell `s` that points left: `left_tiles` holds an admissible entry. */
  lemma FitLeftOf(g: seq<nat>, s: nat, sub: seq<TileType>)
    requires |g| == TotalTiles && 0 < s < TotalTiles && s % MapSize != 0 && PointsBack(sub, 2)
    requires g[s] != 0 && HasLeft(g[s])
    ensures exists e :: e in sub && Admits(g, MapSize, s - 1, e.ci)
  {
    var t := s - 1;
    Columns(s, MapSize);
    assert RightRule(g, MapSize, t, MinimalFit(g, MapSize, t));
    EdgeBits(MinimalFit(g, MapSize, t));
    SubsetHasFit(g, t, sub, 2);
  }

  /** Every catalog entry is the entry of its own mask. */
  lemma InCatalog(e: TileType)
    requires e in WeightedTileTypes
    ensures e.ci < 16 && WeightedTileTypes[e.ci] == e
  {
    var i :| 0 <= i < |WeightedTileTypes| && WeightedTileTypes[i] == e;
    CatalogByMask(i);
  }

  /** The loop of `Map::empty`: tile `i` is the empty tile of cell `i`. */
  method EmptyTiles() returns (ts: array<Tile>)
    ensures fresh(ts) && ts.Length == TotalTiles
    ensures forall i :: 0 <= i < TotalTiles ==> ts[i] == TileEmpty(i)
  {
    ts := new Tile[TotalTiles];
    for i := 0 to TotalTiles
      invariant forall j :: 0 <= j < i ==> ts[j] == TileEmpty(j)
    {
      ts[i] := TileEmpty(i);
    }
  }

  class Map {
    const tiles: array<Tile>
    const bottomTiles: seq<TileType>
    const leftTiles: seq<TileType>
    const topTiles: seq<TileType>
    const rightTiles: seq<TileType>

    /** Cell `i` is tile `i` at its own position, with glyph and mask in step. */
    ghost predicate Valid()
      reads this, tiles
    {
      && tiles.Length == TotalTiles
      && (forall i :: 0 <= i < TotalTiles ==>
            tiles[i].indx == i && tiles[i].pos == CoordNew(i) && Synced(tiles[i]))
    }

    /** Each directional subset holds the catalog entries that point back
        towards the cell a fill comes from: `top_tiles` is used for the cell
        above, so it holds the entries with a bottom edge, and so on. */
    ghost predicate Subsets()
      reads this
    {
      && PointsBack(bottomTiles, 1)
      && PointsBack(leftTiles, 2)
      && PointsBack(topTiles, 4)
      && PointsBack(rightTiles, 8)
    }

    ghost function Masks(): seq<nat>
      reads this, tiles
    {
      MasksOf(tiles[..])
    }

    /** `Map::new` followed by `Map::empty`: every cell empty. */
    constructor Empty()
      ensures Valid() && Subsets() && fresh(tiles)
      ensures forall i :: 0 <= i < TotalTiles ==> tiles[i] == TileEmpty(i)
    {
      bottomTiles := InitWtiles(1);
      leftTiles := InitWtiles(2);
      topTiles := InitWtiles(4);
      rightTiles := InitWtiles(8);
      InitWtilesPointsBack(1);
      InitWtilesPointsBack(2);
      InitWtilesPointsBack(4);
      InitWtilesPointsBack(8);
      var ts := EmptyTiles();
      tiles := ts;
    }

    /** `Map::get_tile`: narrows `tileVec` edge by edge and draws one of the
        survivors. The draw is any index into the narrowed list; the source
        indexes that list, so it must not be empty. */
    method GetTile(ti: nat, tileVec: seq<TileType>) returns (ci: nat)
      requires Valid() && ti < TotalTiles
      requires exists t :: t in tileVec && Admits(Masks(), MapSize, ti, t.ci)
      ensures Admits(Masks(), MapSize, ti, ci)
      ensures exists t :: t in tileVec && t.ci == ci
    {
      var v1 := FilterTop(ti, tileVec);
      var v2 := FilterRight(ti, v1);
      var v3 := FilterBottom(ti, v2);
      var v := FilterLeft(ti, v3);
      assert forall x :: x in tileVec && Admits(Masks(), MapSize, ti, x.ci) ==> x in v;
      var i :| 0 <= i < |v|;
      ci := v[i].ci;
      assert v[i] in v;
    }

    /** The top step of `get_tile`: on row 0 drop every entry with a top
        edge; under a filled cell keep the entries whose top edge matches
        that cell's bottom edge; under an empty cell keep everything. */
    method FilterTop(ti: nat, tileVec: seq<TileType>) returns (v: seq<TileType>)
      requires Valid() && ti < TotalTiles
      ensures IsSubseq(v, tileVec)
      ensures forall x :: x in v <==> x in tileVec && TopRule(Masks(), MapSize, ti, x.ci)
    {
      var (ui, _, _, _) := GetNeighbors(ti);
      if 0 <= ui < TotalTiles { EmptyAt(ui); }
      v := tileVec;
      if ui < 0 {
        v := KeepIf(v, (t: TileType) => !HasTop(t.ci));
      } else if tiles[ui].ch != EmptyChar {
        if HasBottom(tiles[ui].chI) {
          v := KeepIf(v, (t: TileType) => HasTop(t.ci));
        } else {
          v := KeepIf(v, (t: TileType) => !HasTop(t.ci));
        }
      } else {
        assert IsSubseq(v, tileVec) by { KeepIfAll(v, (t: TileType) => true); }
      }
    }

    /** The right step of `get_tile`, for the last column and the cell to the right. */
    method FilterRight(ti: nat, tileVec: seq<TileType>) returns (v: seq<TileType>)
      requires Valid() && ti < TotalTiles
      ensures IsSubseq(v, tileVec)
      ensures forall x :: x in v <==> x in tileVec && RightRule(Masks(), MapSize, ti, x.ci)
    {
      var (_, ri, _, _) := GetNeighbors(ti);
      if 0 <= ri < TotalTiles { EmptyAt(ri); }
      v := tileVec;
      if ti % MapSize == MapSize - 1 {
        v := KeepIf(v, (t: TileType) => !HasRight(t.ci));
      } else if tiles[ri].ch != EmptyChar {
        if HasLeft(tiles[ri].chI) {
          v := KeepIf(v, (t: TileType) => HasRight(t.ci));
        } else {
          v := KeepIf(v, (t: TileType) => !HasRight(t.ci));
        }
      } else {
        assert IsSubseq(v, tileVec) by { KeepIfAll(v, (t: TileType) => true); }
      }
    }

    /** The bottom step of `get_tile`, for the last row and the cell below. */
    method FilterBottom(ti: nat, tileVec: seq<TileType>) returns (v: seq<TileType>)
      requires Valid() && ti < TotalTiles
      ensures IsSubseq(v, tileVec)
      ensures forall x :: x in v <==> x in tileVec && BottomRule(Masks(), MapSize, ti, x.ci)
    {
      var (_, _, bi, _) := GetNeighbors(ti);
      if 0 <= bi < TotalTiles { EmptyAt(bi); }
      v := tileVec;
      if bi >= TotalTiles {
        v := KeepIf(v, (t: TileType) => !HasBottom(t.ci));
      } else if tiles[bi].ch != EmptyChar {
        if HasTop(tiles[bi].chI) {
          v := KeepIf(v, (t: TileType) => HasBottom(t.ci));
        } else {
          v := KeepIf(v, (t: TileType) => !HasBottom(t.ci));
        }
      } else {
        assert IsSubseq(v, tileVec) by { KeepIfAll(v, (t: TileType) => true); }
      }
    }

    /** The left step of `get_tile`, for the first column and the cell to the left. */
    method FilterLeft(ti: nat, tileVec: seq<TileType>) returns (v: seq<TileType>)
      requires Valid() && ti < TotalTiles
      ensures IsSubseq(v, tileVec)
      ensures forall x :: x in v <==> x in tileVec && LeftRule(Masks(), MapSize, ti, x.ci)
    {
      var (_, _, _, li) := GetNeighbors(ti);
      if 0 <= li < TotalTiles { EmptyAt(li); }
      v := tileVec;
      if ti % MapSize == 0 {
        v := KeepIf(v, (t: TileType) => !HasLeft(t.ci));
      } else if ti % MapSize > 0 && tiles[li].ch != EmptyChar {
        if HasRight(tiles[li].chI) {
          v := KeepIf(v, (t: TileType) => HasLeft(t.ci));
        } else {
          v := KeepIf(v, (t: TileType) => !HasLeft(t.ci));
        }
      } else {
        assert IsSubseq(v, tileVec) by { KeepIfAll(v, (t: TileType) => true); }
      }
    }

    /** The glyph test of `get_tile` and `generate_tiles` on cell `j` reads its mask. */
    lemma EmptyAt(j: int)
      requires Valid() && 0 <= j < TotalTiles
      ensures tiles[j].ch == EmptyChar <==> Masks()[j] == 0
      ensures Masks()[j] == tiles[j].chI
    {
      GlyphTestIsMaskTest(tiles[j]);
    }

    /** `self.tiles[t].set_char(ci)`: cell `t` takes mask `ci`, every other cell stays. */
    method SetTileChar(t: nat, ci: nat)
      requires Valid() && t < TotalTiles && ci < 16
      modifies tiles
      ensures Valid()
      ensures Masks() == old(Masks())[t := ci]
    {
      tiles[t] := tiles[t].SetChar(ci);
      assert Masks() == old(Masks())[t := ci];
    }

    /** One fill of `generate_tiles`: draw a tile for the empty cell `t` from
        `tileVec` with `get_tile` and write it. The map stays consistent and
        only cell `t` changes, to a non-empty admissible mask from `tileVec`. */
    method FillCell(t: nat, tileVec: seq<TileType>)
      requires Valid() && Consistent(Masks(), MapSize) && t < TotalTiles && Masks()[t] == 0
      requires forall e :: e in tileVec ==> 0 < e.ci < 16
      requires exists e :: e in tileVec && Admits(Masks(), MapSize, t, e.ci)
      modifies tiles
      ensures Valid() && Consistent(Masks(), MapSize)
      ensures Masks() == old(Masks())[t := Masks()[t]]
      ensures Masks()[t] != 0 && Admits(old(Masks()), MapSize, t, Masks()[t])
      ensures exists e :: e in tileVec && e.ci == Masks()[t]
    {
      ghost var g := Masks();
      var ci := GetTile(t, tileVec);
      SetTileChar(t, ci);
      AdmittedPlacement(g, MapSize, t, ci);
    }

    /** One guarded block of `generate_tiles` once its in-range and
        points-at tests have passed for the current cell `cur` holding `chi`:
        if the neighbour `t` is empty, record it and fill it from `tileVec`;
        otherwise leave everything as it is. The recorded list stays the
        list of cells filled since `g0`. */
    method FillIfEmpty(ghost g0: seq<nat>, ghost cur: nat, ghost chi: nat, tileIndexes: seq<nat>,
                       t: nat, tileVec: seq<TileType>)
      returns (r: seq<nat>)
      requires Progress(g0, cur, chi, tileIndexes) && t < TotalTiles && t != cur && chi != 0
      requires forall e :: e in tileVec ==> 0 < e.ci < 16
      requires Masks()[t] == 0 ==> exists e :: e in tileVec && Admits(Masks(), MapSize, t, e.ci)
      modifies tiles
      ensures Progress(g0, cur, chi, r) && Grows(old(Masks()), Masks())
      ensures Masks()[t] != 0
      ensures r == if old(Masks())[t] == 0 then tileIndexes + [t] else tileIndexes
    {
      r := tileIndexes;
      EmptyAt(t);
      if tiles[t].ch == EmptyChar {
        r := r + [t];
        FillEmpty(g0, cur, chi, tileIndexes, t, tileVec);
      }
    }

    /** The filling branch of `FillIfEmpty`: the empty neighbour `t` is
        filled and joins the list of cells filled since `g0`. */
    method FillEmpty(ghost g0: seq<nat>, ghost cur: nat, ghost chi: nat, tileIndexes: seq<nat>,
                     t: nat, tileVec: seq<TileType>)
      requires Progress(g0, cur, chi, tileIndexes) && t < TotalTiles && t != cur && chi != 0
      requires forall e :: e in tileVec ==> 0 < e.ci < 16
      requires Masks()[t] == 0 && exists e :: e in tileVec && Admits(Masks(), MapSize, t, e.ci)
      modifies tiles
      ensures Progress(g0, cur, chi, tileIndexes + [t]) && Grows(old(Masks()), Masks())
      ensures Masks()[t] != 0
    {
      ghost var h := Masks();
      FillCell(t, tileVec);
      FilledOneMore(g0, h, Masks(), tileIndexes, t);
    }

    /** What the blocks of `generate_tiles` keep: the map is consistent,
        it has grown from `g0` by exactly the cells listed in `idx`, and the
        current cell `cur` still holds mask `chi`. */
    ghost predicate Progress(g0: seq<nat>, cur: nat, chi: nat, idx: seq<nat>)
      reads this, tiles
    {
      && Valid() && Subsets() && cur < TotalTiles
      && Consistent(Masks(), MapSize)
      && Grows(g0, Masks()) && FilledExactly(g0, Masks(), idx)
      && (forall j :: j in idx ==> j < TotalTiles)
      && Masks()[cur] == chi
      && (idx != [] ==> chi != 0)
    }

    /** The top block of `generate_tiles`: if the current tile points up
        and the cell above is empty, record it and fill it from `top_tiles`.
        Afterwards the cell above is filled whenever the current tile points at it. */
    method FillTop(ghost g0: seq<nat>, ti: nat, chi: nat, tileIndexes: seq<nat>) returns (r: seq<nat>)
      requires Progress(g0, ti, chi, tileIndexes)
      modifies tiles
      ensures Progress(g0, ti, chi, r) && Grows(old(Masks()), Masks())
      ensures ti >= MapSize && HasTop(chi) ==> Masks()[ti - MapSize] != 0
      ensures r == tileIndexes + TopTarget(old(Masks()), MapSize, ti)
    {
      EdgeMeansFilled(chi);
      ghost var target := TopTarget(Masks(), MapSize, ti);
      TotalTilesIsSquare();
      var (ui, _, _, _) := GetNeighbors(ti);
      assert ui == ti - MapSize;
      r := tileIndexes;
      if ui >= 0 && HasTop(chi) {
        var ui := ui as nat;
        assert target == if Masks()[ui] == 0 then [ui] else [];
        FitAbove(Masks(), ti, topTiles);
        r := FillIfEmpty(g0, ti, chi, r, ui, topTiles);
        assert Masks()[ti - MapSize] != 0;
      } else {
        assert target == [];
      }
    }

    /** The right block of `generate_tiles`, outside the last column, filling from `right_tiles`. */
    method FillRight(ghost g0: seq<nat>, ti: nat, chi: nat, tileIndexes: seq<nat>) returns (r: seq<nat>)
      requires Progress(g0, ti, chi, tileIndexes)
      modifies tiles
      ensures Progress(g0, ti, chi, r) && Grows(old(Masks()), Masks())
      ensures ti % MapSize != MapSize - 1 && ti + 1 < TotalTiles && HasRight(chi) ==> Masks()[ti + 1] != 0
      ensures r == tileIndexes + RightTarget(old(Masks()), MapSize, ti)
    {
      EdgeMeansFilled(chi);
      ghost var target := RightTarget(Masks(), MapSize, ti);
      TotalTilesIsSquare();
      Columns(ti, MapSize);
      var (_, ri, _, _) := GetNeighbors(ti);
      assert ri == ti + 1;
      r := tileIndexes;
      if ti % MapSize != MapSize - 1 && HasRight(chi) {
        var ri := ri as nat;
        assert target == if Masks()[ri] == 0 then [ri] else [];
        FitRightOf(Masks(), ti, rightTiles);
        r := FillIfEmpty(g0, ti, chi, r, ri, rightTiles);
        assert Masks()[ti + 1] != 0;
      } else {
        assert target == [];
      }
    }

    /** The bottom block of `generate_tiles`, above the last row, filling from `bottom_tiles`. */
    method FillBottom(ghost g0: seq<nat>, ti: nat, chi: nat, tileIndexes: seq<nat>) returns (r: seq<nat>)
      requires Progress(g0, ti, chi, tileIndexes)
      modifies tiles
      ensures Progress(g0, ti, chi, r) && Grows(old(Masks()), Masks())
      ensures ti + MapSize < TotalTiles && HasBottom(chi) ==> Masks()[ti + MapSize] != 0
      ensures r == tileIndexes + BottomTarget(old(Masks()), MapSize, ti)
    {
      EdgeMeansFilled(chi);
      TotalTilesIsSquare();
      var (_, _, bi, _) := GetNeighbors(ti);
      assert bi == ti + MapSize;
      ghost var target := BottomTarget(Masks(), MapSize, ti);
      r := tileIndexes;
      if bi < TotalTiles && HasBottom(chi) {
        var bi := bi as nat;
        assert target == if Masks()[bi] == 0 then [bi] else [];
        FitBelow(Masks(), ti, bottomTiles);
        r := FillIfEmpty(g0, ti, chi, r, bi, bottomTiles);
        assert Masks()[ti + MapSize] != 0;
      } else {
        assert target == [];
      }
    }

    /** The left block of `generate_tiles`, outside the first column, filling from `left_tiles`. */
    method FillLeft(ghost g0: seq<nat>, ti: nat, chi: nat, tileIndexes: seq<nat>) returns (r: seq<nat>)
      requires Progress(g0, ti, chi, tileIndexes)
      modifies tiles
      ensures Progress(g0, ti, chi, r) && Grows(old(Masks()), Masks())
      ensures 0 < ti && ti % MapSize != 0 && HasLeft(chi) ==> Masks()[ti - 1] != 0
      ensures r == tileIndexes + LeftTarget(old(Masks()), MapSize, ti)
    {
      EdgeMeansFilled(chi);
      ghost var target := LeftTarget(Masks(), MapSize, ti);
      TotalTilesIsSquare();
      Columns(ti, MapSize);
      var (_, _, _, li) := GetNeighbors(ti);
      assert li == ti - 1;
      r := tileIndexes;
      if ti % MapSize > 0 && HasLeft(chi) {
        var li := li as nat;
        assert target == if Masks()[li] == 0 then [li] else [];
        FitLeftOf(Masks(), ti, leftTiles);
        r := FillIfEmpty(g0, ti, chi, r, li, leftTiles);
        assert Masks()[ti - 1] != 0;
      } else {
        assert target == [];
      }
    }

    /** The first half of `generate_tiles`: the four blocks in the order
        top, right, bottom, left. Afterwards the current cell is closed, the
        map is still consistent, and the recorded cells are exactly the
        cells that were filled. */
    method FillNeighbors(curIndex: nat) returns (tileIndexes: seq<nat>)
      requires Valid() && Subsets() && Consistent(Masks(), MapSize) && curIndex < TotalTiles
      modifies tiles
      ensures Valid() && Subsets() && Consistent(Masks(), MapSize) && Grows(old(Masks()), Masks())
      ensures Closed(Masks(), MapSize, curIndex)
      ensures forall j :: j in tileIndexes ==> j < TotalTiles
      ensures FilledExactly(old(Masks()), Masks(), tileIndexes)
      ensures tileIndexes == Targets(old(Masks()), MapSize, curIndex)
      ensures tileIndexes != [] ==> Masks()[curIndex] != 0
    {
      ghost var g0 := Masks();
      tileIndexes := [];
      var ti := tiles[curIndex].indx;
      var chi := tiles[curIndex].chI;
      TotalTilesIsSquare();
      Columns(ti, MapSize);
      assert ti == curIndex;
      tileIndexes := FillTop(g0, ti, chi, tileIndexes);
      assert tileIndexes == TopTarget(g0, MapSize, ti);
      ghost var g1 := Masks();
      tileIndexes := FillRight(g0, ti, chi, tileIndexes);
      ghost var g2 := Masks();
      tileIndexes := FillBottom(g0, ti, chi, tileIndexes);
      ghost var g3 := Masks();
      tileIndexes := FillLeft(g0, ti, chi, tileIndexes);
      TargetsInTurn(g0, g1, g2, g3, MapSize, ti);
      assert tileIndexes == Targets(g0, MapSize, ti);
      TargetsClose(g0, Masks(), MapSize, ti);
    }

    /** `generate_tiles`: fill around the current cell, then recurse into
        every cell that was filled, in the order they were filled. The
        number of empty cells falls with every recursive call, so the flood
        ends. Afterwards the map is still consistent, cells only ever went
        from empty to filled, and the current cell and every cell filled
        on the way are closed: none of their open edges leads to an empty
        cell. The cells it fills are exactly those of `tree`, a tree of
        open edges hanging from the current cell: the flood reaches nothing
        that is not connected to where it started. */
    method GenerateTiles(curIndex: nat) returns (ghost tree: seq<Link>)
      requires Valid() && Subsets() && Consistent(Masks(), MapSize) && curIndex < TotalTiles
      modifies tiles
      ensures Valid() && Subsets() && Consistent(Masks(), MapSize) && Grows(old(Masks()), Masks())
      ensures Closed(Masks(), MapSize, curIndex)
      ensures forall j :: 0 <= j < TotalTiles && old(Masks())[j] == 0 && Masks()[j] != 0 ==>
                Closed(Masks(), MapSize, j)
      ensures ReachedVia(old(Masks()), Masks(), MapSize, curIndex, tree)
      ensures Rooted(old(Masks()), Masks(), MapSize, curIndex, tree, Targets(old(Masks()), MapSize, curIndex))
      decreases EmptyCount(Masks())
    {
      ghost var g0 := Masks();
      var tileIndexes := FillNeighbors(curIndex);
      ghost var g1 := Masks();
      FloodStart(g0, g1, MapSize, curIndex, tileIndexes);
      RootedStart(g0, g1, MapSize, curIndex, tileIndexes);
      tree := RootLinks(tileIndexes);
      for k := 0 to |tileIndexes|
        invariant Valid() && Subsets() && Consistent(Masks(), MapSize)
        invariant Flooded(g0, g1, Masks(), MapSize, curIndex, tileIndexes[k..])
        invariant Rooted(g0, Masks(), MapSize, curIndex, tree, tileIndexes)
      {
        var i := tileIndexes[k];
        assert i in tileIndexes;
        ghost var h := Masks();
        ghost var sub := GenerateTiles(i);
        FloodStep(g0, g1, h, Masks(), MapSize, curIndex, tileIndexes[k..]);
        assert tileIndexes[k..][1..] == tileIndexes[k + 1..];
        GrowsTrans(g0, g1, h);
        RootedStep(g0, h, Masks(), MapSize, curIndex, tree, tileIndexes, k, sub);
        tree := tree + Graft(sub, k, |tree|);
      }
      FloodEnd(g0, g1, Masks(), MapSize, curIndex);
    }
  }

  /** `create_dungeon`: an empty map, the start tile at the centre, and a
      flood from there. The result is consistent, holds the start tile at the
      centre, and every filled cell is closed, so no pipe ends at an empty
      cell or at the border. The filled cells are the centre and the cells
      of `tree`, a tree of open edges hanging from the centre: the dungeon
      is the part of the map the flood reaches from the start tile. */
  method CreateDungeon() returns (dungeon: Map, ghost tree: seq<Link>)
    ensures dungeon.Valid() && Consistent(dungeon.Masks(), MapSize)
    ensures dungeon.Masks()[ToIndex(MapSize / 2, MapSize / 2)] == StartCharIndex
    ensures forall j :: 0 <= j < TotalTiles && dungeon.Masks()[j] != 0 ==> Closed(dungeon.Masks(), MapSize, j)
    ensures forall j :: 0 <= j < TotalTiles ==>
              (dungeon.Masks()[j] != 0 <==> j == ToIndex(MapSize / 2, MapSize / 2) || j in Cells(tree))
    ensures Spans(dungeon.Masks(), MapSize, ToIndex(MapSize / 2, MapSize / 2), tree)
  {
    var centerIndex := ToIndex(MapSize / 2, MapSize / 2);
    dungeon := SeededMap(centerIndex);
    ghost var g := dungeon.Masks();
    tree := dungeon.GenerateTiles(centerIndex);
    forall j | 0 <= j < TotalTiles
      ensures dungeon.Masks()[j] != 0 ==> Closed(dungeon.Masks(), MapSize, j)
      ensures dungeon.Masks()[j] != 0 <==> j == centerIndex || j in Cells(tree)
    {
      if j != centerIndex {
        assert g[j] == 0;
      }
    }
  }

  /** The first two steps of `create_dungeon`: an empty map with the start
      tile written at the centre, which is consistent. */
  method SeededMap(centerIndex: nat) returns (dungeon: Map)
    requires centerIndex == ToIndex(MapSize / 2, MapSize / 2)
    ensures fresh(dungeon) && fresh(dungeon.tiles)
    ensures dungeon.Valid() && dungeon.Subsets() && Consistent(dungeon.Masks(), MapSize)
    ensures dungeon.Masks()[centerIndex] == StartCharIndex
    ensures forall j :: 0 <= j < TotalTiles && j != centerIndex ==> dungeon.Masks()[j] == 0
  {
    dungeon := new Map.Empty();
    ghost var e := dungeon.Masks();
    assert forall i :: 0 <= i < |e| ==> e[i] == 0;
    assert centerIndex == 210;
    dungeon.SetTileChar(centerIndex, StartCharIndex);
    ghost var g := dungeon.Masks();
    assert g == e[centerIndex := StartCharIndex];
    SeedAtCenter(g);
  }

  /** The map holding only the start tile at the centre is consistent. */
  lemma SeedAtCenter(g: seq<nat>)
    requires |g| == TotalTiles && forall i :: 0 <= i < |g| && i != 210 ==> g[i] == 0
    ensures Consistent(g, MapSize)
  {
    TotalTilesIsSquare();
    assert 210 % MapSize == 10;
    SeedConsistent(g, MapSize, 210);
  }
}
