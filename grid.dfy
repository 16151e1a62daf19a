/** The state the three generators share: a square map of side `n` stored
    row-major as one connection mask per cell (cell `i` is column `i % n`,
    row `i / n`), where mask 0 is an empty cell. The predicates here are
    written with the same index tests the sources use (`i - n < 0`,
    `i % n == n - 1`, `i + n >= n * n`, `i % n == 0`). */
module Grid {
  import opened Connections
  import Filters

  /** A filled cell does not point past the edge of the map. */
  predicate Sealed(g: seq<nat>, n: nat, i: int)
    requires 0 < n && 0 <= i < |g| == n * n
  {
    g[i] != 0 ==>
      && (i < n ==> !HasTop(g[i]))
      && (i % n == n - 1 ==> !HasRight(g[i]))
      && (i + n >= |g| ==> !HasBottom(g[i]))
      && (i % n == 0 ==> !HasLeft(g[i]))
  }

  /** The invariant the generators maintain: two filled cells side by side
      agree on their shared edge, two filled cells one above the other agree
      on theirs, and no filled cell points out of the map. */
  predicate Consistent(g: seq<nat>, n: nat) {
    && 0 < n
    && |g| == n * n
    && (forall i :: 0 <= i < |g| ==> Sealed(g, n, i))
    && (forall i, j :: 0 <= i < |g| && 0 <= j < |g| && j == i + 1 && i % n != n - 1 && g[i] != 0 && g[j] != 0 ==>
          (HasRight(g[i]) <==> HasLeft(g[j])))
    && (forall i, j :: 0 <= i < |g| && 0 <= j < |g| && j == i + n && g[i] != 0 && g[j] != 0 ==>
          (HasBottom(g[i]) <==> HasTop(g[j])))
  }

  /** The four edge rules of `get_tile` for mask `m` at cell `t`: an edge on
      the map's border must be closed; an edge facing a filled neighbour
      must be open exactly when the neighbour's facing edge is; an edge
      facing an empty neighbour is free. */
  predicate Admits(g: seq<nat>, n: nat, t: int, m: nat) {
    && 0 < n
    && 0 <= t < |g|
    && TopRule(g, n, t, m)
    && RightRule(g, n, t, m)
    && BottomRule(g, n, t, m)
    && LeftRule(g, n, t, m)
  }

  predicate TopRule(g: seq<nat>, n: nat, t: int, m: nat)
    requires 0 < n && 0 <= t < |g|
  {
    if t - n < 0 then !HasTop(m)
    else g[t - n] != 0 ==> (HasTop(m) <==> HasBottom(g[t - n]))
  }

  predicate RightRule(g: seq<nat>, n: nat, t: int, m: nat)
    requires 0 < n && 0 <= t < |g|
  {
    if t % n == n - 1 then !HasRight(m)
    else t + 1 < |g| && g[t + 1] != 0 ==> (HasRight(m) <==> HasLeft(g[t + 1]))
  }

  predicate BottomRule(g: seq<nat>, n: nat, t: int, m: nat)
    requires 0 < n && 0 <= t < |g|
  {
    if t + n >= |g| then !HasBottom(m)
    else g[t + n] != 0 ==> (HasBottom(m) <==> HasTop(g[t + n]))
  }

  predicate LeftRule(g: seq<nat>, n: nat, t: int, m: nat)
    requires 0 < n && 0 <= t < |g|
  {
    if t % n == 0 then !HasLeft(m)
    else g[t - 1] != 0 ==> (HasLeft(m) <==> HasRight(g[t - 1]))
  }

  /** Writing a non-empty mask into an empty cell of a consistent map keeps
      it consistent exactly when the four edge rules admit the mask: the
      filter rejects nothing it could keep and keeps nothing it must reject. */
  lemma PlaceKeepsConsistent(g: seq<nat>, n: nat, t: int, m: nat)
    requires Consistent(g, n)
    requires 0 <= t < |g| && g[t] == 0 && m != 0
    ensures Consistent(g[t := m], n) <==> Admits(g, n, t, m)
  {
    if Admits(g, n, t, m) {
      AdmittedPlacement(g, n, t, m);
    }
    if Consistent(g[t := m], n) {
      ConsistentPlacement(g, n, t, m);
    }
  }

  lemma AdmittedPlacement(g: seq<nat>, n: nat, t: int, m: nat)
    requires Consistent(g, n)
    requires 0 <= t < |g| && g[t] == 0 && m != 0
    requires Admits(g, n, t, m)
    ensures Consistent(g[t := m], n)
  {
    var g' := g[t := m];
    if t > 0 { ModPrev(t, n); }
    forall i | 0 <= i < |g'| ensures Sealed(g', n, i) {
      if i != t { assert Sealed(g, n, i); }
    }
    forall i | 0 <= i && i + 1 < |g'| && i % n != n - 1 && g'[i] != 0 && g'[i + 1] != 0
      ensures HasRight(g'[i]) <==> HasLeft(g'[i + 1])
    {
      if i == t - 1 { assert (i + 1) % n != 0; }
    }
  }

  lemma ConsistentPlacement(g: seq<nat>, n: nat, t: int, m: nat)
    requires 0 < n && |g| == n * n
    requires 0 <= t < |g| && m != 0
    requires Consistent(g[t := m], n)
    ensures Admits(g, n, t, m)
  {
    var g' := g[t := m];
    assert 0 % n == 0;
    assert Sealed(g', n, t);
    assert t - n >= 0 && g[t - n] != 0 ==> (HasTop(m) <==> HasBottom(g[t - n])) by {
      if t - n >= 0 && g[t - n] != 0 {
        var i := t - n;
        assert 0 <= i && i + n < |g'| && g'[i] != 0 && g'[i + n] != 0;
      }
    }
    assert t % n != n - 1 && t + 1 < |g| && g[t + 1] != 0 ==> (HasRight(m) <==> HasLeft(g[t + 1])) by {
      if t % n != n - 1 && t + 1 < |g| && g[t + 1] != 0 {
        assert 0 <= t && t + 1 < |g'| && t % n != n - 1 && g'[t] != 0 && g'[t + 1] != 0;
      }
    }
    assert t + n < |g| && g[t + n] != 0 ==> (HasBottom(m) <==> HasTop(g[t + n])) by {
      if t + n < |g| && g[t + n] != 0 {
        assert 0 <= t && t + n < |g'| && g'[t] != 0 && g'[t + n] != 0;
      }
    }
    assert t % n != 0 && g[t - 1] != 0 ==> (HasLeft(m) <==> HasRight(g[t - 1])) by {
      if t % n != 0 && g[t - 1] != 0 {
        ModPrev(t, n);
        var i := t - 1;
        assert 0 <= i && i + 1 < |g'| && i % n != n - 1 && g'[i] != 0 && g'[i + 1] != 0;
      }
    }
  }

  /** The smallest mask the four edge rules admit at `t`: open exactly
      towards the filled neighbours that point at `t`. */
  function MinimalFit(g: seq<nat>, n: nat, t: int): (m: nat)
    requires 0 < n && 0 <= t < |g|
    ensures m < 16 && Admits(g, n, t, m)
  {
    MaskOf(
      t - n >= 0 && g[t - n] != 0 && HasBottom(g[t - n]),
      t % n != n - 1 && t + 1 < |g| && g[t + 1] != 0 && HasLeft(g[t + 1]),
      t + n < |g| && g[t + n] != 0 && HasTop(g[t + n]),
      t % n != 0 && g[t - 1] != 0 && HasRight(g[t - 1]))
  }

  /** The number of empty cells: the measure that bounds the recursion. */
  function EmptyCount(g: seq<nat>): nat {
    if g == [] then 0 else (if g[0] == 0 then 1 else 0) + EmptyCount(g[1..])
  }

  /** Filling one empty cell removes exactly one empty cell. */
  lemma {:induction false} EmptyCountFill(g: seq<nat>, t: int, m: nat)
    requires 0 <= t < |g| && g[t] == 0 && m != 0
    ensures EmptyCount(g[t := m]) == EmptyCount(g) - 1
  {
    if t == 0 {
      assert g[t := m][1..] == g[1..];
    } else {
      assert g[t := m][1..] == g[1..][t - 1 := m];
      EmptyCountFill(g[1..], t - 1, m);
    }
  }

  /** `h` is `g` with some empty cells filled: no filled cell changes. */
  predicate Grows(g: seq<nat>, h: seq<nat>) {
    |g| == |h| && forall j :: 0 <= j < |g| && g[j] != 0 ==> h[j] == g[j]
  }

  /** Filling is transitive. */
  lemma GrowsTrans(g: seq<nat>, h: seq<nat>, k: seq<nat>)
    requires Grows(g, h) && Grows(h, k)
    ensures Grows(g, k)
  {
  }

  /** Filling cells never adds an empty cell, and filling one removes one. */
  lemma {:induction false} EmptyCountGrows(g: seq<nat>, h: seq<nat>)
    requires Grows(g, h)
    ensures EmptyCount(h) <= EmptyCount(g)
    ensures (exists j :: 0 <= j < |g| && g[j] == 0 && h[j] != 0) ==> EmptyCount(h) < EmptyCount(g)
  {
    if g != [] {
      assert Grows(g[1..], h[1..]) by {
        forall j | 0 <= j < |g[1..]| && g[1..][j] != 0 ensures h[1..][j] == g[1..][j] {
          assert g[j + 1] != 0;
        }
      }
      EmptyCountGrows(g[1..], h[1..]);
      if exists j :: 0 <= j < |g| && g[j] == 0 && h[j] != 0 {
        var j :| 0 <= j < |g| && g[j] == 0 && h[j] != 0;
        if j > 0 {
          assert g[1..][j - 1] == 0 && h[1..][j - 1] != 0;
        }
      }
    }
  }

  /** Every open edge of filled cell `j` that stays inside the map leads to
      a filled cell: the state `generate_tiles` leaves a cell in. */
  predicate Closed(g: seq<nat>, n: nat, j: int)
    requires 0 < n && 0 <= j < |g|
  {
    g[j] != 0 ==>
      && (j - n >= 0 && HasTop(g[j]) ==> g[j - n] != 0)
      && (j % n != n - 1 && j + 1 < |g| && HasRight(g[j]) ==> g[j + 1] != 0)
      && (j + n < |g| && HasBottom(g[j]) ==> g[j + n] != 0)
      && (0 < j && j % n != 0 && HasLeft(g[j]) ==> g[j - 1] != 0)
  }

  /** A filled cell that is closed stays closed as cells are filled. */
  lemma ClosedStays(g: seq<nat>, h: seq<nat>, n: nat, j: int)
    requires 0 < n && 0 <= j < |g| && Grows(g, h)
    requires g[j] != 0 && Closed(g, n, j)
    ensures Closed(h, n, j)
  {
    assert h[j] == g[j];
    if j - n >= 0 { assert g[j - n] != 0 ==> h[j - n] != 0; }
    if j + 1 < |g| { assert g[j + 1] != 0 ==> h[j + 1] != 0; }
    if j + n < |g| { assert g[j + n] != 0 ==> h[j + n] != 0; }
    if j > 0 { assert g[j - 1] != 0 ==> h[j - 1] != 0; }
  }

  /** One recursive step of the flood: cell `i`, the next one waiting in
      `todo`, has been flooded from state `h` to state `m`. If every cell
      filled since `g0` that is no longer waiting was closed in `h`, and the
      recursive flood closed `i` and every cell it filled, then every cell
      filled since `g0` that is still waiting after `i` is dropped is closed
      in `m`. */
  lemma ClosureStep(g0: seq<nat>, h: seq<nat>, m: seq<nat>, n: nat, todo: seq<nat>)
    requires 0 < n && |g0| == |h| && Grows(h, m) && todo != [] && todo[0] < |h|
    requires forall j :: 0 <= j < |h| && g0[j] == 0 && h[j] != 0 && j !in todo ==> Closed(h, n, j)
    requires Closed(m, n, todo[0])
    requires forall j :: 0 <= j < |h| && h[j] == 0 && m[j] != 0 ==> Closed(m, n, j)
    ensures forall j :: 0 <= j < |m| && g0[j] == 0 && m[j] != 0 && j !in todo[1..] ==> Closed(m, n, j)
  {
    forall j | 0 <= j < |m| && g0[j] == 0 && m[j] != 0 && j !in todo[1..]
      ensures Closed(m, n, j)
    {
      if j != todo[0] && h[j] != 0 {
        ClosedStays(h, m, n, j);
      }
    }
  }

  /** The cells empty in `g0` and filled in `g` are exactly those listed in `idx`. */
  ghost predicate FilledExactly(g0: seq<nat>, g: seq<nat>, idx: seq<nat>) {
    |g0| == |g| && forall j :: 0 <= j < |g| ==> (g0[j] == 0 && g[j] != 0 <==> j in idx)
  }

  /** Filling the empty cell `t` of `h` extends the record of cells filled since `g0` by `t`. */
  lemma FilledOneMore(g0: seq<nat>, h: seq<nat>, m: seq<nat>, idx: seq<nat>, t: nat)
    requires Grows(g0, h) && FilledExactly(g0, h, idx)
    requires t < |h| == |m| && h[t] == 0 && m == h[t := m[t]] && m[t] != 0
    ensures Grows(h, m) && Grows(g0, m) && FilledExactly(g0, m, idx + [t])
  {
    assert g0[t] == 0;
  }

  /** The cell above `t` when the top block of `generate_tiles` fills it:
      inside the map, pointed at by the mask of `t`, and empty. */
  function TopTarget(g: seq<nat>, n: nat, t: nat): seq<nat>
    requires t < |g|
  {
    if t >= n && HasTop(g[t]) && g[t - n] == 0 then [t - n] else []
  }

  /** The cell right of `t` when the right block fills it. */
  function RightTarget(g: seq<nat>, n: nat, t: nat): seq<nat>
    requires 0 < n && t < |g|
  {
    if t % n != n - 1 && t + 1 < |g| && HasRight(g[t]) && g[t + 1] == 0 then [t + 1] else []
  }

  /** The cell below `t` when the bottom block fills it. */
  function BottomTarget(g: seq<nat>, n: nat, t: nat): seq<nat>
    requires t < |g|
  {
    if t + n < |g| && HasBottom(g[t]) && g[t + n] == 0 then [t + n] else []
  }

  /** The cell left of `t` when the left block fills it. */
  function LeftTarget(g: seq<nat>, n: nat, t: nat): seq<nat>
    requires 0 < n && t < |g|
  {
    if 0 < t && t % n != 0 && HasLeft(g[t]) && g[t - 1] == 0 then [t - 1] else []
  }

  /** The cells `generate_tiles` fills around `t`, in the order it tests
      them (top, right, bottom, left): the neighbours inside the map that
      the mask of `t` points at and that are empty. */
  function Targets(g: seq<nat>, n: nat, t: nat): (r: seq<nat>)
    requires 0 < n && t < |g|
    ensures |r| <= 4
    ensures forall j :: j in r ==> j < |g| && j != t && g[j] == 0
  {
    TopTarget(g, n, t) + RightTarget(g, n, t) + BottomTarget(g, n, t) + LeftTarget(g, n, t)
  }

  /** A cell that was not filled since `g0` is empty exactly when it was. */
  lemma UnlistedKept(g0: seq<nat>, g: seq<nat>, idx: seq<nat>, j: nat)
    requires Grows(g0, g) && FilledExactly(g0, g, idx) && j < |g0| && j !in idx
    ensures g[j] == 0 <==> g0[j] == 0
  {
  }

  /** A block whose neighbour was not filled by the blocks before it sees
      the same target as in the map before the first block. */
  lemma RightKept(g0: seq<nat>, g: seq<nat>, idx: seq<nat>, n: nat, t: nat)
    requires 0 < n && t < |g0| && Grows(g0, g) && FilledExactly(g0, g, idx) && g[t] == g0[t]
    requires t + 1 !in idx
    ensures RightTarget(g, n, t) == RightTarget(g0, n, t)
  {
    if t + 1 < |g0| {
      UnlistedKept(g0, g, idx, t + 1);
    }
  }

  lemma BottomKept(g0: seq<nat>, g: seq<nat>, idx: seq<nat>, n: nat, t: nat)
    requires t < |g0| && Grows(g0, g) && FilledExactly(g0, g, idx) && g[t] == g0[t]
    requires t + n !in idx
    ensures BottomTarget(g, n, t) == BottomTarget(g0, n, t)
  {
    if t + n < |g0| {
      UnlistedKept(g0, g, idx, t + n);
    }
  }

  lemma LeftKept(g0: seq<nat>, g: seq<nat>, idx: seq<nat>, n: nat, t: nat)
    requires 0 < n && t < |g0| && Grows(g0, g) && FilledExactly(g0, g, idx) && g[t] == g0[t]
    requires 0 < t ==> t - 1 !in idx
    ensures LeftTarget(g, n, t) == LeftTarget(g0, n, t)
  {
    if 0 < t {
      UnlistedKept(g0, g, idx, t - 1);
    }
  }

  /** The four blocks test their neighbour in the map left by the blocks
      before them; since each block fills at most its own neighbour and
      leaves cell `t` alone, the cells filled are the targets of `t` in the
      map before the first block. */
  lemma TargetsInTurn(g0: seq<nat>, g1: seq<nat>, g2: seq<nat>, g3: seq<nat>, n: nat, t: nat)
    requires 1 < n && t < |g0|
    requires Grows(g0, g1) && FilledExactly(g0, g1, TopTarget(g0, n, t)) && g1[t] == g0[t]
    requires Grows(g0, g2) && g2[t] == g0[t]
    requires FilledExactly(g0, g2, TopTarget(g0, n, t) + RightTarget(g1, n, t))
    requires Grows(g0, g3) && g3[t] == g0[t]
    requires FilledExactly(g0, g3, TopTarget(g0, n, t) + RightTarget(g1, n, t) + BottomTarget(g2, n, t))
    ensures TopTarget(g0, n, t) + RightTarget(g1, n, t) + BottomTarget(g2, n, t) + LeftTarget(g3, n, t)
            == Targets(g0, n, t)
  {
    var a := TopTarget(g0, n, t);
    RightKept(g0, g1, a, n, t);
    var b := a + RightTarget(g0, n, t);
    BottomKept(g0, g2, b, n, t);
    var c := b + BottomTarget(g0, n, t);
    LeftKept(g0, g3, c, n, t);
  }

  /** Filling every target of `t` closes `t`. */
  lemma TargetsClose(g: seq<nat>, h: seq<nat>, n: nat, t: nat)
    requires 0 < n && t < |g| && Grows(g, h) && h[t] == g[t]
    requires forall j :: j in Targets(g, n, t) ==> h[j] != 0
    ensures Closed(h, n, t)
  {
    var r := Targets(g, n, t);
    if t >= n && HasTop(g[t]) && g[t - n] == 0 { assert t - n in r; }
    if t % n != n - 1 && t + 1 < |g| && HasRight(g[t]) && g[t + 1] == 0 { assert t + 1 in r; }
    if t + n < |g| && HasBottom(g[t]) && g[t + n] == 0 { assert t + n in r; }
    if 0 < t && t % n != 0 && HasLeft(g[t]) && g[t - 1] == 0 { assert t - 1 in r; }
  }

  /** Cell `p` is filled and has an open edge towards its neighbour `c`:
      the flood may fill `c` from `p`. */
  predicate PointsAt(g: seq<nat>, n: nat, p: nat, c: nat) {
    && 0 < n && p < |g| && c < |g|
    && (|| (c + n == p && HasTop(g[p]))
        || (c == p + 1 && p % n != n - 1 && HasRight(g[p]))
        || (c == p + n && HasBottom(g[p]))
        || (c + 1 == p && p % n != 0 && HasLeft(g[p])))
  }

  /** One edge of the tree a flood grows: `cell` was filled from the cell
      of the link at index `parent`, or from the flood's root when `parent`
      is negative. */
  datatype Link = Link(parent: int, cell: nat)

  /** The cells of a flood tree, in the order they were filled. */
  function Cells(tree: seq<Link>): (r: seq<nat>)
    ensures |r| == |tree| && forall k :: 0 <= k < |tree| ==> r[k] == tree[k].cell
  {
    if tree == [] then [] else [tree[0].cell] + Cells(tree[1..])
  }

  /** The cell a link hangs from. */
  function ParentCell(root: nat, tree: seq<Link>, k: nat): nat
    requires k < |tree| && tree[k].parent < k
  {
    if tree[k].parent < 0 then root else tree[tree[k].parent].cell
  }

  /** `tree` is a tree of links hanging from `root`: every link's parent is
      the root or an earlier link, and the parent's cell points at the
      link's cell in `g`. */
  predicate Spans(g: seq<nat>, n: nat, root: nat, tree: seq<Link>) {
    forall k :: 0 <= k < |tree| ==>
      tree[k].parent < k && PointsAt(g, n, ParentCell(root, tree, k), tree[k].cell)
  }

  /** The cells filled between `g0` and `g` are exactly the cells of a tree
      hanging from `cur`: the flood reached each of them from `cur` along
      open edges, and filled nothing else. */
  ghost predicate ReachedVia(g0: seq<nat>, g: seq<nat>, n: nat, cur: nat, tree: seq<Link>) {
    FilledExactly(g0, g, Cells(tree)) && Spans(g, n, cur, tree)
  }

  /** The cells from the root to the cell of link `k`, parent by parent. */
  function PathTo(root: nat, tree: seq<Link>, k: nat): seq<nat>
    requires k < |tree| && forall i :: 0 <= i < |tree| ==> tree[i].parent < i
    decreases k
  {
    (if tree[k].parent < 0 then [root] else PathTo(root, tree, tree[k].parent)) + [tree[k].cell]
  }

  /** The path to a link starts at the root, ends at the link's cell, runs
      along open edges and, after the root, only through cells of the tree. */
  lemma {:induction false} PathReaches(g: seq<nat>, n: nat, root: nat, tree: seq<Link>, k: nat)
    requires Spans(g, n, root, tree) && k < |tree|
    ensures var p := PathTo(root, tree, k);
      && 2 <= |p| && p[0] == root && p[|p| - 1] == tree[k].cell
      && (forall i :: 0 <= i < |p| - 1 ==> PointsAt(g, n, p[i], p[i + 1]))
      && (forall i :: 1 <= i < |p| ==> p[i] in Cells(tree))
  {
    assert tree[k].cell == Cells(tree)[k];
    if 0 <= tree[k].parent {
      var q := tree[k].parent;
      PathReaches(g, n, root, tree, q);
      assert PathTo(root, tree, q)[|PathTo(root, tree, q)| - 1] == tree[q].cell;
    }
  }

  /** In a consistent map a filled cell that is pointed at points back. */
  lemma JoinedBack(g: seq<nat>, n: nat, p: nat, c: nat)
    requires Consistent(g, n) && PointsAt(g, n, p, c) && g[c] != 0
    ensures PointsAt(g, n, c, p)
  {
    EdgeMeansFilled(g[p]);
    assert 0 % n == 0;
    if c + n == p {
      assert g[c] != 0 && g[c + n] != 0;
    } else if c == p + 1 && p % n != n - 1 {
      ModPrev(c, n);
    } else if c + 1 == p && p % n != 0 {
      ModPrev(p, n);
      assert c % n != n - 1 && g[c] != 0 && g[c + 1] != 0;
    }
  }

  /** `p` leads from `a` to `b` through neighbours whose facing edges are
      both open, and every cell after `a` was filled between `g0` and `g`. */
  ghost predicate JoinedChain(g0: seq<nat>, g: seq<nat>, n: nat, a: nat, b: nat, p: seq<nat>) {
    && 2 <= |p| && p[0] == a && p[|p| - 1] == b && |g0| == |g|
    && (forall i :: 0 <= i < |p| - 1 ==> PointsAt(g, n, p[i], p[i + 1]) && PointsAt(g, n, p[i + 1], p[i]))
    && (forall i :: 1 <= i < |p| ==> p[i] < |g| && g0[p[i]] == 0 && g[p[i]] != 0)
  }

  /** Reachability, as a chain: in a consistent map, every cell filled
      between `g0` and `g` is joined to `cur` by a chain of neighbours with
      both facing edges open, each filled since `g0`. */
  lemma ReachedByChain(g0: seq<nat>, g: seq<nat>, n: nat, cur: nat, tree: seq<Link>, j: nat)
    requires ReachedVia(g0, g, n, cur, tree) && Consistent(g, n)
    requires j < |g| && g0[j] == 0 && g[j] != 0
    ensures exists p :: JoinedChain(g0, g, n, cur, j, p)
  {
    assert j in Cells(tree);
    var k :| 0 <= k < |tree| && Cells(tree)[k] == j;
    var p := PathTo(cur, tree, k);
    TreePathJoined(g0, g, n, cur, tree, k);
    assert JoinedChain(g0, g, n, cur, j, p);
  }

  lemma TreePathJoined(g0: seq<nat>, g: seq<nat>, n: nat, cur: nat, tree: seq<Link>, k: nat)
    requires ReachedVia(g0, g, n, cur, tree) && Consistent(g, n) && k < |tree|
    ensures JoinedChain(g0, g, n, cur, tree[k].cell, PathTo(cur, tree, k))
  {
    PathReaches(g, n, cur, tree, k);
    var p := PathTo(cur, tree, k);
    forall i | 1 <= i < |p| ensures p[i] < |g| && g0[p[i]] == 0 && g[p[i]] != 0 {
      assert p[i] in Cells(tree);
    }
    forall i | 0 <= i < |p| - 1 ensures PointsAt(g, n, p[i + 1], p[i]) {
      assert PointsAt(g, n, p[i], p[i + 1]);
      JoinedBack(g, n, p[i], p[i + 1]);
    }
  }

  /** The cells filled next to `t` hang straight from `t`. */
  function RootLinks(idx: seq<nat>): (r: seq<Link>)
    ensures Cells(r) == idx
    ensures forall k :: 0 <= k < |r| ==> r[k].parent == -1
  {
    if idx == [] then [] else [Link(-1, idx[0])] + RootLinks(idx[1..])
  }

  /** A tree whose parent indices are shifted by `offset`, with its root
      links re-hung from link `at`. */
  function Graft(sub: seq<Link>, at: nat, offset: nat): (r: seq<Link>)
    ensures |r| == |sub| && Cells(r) == Cells(sub)
    ensures forall k :: 0 <= k < |sub| ==>
      r[k] == Link(if sub[k].parent < 0 then at else sub[k].parent + offset, sub[k].cell)
  {
    if sub == [] then []
    else [Link(if sub[0].parent < 0 then at else sub[0].parent + offset, sub[0].cell)] + Graft(sub[1..], at, offset)
  }

  /** A tree stays a tree as the map fills: filled cells keep their edges. */
  lemma SpansGrows(g: seq<nat>, h: seq<nat>, n: nat, root: nat, tree: seq<Link>)
    requires Spans(g, n, root, tree) && Grows(g, h)
    ensures Spans(h, n, root, tree)
  {
    forall k | 0 <= k < |tree| ensures PointsAt(h, n, ParentCell(root, tree, k), tree[k].cell) {
      EdgeMeansFilled(g[ParentCell(root, tree, k)]);
    }
  }

  /** Hanging the tree of a flood from the cell of link `at` onto the end of
      a tree keeps it a tree. */
  lemma SpansGraft(g: seq<nat>, n: nat, root: nat, tree: seq<Link>, sub: seq<Link>, at: nat)
    requires Spans(g, n, root, tree) && at < |tree| && Spans(g, n, tree[at].cell, sub)
    ensures Spans(g, n, root, tree + Graft(sub, at, |tree|))
    ensures Cells(tree + Graft(sub, at, |tree|)) == Cells(tree) + Cells(sub)
  {
    var t := tree + Graft(sub, at, |tree|);
    forall k | 0 <= k < |t| ensures t[k].parent < k && PointsAt(g, n, ParentCell(root, t, k), t[k].cell) {
      if k >= |tree| {
        assert ParentCell(tree[at].cell, sub, k - |tree|) == ParentCell(root, t, k);
      } else {
        assert ParentCell(root, tree, k) == ParentCell(root, t, k);
      }
    }
    CellsAppend(tree, Graft(sub, at, |tree|));
  }

  lemma {:induction false} CellsAppend(a: seq<Link>, b: seq<Link>)
    ensures Cells(a + b) == Cells(a) + Cells(b)
  {
    if a != [] {
      CellsAppend(a[1..], b);
      assert (a + b)[1..] == a[1..] + b;
    }
  }

  /** Cells filled in two rounds are the cells of the first round followed by those of the second. */
  lemma FilledInTurn(g0: seq<nat>, h: seq<nat>, m: seq<nat>, c: seq<nat>, d: seq<nat>)
    requires Grows(g0, h) && Grows(h, m) && FilledExactly(g0, h, c) && FilledExactly(h, m, d)
    ensures FilledExactly(g0, m, c + d)
  {
  }

  /** The state of a recursive flood from `cur` after the cells `idx` next
      to it were filled: `tree` hangs from `cur`, its first links are the
      cells of `idx` in order, each hung straight from `cur`, and its cells
      are exactly those filled since `g0`. */
  ghost predicate Rooted(g0: seq<nat>, g: seq<nat>, n: nat, cur: nat, tree: seq<Link>, idx: seq<nat>) {
    && ReachedVia(g0, g, n, cur, tree)
    && |idx| <= |tree| && (forall k :: 0 <= k < |idx| ==> tree[k] == Link(-1, idx[k]))
  }

  /** `cur` points at each of its targets, in any map grown from the one
      they were taken from. */
  lemma TargetsPointed(g0: seq<nat>, g1: seq<nat>, n: nat, cur: nat, c: nat)
    requires 0 < n && cur < |g0| && Grows(g0, g1) && c in Targets(g0, n, cur)
    ensures PointsAt(g1, n, cur, c)
  {
    EdgeMeansFilled(g0[cur]);
    var a, b := TopTarget(g0, n, cur), RightTarget(g0, n, cur);
    var d, e := BottomTarget(g0, n, cur), LeftTarget(g0, n, cur);
    assert Targets(g0, n, cur) == a + b + d + e;
    if c in a {
    } else if c in b {
    } else if c in d {
    } else {
      assert c in e;
    }
  }

  /** The targets of `cur` hang from `cur`. */
  lemma RootedStart(g0: seq<nat>, g1: seq<nat>, n: nat, cur: nat, idx: seq<nat>)
    requires 0 < n && cur < |g0| && Grows(g0, g1) && FilledExactly(g0, g1, idx)
    requires idx == Targets(g0, n, cur)
    ensures Rooted(g0, g1, n, cur, RootLinks(idx), idx)
  {
    var tree := RootLinks(idx);
    forall k | 0 <= k < |tree| ensures PointsAt(g1, n, cur, tree[k].cell) {
      assert tree[k].cell == Cells(tree)[k] == idx[k];
      TargetsPointed(g0, g1, n, cur, idx[k]);
    }
  }

  /** Grafting the tree of the flood from the `k`-th cell next to `cur`. */
  lemma RootedStep(g0: seq<nat>, h: seq<nat>, m: seq<nat>, n: nat, cur: nat,
                   tree: seq<Link>, idx: seq<nat>, k: nat, sub: seq<Link>)
    requires Rooted(g0, h, n, cur, tree, idx) && Grows(g0, h) && Grows(h, m) && k < |idx|
    requires ReachedVia(h, m, n, idx[k], sub)
    ensures Rooted(g0, m, n, cur, tree + Graft(sub, k, |tree|), idx)
  {
    SpansGrows(h, m, n, cur, tree);
    SpansGraft(m, n, cur, tree, sub, k);
    FilledInTurn(g0, h, m, Cells(tree), Cells(sub));
  }

  /** The state of a recursive flood from cell `cur` while it works through
      the cells `todo` still waiting for their recursive call: the map `m`
      has grown from `g1`, the state after the current cell's neighbours
      were filled, which itself grew from `g0`, the state on entry; `m` has
      no more empty cells than `g1`, which has fewer than `g0` if anything
      was filled; `cur` is closed; and every cell filled since `g0` that no
      longer waits is closed. */
  ghost predicate Flooded(g0: seq<nat>, g1: seq<nat>, m: seq<nat>, n: nat, cur: nat, todo: seq<nat>) {
    && 0 < n && cur < |g0|
    && Grows(g0, g1) && Grows(g1, m)
    && EmptyCount(m) <= EmptyCount(g1)
    && (todo != [] ==> EmptyCount(g1) < EmptyCount(g0) && m[cur] != 0)
    && (forall j :: j in todo ==> j < |g0|)
    && Closed(m, n, cur)
    && (forall j :: 0 <= j < |g0| && g0[j] == 0 && m[j] != 0 && j !in todo ==> Closed(m, n, j))
  }

  /** Once the current cell's neighbours are filled, the flood can start. */
  lemma FloodStart(g0: seq<nat>, g1: seq<nat>, n: nat, cur: nat, idx: seq<nat>)
    requires 0 < n && cur < |g0| && Grows(g0, g1)
    requires Closed(g1, n, cur) && FilledExactly(g0, g1, idx)
    requires forall j :: j in idx ==> j < |g0|
    requires idx != [] ==> g1[cur] != 0
    ensures Flooded(g0, g1, g1, n, cur, idx)
  {
    if idx != [] {
      assert idx[0] in idx;
      EmptyCountGrows(g0, g1);
    }
  }

  /** A recursive flood from the first waiting cell, which closes that cell
      and every cell it fills, keeps the flood going. */
  lemma FloodStep(g0: seq<nat>, g1: seq<nat>, h: seq<nat>, m: seq<nat>, n: nat, cur: nat, todo: seq<nat>)
    requires Flooded(g0, g1, h, n, cur, todo) && todo != [] && todo[0] < |g0| && Grows(h, m)
    requires Closed(m, n, todo[0])
    requires forall j :: 0 <= j < |h| && h[j] == 0 && m[j] != 0 ==> Closed(m, n, j)
    ensures Flooded(g0, g1, m, n, cur, todo[1..])
  {
    assert todo[0] in todo;
    GrowsTrans(g1, h, m);
    EmptyCountGrows(h, m);
    ClosedStays(h, m, n, cur);
    ClosureStep(g0, h, m, n, todo);
    forall j | j in todo[1..] ensures j < |g0| {
      assert j in todo;
    }
  }

  /** When no cell waits any more, every cell filled since `g0` is closed. */
  lemma FloodEnd(g0: seq<nat>, g1: seq<nat>, m: seq<nat>, n: nat, cur: nat)
    requires Flooded(g0, g1, m, n, cur, [])
    ensures Grows(g0, m) && Closed(m, n, cur)
    ensures forall j :: 0 <= j < |g0| && g0[j] == 0 && m[j] != 0 ==> Closed(m, n, j)
  {
    GrowsTrans(g0, g1, m);
  }

  /** Every filled cell that is not waiting in `queue` is closed: the state
      a queue-driven flood keeps between two steps. */
  ghost predicate PendingClosed(g: seq<nat>, n: nat, queue: seq<nat>) {
    0 < n && forall j :: 0 <= j < |g| && g[j] != 0 && j !in queue ==> Closed(g, n, j)
  }

  /** One queue-driven step: the first waiting cell is taken off the queue,
      its neighbours are filled (closing it) and the filled cells are queued
      at the back. Every filled cell that no longer waits is still closed. */
  lemma PendingStep(g: seq<nat>, h: seq<nat>, n: nat, queue: seq<nat>, idx: seq<nat>)
    requires PendingClosed(g, n, queue) && queue != [] && queue[0] < |g|
    requires Grows(g, h) && Closed(h, n, queue[0]) && FilledExactly(g, h, idx)
    ensures PendingClosed(h, n, queue[1..] + idx)
  {
    forall j | 0 <= j < |h| && h[j] != 0 && j !in queue[1..] + idx
      ensures Closed(h, n, j)
    {
      if j != queue[0] {
        assert j !in idx;
        assert g[j] != 0;
        ClosedStays(g, h, n, j);
      }
    }
  }

  /** In a consistent map a closed filled cell has no loose end: each of its
      open edges meets a filled neighbour whose facing edge is open, and it
      has no open edge on the border. */
  lemma ClosedIsJoined(g: seq<nat>, n: nat, j: int)
    requires Consistent(g, n) && 0 <= j < |g| && g[j] != 0 && Closed(g, n, j)
    ensures HasTop(g[j]) ==> j - n >= 0 && g[j - n] != 0 && HasBottom(g[j - n])
    ensures HasRight(g[j]) ==> j % n != n - 1 && j + 1 < |g| && g[j + 1] != 0 && HasLeft(g[j + 1])
    ensures HasBottom(g[j]) ==> j + n < |g| && g[j + n] != 0 && HasTop(g[j + n])
    ensures HasLeft(g[j]) ==> 0 < j && j % n != 0 && g[j - 1] != 0 && HasRight(g[j - 1])
  {
    assert Sealed(g, n, j);
    assert 0 % n == 0;
    if HasRight(g[j]) { NextInRange(j, n); }
    if HasLeft(g[j]) {
      var i := j - 1;
      ModPrev(j, n);
      assert 0 <= i && i + 1 < |g| && i % n != n - 1;
    }
    if HasTop(g[j]) {
      var i := j - n;
      assert 0 <= i && i + n < |g|;
    }
  }

  /** A map that is empty except for one cell away from the border is consistent. */
  lemma SeedConsistent(g: seq<nat>, n: nat, c: int)
    requires 0 < n && |g| == n * n && n <= c && c + n < n * n && c % n != 0 && c % n != n - 1
    requires forall i :: 0 <= i < |g| && i != c ==> g[i] == 0
    ensures Consistent(g, n)
  {
  }

  // Index arithmetic for the neighbours of a cell.

  /** The cell right of a cell that is not in the last column is in the next column. */
  lemma ModNext(i: int, n: nat)
    requires 0 < n && 0 <= i && i % n != n - 1
    ensures (i + 1) % n == i % n + 1 && (i + 1) / n == i / n
  {
    var q, r := i / n, i % n;
    assert i + 1 == n * q + (r + 1);
    DivUnique(i + 1, n, q, r + 1);
  }

  /** The cell left of cell `i` wraps to the last column exactly when `i` is in the first. */
  lemma ModPrev(i: int, n: nat)
    requires 0 < n && 0 < i
    ensures (i - 1) % n == n - 1 <==> i % n == 0
  {
    var q, r := i / n, i % n;
    assert i == n * q + r;
    if r == 0 {
      assert q >= 1;
      assert i - 1 == n * (q - 1) + (n - 1);
      DivUnique(i - 1, n, q - 1, n - 1);
    } else {
      assert i - 1 == n * q + (r - 1);
      DivUnique(i - 1, n, q, r - 1);
    }
  }

  /** The column tests of the sources on a cell of the map, in the linear
      form the neighbour indices need: a cell outside the last column has
      its right neighbour on the map and in the next column, and a cell
      outside the first column has its left neighbour in the previous one. */
  lemma Columns(t: int, n: nat)
    requires 0 < n && 0 <= t < n * n
    ensures 0 <= t % n < n
    ensures t % n != n - 1 ==> t + 1 < n * n && (t + 1) % n != 0
    ensures t % n > 0 ==> t > 0 && (t - 1) % n != n - 1
  {
    assert 0 % n == 0;
    if t % n != n - 1 {
      NextInRange(t, n);
      ModNext(t, n);
    }
    if t % n > 0 {
      ModPrev(t, n);
    }
  }

  /** A cell that is not in the last column has a right neighbour inside the map. */
  lemma NextInRange(i: int, n: nat)
    requires 0 < n && 0 <= i < n * n && i % n != n - 1
    ensures i + 1 < n * n
  {
    var q, r := i / n, i % n;
    assert i == n * q + r;
    if q >= n {
      MulLe(n, n, q);
    } else {
      MulLe(n, q + 1, n);
      assert n * (q + 1) == n * q + n;
    }
  }
}
