/**
 * The void tiling of Dungeon.inFillWithVoids stated over values: the
 * candidate tiles are the 1x1 rooms built at every point of a grid of pitch
 * spacing+1 over the bounds, column by column, and the tiles kept are those
 * that collide with no room already present.
 */
module Tiling {
  import opened Geometry

  /** Python's range(start, stop, step) for a positive step. */
  function Range(start: int, stop: int, step: int): (r: seq<int>)
    requires step > 0
    ensures forall k :: 0 <= k < |r| ==> r[k] == start + k * step && start <= r[k] < stop
    ensures start + |r| * step >= stop
    ensures |r| > 0 ==> start + (|r| - 1) * step < stop
    decreases stop - start
  {
    if start >= stop then []
    else
      var rest := Range(start + step, stop, step);
      assert forall k :: 1 <= k <= |rest| ==> start + k * step == (start + step) + (k - 1) * step;
      [start] + rest
  }

  /** The 1x1 room Room(x, y) of grid spacing `spacing`: gridToScreen(1) pixels square, origin snapped. */
  function Tile(x: int, y: int, spacing: nat): (t: Rect)
    ensures OnGrid(t, spacing) && t.w == spacing + 2 && t.h == spacing + 2
  {
    SnapXY(Rect(x, y, GridToScreen(1, spacing), GridToScreen(1, spacing)), spacing)
  }

  /** One column of tiles at x, for every y of ys in order. */
  function Column(x: int, ys: seq<int>, spacing: nat): (c: seq<Rect>)
    ensures |c| == |ys| && forall j :: 0 <= j < |ys| ==> c[j] == Tile(x, ys[j], spacing)
    decreases |ys|
  {
    if ys == [] then [] else [Tile(x, ys[0], spacing)] + Column(x, ys[1..], spacing)
  }

  /** The columns at every x of xs, in order. */
  function Columns(xs: seq<int>, ys: seq<int>, spacing: nat): seq<Rect>
    decreases |xs|
  {
    if xs == [] then [] else Column(xs[0], ys, spacing) + Columns(xs[1..], ys, spacing)
  }

  /** The x values of the tiling loop over bounds b. */
  function TileXs(b: Rect, spacing: nat): seq<int>
  {
    Range(b.x, b.x + b.w - (spacing + 1), spacing + 1)
  }

  function TileYs(b: Rect, spacing: nat): seq<int>
  {
    Range(b.y, b.y + b.h - (spacing + 1), spacing + 1)
  }

  /** Every candidate tile over bounds b, x-major. */
  function Tiles(b: Rect, spacing: nat): seq<Rect>
  {
    Columns(TileXs(b, spacing), TileYs(b, spacing), spacing)
  }

  /** Tile t collides with none of the rectangles olds. */
  predicate Free(t: Rect, olds: seq<Rect>)
  {
    forall o :: o in olds ==> !ShrunkCollide(t, o)
  }

  /** groupcollide(tiles, rooms, True, False, collide_rooms): the tiles that collide with no room. */
  function Keep(ts: seq<Rect>, olds: seq<Rect>): (r: seq<Rect>)
    ensures forall t :: t in r ==> t in ts && Free(t, olds)
    ensures forall t :: t in ts && Free(t, olds) ==> t in r
    decreases |ts|
  {
    if ts == [] then []
    else if Free(ts[0], olds) then [ts[0]] + Keep(ts[1..], olds)
    else Keep(ts[1..], olds)
  }

  /** No two different positions of the list collide. */
  predicate PairwiseApart(ts: seq<Rect>)
  {
    forall p, q :: 0 <= p < |ts| && 0 <= q < |ts| && p != q ==> !ShrunkCollide(ts[p], ts[q])
  }

  /** Roundm does not decrease. */
  lemma RoundmMonotone(a: int, b: int, m: int)
    requires m > 0 && a <= b
    ensures Roundm(a, m) <= Roundm(b, m)
  {
    RoundmIsLeast(a, m, Roundm(b, m));
  }

  /** Later values of the list are at least g above earlier ones. */
  predicate Gapped(ys: seq<int>, g: int)
  {
    forall p, q :: 0 <= p < q < |ys| ==> ys[p] + g <= ys[q]
  }

  /** The values of range(start, stop, step) are step apart. */
  lemma RangeGapped(start: int, stop: int, step: int)
    requires step > 0
    ensures Gapped(Range(start, stop, step), step)
  {
    var r := Range(start, stop, step);
    forall p, q | 0 <= p < q < |r|
      ensures r[p] + step <= r[q]
    {
      assert r[q] - r[p] == (q - p) * step;
      assert (q - p) * step >= step by { MulAtLeastOnce(q - p, step); }
    }
  }

  lemma MulAtLeastOnce(n: int, step: int)
    requires n >= 1 && step > 0
    ensures n * step >= step
  {
  }

  /** The two rectangles overlap by at most one pixel on some axis. */
  predicate Disjoint(a: Rect, b: Rect)
  {
    a.x + a.w <= b.x + 1 || b.x + b.w <= a.x + 1 || a.y + a.h <= b.y + 1 || b.y + b.h <= a.y + 1
  }

  /** No two different positions of the list overlap by more than a pixel on both axes. */
  predicate PairwiseDisjoint(ts: seq<Rect>)
  {
    forall p, q :: 0 <= p < |ts| && 0 <= q < |ts| && p != q ==> Disjoint(ts[p], ts[q])
  }

  lemma AppendDisjoint(a: seq<Rect>, b: seq<Rect>)
    requires PairwiseDisjoint(a) && PairwiseDisjoint(b)
    requires forall s, t :: s in a && t in b ==> Disjoint(s, t)
    ensures PairwiseDisjoint(a + b)
  {
    var c := a + b;
    forall p, q | 0 <= p < |c| && 0 <= q < |c| && p != q
      ensures Disjoint(c[p], c[q])
    {
      if p < |a| && q < |a| {
        assert c[p] == a[p] && c[q] == a[q];
      } else if p >= |a| && q >= |a| {
        assert c[p] == b[p - |a|] && c[q] == b[q - |a|];
      } else if p < |a| {
        assert c[p] == a[p] && c[p] in a && c[q] == b[q - |a|] && c[q] in b;
      } else {
        assert c[q] == a[q] && c[q] in a && c[p] == b[p - |a|] && c[p] in b;
      }
    }
  }

  /** Rectangles at least two pixels wide and high that are disjoint in this sense do not collide under collide_rooms. */
  lemma DisjointApart(a: Rect, b: Rect)
    requires a.w >= 2 && a.h >= 2 && b.w >= 2 && b.h >= 2 && Disjoint(a, b)
    ensures !ShrunkCollide(a, b)
  {
    if a.x + a.w <= b.x + 1 {
      SeparatedInX(a, b);
    } else if b.x + b.w <= a.x + 1 {
      SeparatedInX(b, a);
    } else if a.y + a.h <= b.y + 1 {
      SeparatedInY(a, b);
    } else {
      SeparatedInY(b, a);
    }
  }

  /** Two tiles whose coordinates are a grid pitch apart touch only along their shared border line. */
  lemma TileBelow(x: int, y: int, x': int, y': int, spacing: nat)
    requires y + spacing + 1 <= y'
    ensures Tile(x, y, spacing).y + Tile(x, y, spacing).h <= Tile(x', y', spacing).y + 1
  {
    RoundmShift(y, 1, spacing + 1);
    RoundmMonotone(y + spacing + 1, y', spacing + 1);
  }

  lemma TileLeft(x: int, y: int, x': int, y': int, spacing: nat)
    requires x + spacing + 1 <= x'
    ensures Tile(x, y, spacing).x + Tile(x, y, spacing).w <= Tile(x', y', spacing).x + 1
  {
    RoundmShift(x, 1, spacing + 1);
    RoundmMonotone(x + spacing + 1, x', spacing + 1);
  }

  /** The tiles of one column are pairwise disjoint. */
  lemma ColumnDisjoint(x: int, ys: seq<int>, spacing: nat)
    requires Gapped(ys, spacing + 1)
    ensures PairwiseDisjoint(Column(x, ys, spacing))
  {
    var c := Column(x, ys, spacing);
    forall p, q | 0 <= p < |c| && 0 <= q < |c| && p != q
      ensures Disjoint(c[p], c[q])
    {
      if p < q {
        TileBelow(x, ys[p], x, ys[q], spacing);
      } else {
        TileBelow(x, ys[q], x, ys[p], spacing);
      }
    }
  }

  /** Every tile of a column at x lies left of every tile of the columns at the later xs. */
  lemma {:induction false} ColumnLeftOfColumns(x: int, xs: seq<int>, ys: seq<int>, spacing: nat)
    requires forall k :: 0 <= k < |xs| ==> x + spacing + 1 <= xs[k]
    ensures forall s, t :: s in Column(x, ys, spacing) && t in Columns(xs, ys, spacing) ==> Disjoint(s, t)
    decreases |xs|
  {
    if xs != [] {
      ColumnLeftOfColumns(x, xs[1..], ys, spacing);
      forall s, t | s in Column(x, ys, spacing) && t in Column(xs[0], ys, spacing)
        ensures Disjoint(s, t)
      {
        var p :| 0 <= p < |ys| && Column(x, ys, spacing)[p] == s;
        var q :| 0 <= q < |ys| && Column(xs[0], ys, spacing)[q] == t;
        TileLeft(x, ys[p], xs[0], ys[q], spacing);
      }
    }
  }

  /** The tiles of all the columns are pairwise disjoint. */
  lemma {:induction false} ColumnsDisjoint(xs: seq<int>, ys: seq<int>, spacing: nat)
    requires Gapped(xs, spacing + 1) && Gapped(ys, spacing + 1)
    ensures PairwiseDisjoint(Columns(xs, ys, spacing))
    decreases |xs|
  {
    if xs != [] {
      var rest := xs[1..];
      assert Gapped(rest, spacing + 1) by {
        forall p, q | 0 <= p < q < |rest|
          ensures rest[p] + spacing + 1 <= rest[q]
        {
          assert rest[p] == xs[p + 1] && rest[q] == xs[q + 1];
        }
      }
      assert forall k :: 0 <= k < |rest| ==> xs[0] + spacing + 1 <= rest[k] by {
        forall k | 0 <= k < |rest|
          ensures xs[0] + spacing + 1 <= rest[k]
        {
          assert rest[k] == xs[k + 1];
        }
      }
      ColumnsDisjoint(rest, ys, spacing);
      ColumnLeftOfColumns(xs[0], rest, ys, spacing);
      ColumnDisjoint(xs[0], ys, spacing);
      AppendDisjoint(Column(xs[0], ys, spacing), Columns(rest, ys, spacing));
    }
  }

  /** Tiles that are pairwise disjoint and at least two pixels in size are pairwise apart. */
  lemma DisjointTilesApart(ts: seq<Rect>, spacing: nat)
    requires PairwiseDisjoint(ts)
    requires forall t :: t in ts ==> t.w == spacing + 2 && t.h == spacing + 2
    ensures PairwiseApart(ts)
  {
    forall p, q | 0 <= p < |ts| && 0 <= q < |ts| && p != q
      ensures !ShrunkCollide(ts[p], ts[q])
    {
      assert ts[p] in ts && ts[q] in ts;
      DisjointApart(ts[p], ts[q]);
    }
  }

  /** No two candidate tiles collide. */
  lemma TilesApart(b: Rect, spacing: nat)
    ensures PairwiseApart(Tiles(b, spacing))
  {
    var xs, ys := TileXs(b, spacing), TileYs(b, spacing);
    RangeGapped(b.x, b.x + b.w - (spacing + 1), spacing + 1);
    RangeGapped(b.y, b.y + b.h - (spacing + 1), spacing + 1);
    ColumnsDisjoint(xs, ys, spacing);
    ColumnsAreTiles(xs, ys, spacing);
    DisjointTilesApart(Columns(xs, ys, spacing), spacing);
  }

  /** Every candidate tile is a 1x1 room on the grid. */
  lemma {:induction false} ColumnsAreTiles(xs: seq<int>, ys: seq<int>, spacing: nat)
    ensures forall t :: t in Columns(xs, ys, spacing) ==> OnGrid(t, spacing) && t.w == spacing + 2 && t.h == spacing + 2
    decreases |xs|
  {
    if xs != [] {
      ColumnsAreTiles(xs[1..], ys, spacing);
    }
  }

  /** Dropping tiles keeps them apart. */
  lemma {:induction false} KeepApart(ts: seq<Rect>, olds: seq<Rect>)
    requires PairwiseApart(ts)
    ensures PairwiseApart(Keep(ts, olds))
    ensures forall k :: 0 <= k < |Keep(ts, olds)| ==> exists p :: 0 <= p < |ts| && Keep(ts, olds)[k] == ts[p]
    decreases |ts|
  {
    if ts != [] {
      var rest := ts[1..];
      TailApart(ts);
      KeepApart(rest, olds);
      var kr := Keep(rest, olds);
      forall k | 0 <= k < |kr|
        ensures exists p :: 0 < p < |ts| && kr[k] == ts[p]
      {
        var p :| 0 <= p < |rest| && kr[k] == rest[p];
        assert kr[k] == ts[p + 1];
      }
      if Free(ts[0], olds) {
        ConsApart(ts, kr);
      }
    }
  }

  lemma TailApart(ts: seq<Rect>)
    requires ts != [] && PairwiseApart(ts)
    ensures PairwiseApart(ts[1..])
  {
    var rest := ts[1..];
    forall p, q | 0 <= p < |rest| && 0 <= q < |rest| && p != q
      ensures !ShrunkCollide(rest[p], rest[q])
    {
      assert rest[p] == ts[p + 1] && rest[q] == ts[q + 1];
    }
  }

  /** The first tile is apart from tiles drawn from the rest of the list. */
  lemma ConsApart(ts: seq<Rect>, kr: seq<Rect>)
    requires ts != [] && PairwiseApart(ts) && PairwiseApart(kr)
    requires forall k :: 0 <= k < |kr| ==> exists p :: 0 < p < |ts| && kr[k] == ts[p]
    ensures PairwiseApart([ts[0]] + kr)
  {
    var r := [ts[0]] + kr;
    forall p, q | 0 <= p < |r| && 0 <= q < |r| && p != q
      ensures !ShrunkCollide(r[p], r[q])
    {
      if p == 0 {
        var q' :| 0 < q' < |ts| && kr[q - 1] == ts[q'];
      } else if q == 0 {
        var p' :| 0 < p' < |ts| && kr[p - 1] == ts[p'];
      } else {
        assert r[p] == kr[p - 1] && r[q] == kr[q - 1];
      }
    }
  }

  /**
   * The voids added by inFillWithVoids: 1x1 rooms on the grid that collide
   * neither with each other nor with any room already present.
   */
  lemma VoidsFit(b: Rect, spacing: nat, olds: seq<Rect>)
    ensures var vs := Keep(Tiles(b, spacing), olds);
      PairwiseApart(vs) &&
      forall v :: v in vs ==> OnGrid(v, spacing) && v.w == spacing + 2 && v.h == spacing + 2 &&
                              forall o :: o in olds ==> !ShrunkCollide(v, o)
  {
    TilesApart(b, spacing);
    KeepApart(Tiles(b, spacing), olds);
    ColumnsAreTiles(TileXs(b, spacing), TileYs(b, spacing), spacing);
  }

  /** The columns of xs + [x]: those of xs, then the column at x. */
  lemma {:induction false} ColumnsAppend(xs: seq<int>, x: int, ys: seq<int>, spacing: nat)
    ensures Columns(xs + [x], ys, spacing) == Columns(xs, ys, spacing) + Column(x, ys, spacing)
    decreases |xs|
  {
    if xs == [] {
      assert [x][1..] == [];
    } else {
      assert (xs + [x])[1..] == xs[1..] + [x];
      ColumnsAppend(xs[1..], x, ys, spacing);
    }
  }

  /** Filtering ts + [t]: the survivors of ts, then t if it collides with no old rectangle. */
  lemma {:induction false} KeepAppend(ts: seq<Rect>, t: Rect, olds: seq<Rect>)
    ensures Keep(ts + [t], olds) == Keep(ts, olds) + if Free(t, olds) then [t] else []
    decreases |ts|
  {
    if ts == [] {
      assert [t][1..] == [];
    } else {
      assert (ts + [t])[1..] == ts[1..] + [t];
      KeepAppend(ts[1..], t, olds);
    }
  }
}
