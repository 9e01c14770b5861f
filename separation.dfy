/**
 * The separation loop of Dungeon.spreadOutRooms, stated over values: each
 * room is a Body (its rectangle and its velocity) and the layout is the
 * sequence of bodies in the room list's order. The Dungeon class runs the
 * loop on its rooms and is proved to follow these functions step by step.
 *
 * The random jitter of `repulse` is a parameter: `jit(n, i, j)` is the pair
 * of jitter terms drawn when, in sweep n, room i pushes room j.
 */
module Separation {
  import opened Geometry
  import opened Rooms

  datatype Body = Body(rect: Rect, vel: Vec)

  /** Where a call of spreadOutRooms ended: its return value, or still running when the sweep budget ran out. */
  datatype Outcome = Returned(value: bool) | OutOfFuel

  /** update: move by the velocity, then snap the origin onto the grid. */
  function Moved(b: Body, spacing: nat): Body
  {
    b.(rect := SnapXY(Translate(b.rect, b.vel.x, b.vel.y), spacing))
  }

  /** rooms.update: every body moves and snaps; velocities stay. */
  function UpdateAll(bs: seq<Body>, spacing: nat): (r: seq<Body>)
    ensures |r| == |bs|
    ensures forall k :: 0 <= k < |bs| ==> r[k] == Moved(bs[k], spacing)
  {
    seq(|bs|, k requires 0 <= k < |bs| => Moved(bs[k], spacing))
  }

  /** stopRooms: every velocity becomes zero and every origin is snapped. */
  function StopAll(bs: seq<Body>, spacing: nat): (r: seq<Body>)
    ensures |r| == |bs|
    ensures forall k :: 0 <= k < |bs| ==> r[k] == Body(SnapXY(bs[k].rect, spacing), Vec(0, 0))
  {
    seq(|bs|, k requires 0 <= k < |bs| => Body(SnapXY(bs[k].rect, spacing), Vec(0, 0)))
  }

  /** Rooms at positions i and j collide under collide_rooms (they are distinct rooms when i != j). */
  predicate Hits(bs: seq<Body>, i: nat, j: nat)
    requires i < |bs| && j < |bs|
  {
    i != j && ShrunkCollide(bs[i].rect, bs[j].rect)
  }

  /** Body j after collide_and_scatter_rooms(room i, room j). */
  function Scattered(bs: seq<Body>, i: nat, j: nat, jt: Jitter): Body
    requires i < |bs| && j < |bs|
  {
    if Hits(bs, i, j) then
      bs[j].(vel := Vec(bs[j].vel.x + (bs[j].rect.x - bs[i].rect.x) + jt.dx,
                        bs[j].vel.y + (bs[j].rect.y - bs[i].rect.y) + jt.dy))
    else
      bs[j].(vel := Vec(0, 0))
  }

  /**
   * spritecollide(room i, rooms, False, collide_and_scatter_rooms): every
   * room j, room i included, is tested against room i and pushed or stopped.
   * No rectangle moves during the row, so each body's new value depends only
   * on its own old value and room i's rectangle.
   */
  function ScatterRow(bs: seq<Body>, i: nat, jit: (nat, nat, nat) -> Jitter, n: nat): (r: seq<Body>)
    requires i < |bs|
    ensures |r| == |bs|
    ensures forall j :: 0 <= j < |bs| ==> r[j] == Scattered(bs, i, j, jit(n, i, j))
  {
    seq(|bs|, j requires 0 <= j < |bs| => Scattered(bs, i, j, jit(n, i, j)))
  }

  /** Room i collides with some other room: spritecollide returned a non-empty list. */
  predicate RowHit(bs: seq<Body>, i: nat)
    requires i < |bs|
  {
    exists j :: 0 <= j < |bs| && Hits(bs, i, j)
  }

  /** The rows from i on of one sweep, stopping after the first row that found a collision. */
  function Sweep(bs: seq<Body>, i: nat, jit: (nat, nat, nat) -> Jitter, n: nat): (seq<Body>, bool)
    decreases |bs| - i
  {
    if i >= |bs| then (bs, false)
    else if RowHit(bs, i) then (ScatterRow(bs, i, jit, n), true)
    else Sweep(ScatterRow(bs, i, jit, n), i + 1, jit, n)
  }

  /** One pass of the `while not done` loop: update every room, then sweep. */
  function Step(bs: seq<Body>, spacing: nat, jit: (nat, nat, nat) -> Jitter, n: nat): (seq<Body>, bool)
  {
    Sweep(UpdateAll(bs, spacing), 0, jit, n)
  }

  /**
   * spreadOutRooms with at most `fuel` passes, the first numbered n: stops
   * and returns True after a pass without collisions, returns False after a
   * pass with one when a surface is given, and otherwise goes round again.
   */
  function Spread(bs: seq<Body>, spacing: nat, surface: bool, fuel: nat,
                  jit: (nat, nat, nat) -> Jitter, n: nat): (seq<Body>, Outcome)
    decreases fuel
  {
    if fuel == 0 then (bs, OutOfFuel)
    else
      var (bs', hit) := Step(bs, spacing, jit, n);
      if !hit then (StopAll(bs', spacing), Returned(true))
      else if surface then (bs', Returned(false))
      else Spread(bs', spacing, surface, fuel - 1, jit, n + 1)
  }

  /** The same rectangles, in the same order. */
  predicate SameRects(a: seq<Body>, b: seq<Body>)
  {
    |a| == |b| && forall k :: 0 <= k < |a| ==> a[k].rect == b[k].rect
  }

  /** No two rooms collide under collide_rooms. */
  predicate Separated(bs: seq<Body>)
  {
    forall i, j :: 0 <= i < |bs| && 0 <= j < |bs| && i != j ==> !ShrunkCollide(bs[i].rect, bs[j].rect)
  }

  predicate AtRest(bs: seq<Body>)
  {
    forall k :: 0 <= k < |bs| ==> bs[k].vel == Vec(0, 0)
  }

  predicate AllOnGrid(bs: seq<Body>, spacing: nat)
  {
    forall k :: 0 <= k < |bs| ==> OnGrid(bs[k].rect, spacing)
  }

  /** A sweep moves no rectangle; a sweep without a hit leaves no colliding pair and, when any row ran, every velocity zero. */
  lemma {:induction false} SweepFacts(bs: seq<Body>, i: nat, jit: (nat, nat, nat) -> Jitter, n: nat)
    requires i <= |bs|
    requires forall k :: 0 <= k < i ==> !RowHit(bs, k)
    requires 0 < i ==> AtRest(bs)
    ensures SameRects(Sweep(bs, i, jit, n).0, bs)
    ensures !Sweep(bs, i, jit, n).1 ==> Separated(Sweep(bs, i, jit, n).0)
    ensures !Sweep(bs, i, jit, n).1 && 0 < |bs| ==> AtRest(Sweep(bs, i, jit, n).0)
    decreases |bs| - i
  {
    if i < |bs| && !RowHit(bs, i) {
      var bs' := ScatterRow(bs, i, jit, n);
      assert SameRects(bs', bs);
      forall k | 0 <= k < i + 1
        ensures !RowHit(bs', k)
      {
        assert !RowHit(bs, k);
        forall j | 0 <= j < |bs|
          ensures !Hits(bs', k, j)
        {
          assert !Hits(bs, k, j);
        }
      }
      forall j | 0 <= j < |bs|
        ensures bs'[j].vel == Vec(0, 0)
      {
        assert !Hits(bs, i, j);
      }
      SweepFacts(bs', i + 1, jit, n);
    } else if i == |bs| {
      forall a, b | 0 <= a < |bs| && 0 <= b < |bs| && a != b
        ensures !ShrunkCollide(bs[a].rect, bs[b].rect)
      {
        assert !RowHit(bs, a);
        assert !Hits(bs, a, b);
      }
    }
  }

  /** After a pass every room is on the grid. */
  lemma StepOnGrid(bs: seq<Body>, spacing: nat, jit: (nat, nat, nat) -> Jitter, n: nat)
    ensures AllOnGrid(Step(bs, spacing, jit, n).0, spacing)
    ensures |Step(bs, spacing, jit, n).0| == |bs|
  {
    SweepFacts(UpdateAll(bs, spacing), 0, jit, n);
  }

  /**
   * spreadOutRooms returns True only after a pass in which no pair
   * collided: the final layout is then collision-free, on the grid and at
   * rest.
   */
  lemma {:induction false} SpreadSettles(bs: seq<Body>, spacing: nat, surface: bool, fuel: nat,
                                         jit: (nat, nat, nat) -> Jitter, n: nat)
    requires Spread(bs, spacing, surface, fuel, jit, n).1 == Returned(true)
    ensures var r := Spread(bs, spacing, surface, fuel, jit, n).0;
      |r| == |bs| && Separated(r) && AllOnGrid(r, spacing) && AtRest(r)
    decreases fuel
  {
    var (bs', hit) := Step(bs, spacing, jit, n);
    StepOnGrid(bs, spacing, jit, n);
    SweepFacts(UpdateAll(bs, spacing), 0, jit, n);
    if !hit {
      StopKeepsPositions(bs', spacing);
    } else {
      SpreadSettles(bs', spacing, surface, fuel - 1, jit, n + 1);
    }
  }

  /** stopRooms moves no room of a layout that is on the grid. */
  lemma StopKeepsPositions(bs: seq<Body>, spacing: nat)
    requires AllOnGrid(bs, spacing)
    ensures SameRects(StopAll(bs, spacing), bs) && AtRest(StopAll(bs, spacing))
  {
    forall k | 0 <= k < |bs|
      ensures StopAll(bs, spacing)[k].rect == bs[k].rect
    {
      SnapXYFixesGrid(bs[k].rect, spacing);
    }
  }

  /** With a surface, spreadOutRooms makes exactly one pass and returns whether it found no collision. */
  lemma SpreadWithSurface(bs: seq<Body>, spacing: nat, fuel: nat, jit: (nat, nat, nat) -> Jitter, n: nat)
    requires fuel > 0
    ensures var (r, hit) := Step(bs, spacing, jit, n);
      Spread(bs, spacing, true, fuel, jit, n) == (if hit then (r, Returned(false)) else (StopAll(r, spacing), Returned(true)))
  {
  }

  /**
   * A layout that is on the grid, at rest and collision-free is a fixed
   * point: spreadOutRooms returns True at once and changes nothing.
   */
  lemma SettledIsFixedPoint(bs: seq<Body>, spacing: nat, surface: bool, fuel: nat,
                            jit: (nat, nat, nat) -> Jitter, n: nat)
    requires fuel > 0 && AllOnGrid(bs, spacing) && AtRest(bs) && Separated(bs)
    ensures Spread(bs, spacing, surface, fuel, jit, n) == (bs, Returned(true))
  {
    var u := UpdateAll(bs, spacing);
    forall k | 0 <= k < |bs|
      ensures u[k] == bs[k]
    {
      SnapXYFixesGrid(bs[k].rect, spacing);
      assert Translate(bs[k].rect, 0, 0) == bs[k].rect;
    }
    assert u == bs;
    if 0 < |bs| {
      var r := ScatterRow(bs, 0, jit, n);
      assert r == bs by {
        forall j | 0 <= j < |bs|
          ensures r[j] == bs[j]
        {
          assert !Hits(bs, 0, j);
        }
      }
      SweepStops(bs, 1, jit, n);
    }
    var r := StopAll(bs, spacing);
    forall k | 0 <= k < |bs|
      ensures r[k] == bs[k]
    {
      SnapXYFixesGrid(bs[k].rect, spacing);
    }
    assert r == bs;
  }

  /** On an at-rest, collision-free layout the remaining rows change nothing and find nothing. */
  lemma {:induction false} SweepStops(bs: seq<Body>, i: nat, jit: (nat, nat, nat) -> Jitter, n: nat)
    requires i <= |bs| && AtRest(bs) && Separated(bs)
    ensures Sweep(bs, i, jit, n) == (bs, false)
    decreases |bs| - i
  {
    if i < |bs| {
      var r := ScatterRow(bs, i, jit, n);
      assert r == bs by {
        forall j | 0 <= j < |bs|
          ensures r[j] == bs[j]
        {
          assert !Hits(bs, i, j);
        }
      }
      SweepStops(bs, i + 1, jit, n);
    }
  }
}
