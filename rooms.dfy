/**
 * A room of the dungeon: a grid-aligned rectangle with a velocity used by
 * the separation loop, a layer tag and an ordered neighbour list, plus the
 * free functions of Dungeon.py that test and push pairs of rooms.
 */
module Rooms {
  import opened Geometry
  import Neighbours

  /** The three layers a room can be tagged with (VOIDS = 0, HALLS = 5, MAIN_ROOMS = 10). */
  datatype Layer = Void | Hall | MainRoom

  function LayerNumber(l: Layer): int
  {
    match l
    case Void => 0
    case Hall => 5
    case MainRoom => 10
  }

  /** One jitter term `randint(-10, 10) * randint(-1, 1)`: always in [-10, 10]. */
  type Jit = j: int | -10 <= j <= 10

  /** The two jitter terms drawn by one call of `repulse`. */
  datatype Jitter = Jitter(dx: Jit, dy: Jit)

  class Room {
    var rect: Rect
    var velocity: Vec
    var layer: Layer
    var neighbors: seq<Room>
    /** Size in grid units, fixed at construction. */
    const width: int
    const height: int
    /** Interior size of one grid cell; the grid pitch is gridSpacing + 1. */
    const gridSpacing: nat

    /**
     * Room(x, y, width, height, gridSpacing): the pixel size comes from the
     * grid size, the origin is snapped up onto the grid, the velocity is
     * zero, the layer is Void and there are no neighbours. The drawing
     * surface refuses a negative pixel size.
     */
    constructor (x: int, y: int, width: int, height: int, gridSpacing: nat)
      requires GridToScreen(width, gridSpacing) >= 0 && GridToScreen(height, gridSpacing) >= 0
      ensures this.width == width && this.height == height && this.gridSpacing == gridSpacing
      ensures rect == SnapXY(Rect(x, y, GridToScreen(width, gridSpacing), GridToScreen(height, gridSpacing)), gridSpacing)
      ensures OnGrid(rect, gridSpacing)
      ensures velocity == Vec(0, 0) && layer == Void && neighbors == []
    {
      this.width := width;
      this.height := height;
      this.gridSpacing := gridSpacing;
      velocity := Vec(0, 0);
      layer := Void;
      neighbors := [];
      rect := SnapXY(Rect(x, y, GridToScreen(width, gridSpacing), GridToScreen(height, gridSpacing)), gridSpacing);
    }

    /** snapToGrid: rounds x and y up onto the grid and leaves the size alone. */
    method SnapToGrid()
      modifies this`rect
      ensures rect == SnapXY(old(rect), gridSpacing)
      ensures OnGrid(rect, gridSpacing) && rect.w == old(rect).w && rect.h == old(rect).h
    {
      rect := SnapXY(rect, gridSpacing);
    }

    /** move: adds the velocity to the origin. */
    method Move()
      modifies this`rect
      ensures rect == Translate(old(rect), velocity.x, velocity.y)
    {
      rect := Translate(rect, velocity.x, velocity.y);
    }

    /** update: move, then snap onto the grid. */
    method Update()
      modifies this`rect
      ensures rect == SnapXY(Translate(old(rect), velocity.x, velocity.y), gridSpacing)
      ensures OnGrid(rect, gridSpacing)
    {
      Move();
      SnapToGrid();
    }

    /** repulse: adds the offset from `other` to this room, plus the jitter, to the velocity. */
    method Repulse(other: Room, jitter: Jitter)
      modifies this`velocity
      ensures velocity == Vec(old(velocity).x + (rect.x - other.rect.x) + jitter.dx,
                              old(velocity).y + (rect.y - other.rect.y) + jitter.dy)
    {
      var dx := rect.x - other.rect.x;
      var dy := rect.y - other.rect.y;
      velocity := Vec(velocity.x + dx + jitter.dx, velocity.y + dy + jitter.dy);
    }

    /**
     * pickClosestNeighbors: keys the good candidates on their distance
     * (the first candidate with a distance keeps it), takes the `limit`
     * closest keys in ascending order and appends their rooms to the
     * neighbour list, which is first emptied when `reset` is set. Returns the
     * whole neighbour list.
     */
    method PickClosestNeighbors(potentials: seq<Room>, limit: nat, reset: bool) returns (result: seq<Room>)
      modifies this`neighbors
      ensures reset ==> Picked(this, [], potentials, limit) && NoSelfNoDuplicates(this, neighbors)
      ensures !reset ==> Picked(this, old(neighbors), potentials, limit)
      ensures !reset && NoSelfNoDuplicates(this, old(neighbors)) ==> NoSelfNoDuplicates(this, neighbors)
      ensures result == neighbors
    {
      if reset {
        AppendClosest(potentials, limit, []);
      } else {
        AppendClosest(potentials, limit, neighbors);
      }
      result := neighbors;
    }

    /** Sets the neighbour list to `base` followed by the closest good candidates for `base`. */
    method AppendClosest(potentials: seq<Room>, limit: nat, base: seq<Room>)
      modifies this`neighbors
      ensures Picked(this, base, potentials, limit)
      ensures NoSelfNoDuplicates(this, base) ==> NoSelfNoDuplicates(this, neighbors)
    {
      var added := ClosestGood(potentials, limit, base);
      ghost var dm := DistMap(this, potentials);
      neighbors := base + added;
      SameDistMap(dm, DistMap(this, potentials), potentials);
      PickedAppend(dm, this, base, potentials, limit, added);
    }

    /** The rooms pickClosestNeighbors appends to the neighbour list `base`. */
    method ClosestGood(potentials: seq<Room>, limit: nat, base: seq<Room>) returns (added: seq<Room>)
      ensures ClosestPick(DistMap(this, potentials), this, base, potentials, limit, added)
    {
      var hood, idx := Neighborhood(potentials, base);
      ghost var dm := DistMap(this, potentials);
      var m := if limit < |hood| then limit else |hood|;
      added := hood[..m];
      PickFromHood(dm, this, base, potentials, limit, idx, added);
    }

    /**
     * The neighbourhood table of pickClosestNeighbors for the neighbour list
     * `base`, in ascending distance, with the candidate position of each entry.
     */
    method Neighborhood(potentials: seq<Room>, base: seq<Room>) returns (hood: seq<Room>, ghost idx: seq<nat>)
      ensures Neighbours.HoodInv(Keys(DistMap(this, potentials), potentials), GoodFlags(this, base, potentials), |potentials|, idx)
      ensures |hood| == |idx| && forall k :: 0 <= k < |idx| ==> idx[k] < |potentials| && hood[k] == potentials[idx[k]]
    {
      ghost var ds := Keys(DistMap(this, potentials), potentials);
      ghost var good := GoodFlags(this, base, potentials);
      hood, idx := [], [];
      Neighbours.EmptyHood(ds, good);
      var i := 0;
      while i < |potentials|
        invariant 0 <= i <= |potentials|
        invariant Neighbours.HoodInv(ds, good, i, idx)
        invariant |hood| == |idx| && forall k :: 0 <= k < |idx| ==> idx[k] < |potentials| && hood[k] == potentials[idx[k]]
      {
        hood, idx := AddCandidate(potentials, base, i, hood, ds, good, idx);
        i := i + 1;
      }
    }

    /** One step of the table: candidate i is skipped, or inserted by distance. */
    method AddCandidate(potentials: seq<Room>, base: seq<Room>, i: nat, hood: seq<Room>,
                        ghost ds: seq<int>, ghost good: seq<bool>, ghost idx: seq<nat>)
        returns (hood': seq<Room>, ghost idx': seq<nat>)
      requires i < |potentials| && ds == Keys(DistMap(this, potentials), potentials) && good == GoodFlags(this, base, potentials)
      requires Neighbours.HoodInv(ds, good, i, idx)
      requires |hood| == |idx| && forall k :: 0 <= k < |idx| ==> idx[k] < |potentials| && hood[k] == potentials[idx[k]]
      ensures Neighbours.HoodInv(ds, good, i + 1, idx')
      ensures |hood'| == |idx'| && forall k :: 0 <= k < |idx'| ==> idx'[k] < |potentials| && hood'[k] == potentials[idx'[k]]
    {
      ghost var dm := DistMap(this, potentials);
      var p := potentials[i];
      hood', idx' := hood, idx;
      if !(p != this && p !in base) {
        assert !good[i];
        Neighbours.SkipCandidate(ds, good, i, idx);
        return;
      }
      var d := Dist2(rect, p.rect);
      assert good[i] && ds[i] == d;
      var pos := FindSlot(hood, d);
      forall k | 0 <= k < |hood|
        ensures ds[idx[k]] == Dist2(rect, hood[k].rect)
      {
        assert ds[idx[k]] == dm[potentials[idx[k]]];
      }
      if pos < |hood| && Dist2(rect, hood[pos].rect) == d {
        // setdefault: the distance is already a key
        Neighbours.SkipCandidate(ds, good, i, idx);
      } else {
        Neighbours.InsertCandidate(ds, good, i, idx, pos);
        hood' := Neighbours.Insert(hood, pos, p);
        idx' := Neighbours.Insert(idx, pos, i);
        InsertAligned(hood, idx, potentials, pos, i);
      }
    }

    /** The first position in `hood` whose room is not closer than `d`. */
    method FindSlot(hood: seq<Room>, d: int) returns (pos: nat)
      ensures pos <= |hood|
      ensures forall k :: 0 <= k < pos ==> Dist2(rect, hood[k].rect) < d
      ensures pos < |hood| ==> Dist2(rect, hood[pos].rect) >= d
    {
      pos := 0;
      while pos < |hood| && Dist2(rect, hood[pos].rect) < d
        invariant pos <= |hood|
        invariant forall k :: 0 <= k < pos ==> Dist2(rect, hood[k].rect) < d
      {
        pos := pos + 1;
      }
    }
  }

  /** Inserting room i and its position at the same place keeps the table's rooms and positions in step. */
  lemma InsertAligned(hood: seq<Room>, idx: seq<nat>, pots: seq<Room>, pos: nat, i: nat)
    requires i < |pots| && pos <= |hood| == |idx|
    requires forall k :: 0 <= k < |idx| ==> idx[k] < |pots| && hood[k] == pots[idx[k]]
    ensures forall k :: 0 <= k < |idx| + 1 ==>
              Neighbours.Insert(idx, pos, i)[k] < |pots| && Neighbours.Insert(hood, pos, pots[i])[k] == pots[Neighbours.Insert(idx, pos, i)[k]]
  {
  }

  /**
   * The distance key of each candidate: the squared distance between the
   * rooms' centres, read off the rooms' current rectangles.
   */
  ghost function DistMap(self: Room, pots: seq<Room>): (dm: map<Room, int>)
    reads self`rect, pots`rect
    ensures Covers(dm, pots) && forall p :: p in pots ==> dm[p] == Dist2(self.rect, p.rect)
    ensures forall p :: p in dm ==> p in pots
  {
    map p | p in pots :: Dist2(self.rect, p.rect)
  }

  /** Every candidate has a key. */
  predicate Covers(dm: map<Room, int>, pots: seq<Room>)
  {
    forall p :: p in pots ==> p in dm
  }

  /** The keys of the candidates, in candidate order. */
  function Keys(dm: map<Room, int>, pots: seq<Room>): (ds: seq<int>)
    requires Covers(dm, pots)
    ensures |ds| == |pots| && forall j :: 0 <= j < |pots| ==> ds[j] == dm[pots[j]]
  {
    seq(|pots|, j requires 0 <= j < |pots| => dm[pots[j]])
  }

  /** The good-neighbour flag of every candidate, in candidate order. */
  function GoodFlags(self: Room, base: seq<Room>, pots: seq<Room>): (good: seq<bool>)
    ensures |good| == |pots| && forall j :: 0 <= j < |pots| ==> good[j] == Good(self, base, pots[j])
  {
    seq(|pots|, j requires 0 <= j < |pots| => Good(self, base, pots[j]))
  }

  /**
   * The neighbour list of r is `base` followed by what one call of
   * pickClosestNeighbors picks from pots for the list `base`.
   */
  ghost predicate Picked(r: Room, base: seq<Room>, pots: seq<Room>, limit: nat)
    reads r`neighbors, r`rect, pots`rect
  {
    |base| <= |r.neighbors| && r.neighbors[..|base|] == base &&
    ClosestPick(DistMap(r, pots), r, base, pots, limit, r.neighbors[|base|..])
  }

  /** A neighbour list made of `base` and a pick for `base` is Picked. */
  lemma PickedAppend(dm: map<Room, int>, r: Room, base: seq<Room>, pots: seq<Room>, limit: nat, added: seq<Room>)
    requires dm == DistMap(r, pots) && ClosestPick(dm, r, base, pots, limit, added)
    requires r.neighbors == base + added
    ensures Picked(r, base, pots, limit)
    ensures NoSelfNoDuplicates(r, base) ==> NoSelfNoDuplicates(r, r.neighbors)
  {
    AppendPick(dm, r, base, pots, limit, added);
  }

  /** Two maps with the keys and values DistMap promises for the same rectangles are equal. */
  lemma SameDistMap(a: map<Room, int>, b: map<Room, int>, pots: seq<Room>)
    requires forall p :: p in a <==> p in pots
    requires forall p :: p in b <==> p in pots
    requires forall p :: p in pots ==> a[p] == b[p]
    ensures a == b
  {
  }

  /** Good for a room `self` whose neighbour list is `base`: neither `self` nor in `base`. */
  predicate Good(self: Room, base: seq<Room>, p: Room)
  {
    p != self && p !in base
  }

  /** A neighbour list without the room itself and without repeats. */
  predicate NoSelfNoDuplicates(self: Room, ns: seq<Room>)
  {
    self !in ns && forall k, l :: 0 <= k < l < |ns| ==> ns[k] != ns[l]
  }

  /**
   * What one call of pickClosestNeighbors appends, for distance keys `dm`:
   * at most `limit` rooms, each a candidate that is neither the room itself
   * nor already in `base`, pairwise distinct, in strictly increasing
   * distance; on a distance tie the earliest candidate is the one taken; and
   * every good candidate either shares its distance with a taken room or,
   * once `limit` rooms are taken, is farther than all of them.
   */
  predicate ClosestPick(dm: map<Room, int>, self: Room, base: seq<Room>, pots: seq<Room>, limit: nat, added: seq<Room>)
    requires Covers(dm, pots)
  {
    && |added| <= limit
    && PickedGood(self, base, pots, added)
    && (forall k, l :: 0 <= k < l < |added| ==> added[k] != added[l])
    && PickedSorted(dm, self, base, pots, added)
    && PickedFirst(dm, self, base, pots, added)
    && PickedNearest(dm, self, base, pots, limit, added)
  }

  predicate PickedGood(self: Room, base: seq<Room>, pots: seq<Room>, added: seq<Room>)
  {
    forall k :: 0 <= k < |added| ==> added[k] in pots && Good(self, base, added[k])
  }

  predicate PickedSorted(dm: map<Room, int>, self: Room, base: seq<Room>, pots: seq<Room>, added: seq<Room>)
    requires Covers(dm, pots) && PickedGood(self, base, pots, added)
  {
    forall k, l :: 0 <= k < l < |added| ==> dm[added[k]] < dm[added[l]]
  }

  predicate PickedFirst(dm: map<Room, int>, self: Room, base: seq<Room>, pots: seq<Room>, added: seq<Room>)
    requires Covers(dm, pots) && PickedGood(self, base, pots, added)
  {
    forall j, k ::
      (0 <= j < |pots| && 0 <= k < |added| && Good(self, base, pots[j]) && dm[pots[j]] == dm[added[k]]) ==>
      added[k] in pots[..j + 1]
  }

  predicate PickedNearest(dm: map<Room, int>, self: Room, base: seq<Room>, pots: seq<Room>, limit: nat, added: seq<Room>)
    requires Covers(dm, pots) && PickedGood(self, base, pots, added)
  {
    forall j :: 0 <= j < |pots| && Good(self, base, pots[j]) ==>
      (exists k :: 0 <= k < |added| && dm[added[k]] == dm[pots[j]]) ||
      (|added| == limit && forall k :: 0 <= k < |added| ==> dm[added[k]] < dm[pots[j]])
  }

  /** Appending a pick to a neighbour list keeps the list as its prefix, and keeps it free of self and repeats. */
  lemma AppendPick(dm: map<Room, int>, self: Room, base: seq<Room>, pots: seq<Room>, limit: nat, added: seq<Room>)
    requires Covers(dm, pots) && ClosestPick(dm, self, base, pots, limit, added)
    ensures |base| <= |base + added| && (base + added)[..|base|] == base
    ensures ClosestPick(dm, self, base, pots, limit, (base + added)[|base|..])
    ensures NoSelfNoDuplicates(self, base) ==> NoSelfNoDuplicates(self, base + added)
  {
    assert (base + added)[..|base|] == base && (base + added)[|base|..] == added;
    if NoSelfNoDuplicates(self, base) {
      var ns := base + added;
      forall k, l | 0 <= k < l < |ns|
        ensures ns[k] != ns[l]
      {
        if l >= |base| && k < |base| {
          assert ns[l] == added[l - |base|] && ns[k] in base;
        } else if k >= |base| {
          assert ns[k] == added[k - |base|] && ns[l] == added[l - |base|];
        }
      }
      assert self !in added;
    }
  }

  /** Reading the first entries of the complete table off as rooms gives a ClosestPick. */
  lemma PickFromHood(dm: map<Room, int>, self: Room, base: seq<Room>, pots: seq<Room>, limit: nat, idx: seq<nat>, added: seq<Room>)
    requires Covers(dm, pots)
    requires Neighbours.HoodInv(Keys(dm, pots), GoodFlags(self, base, pots), |pots|, idx)
    requires |added| == if limit < |idx| then limit else |idx|
    requires forall k :: 0 <= k < |added| ==> added[k] == pots[idx[k]]
    ensures ClosestPick(dm, self, base, pots, limit, added)
  {
    var ds, good := Keys(dm, pots), GoodFlags(self, base, pots);
    Neighbours.TakeNearest(ds, good, idx, limit, |added|);
    PickSorted(dm, self, base, pots, ds, good, idx, added);
    PickFirst(dm, self, base, pots, ds, good, idx, added);
    PickNearest(dm, self, base, pots, limit, ds, good, idx, added);
  }

  lemma PickSorted(dm: map<Room, int>, self: Room, base: seq<Room>, pots: seq<Room>,
                   ds: seq<int>, good: seq<bool>, idx: seq<nat>, added: seq<Room>)
    requires Covers(dm, pots) && ds == Keys(dm, pots) && good == GoodFlags(self, base, pots)
    requires |good| == |ds| == |pots| && Neighbours.Members(good, |pots|, idx) && Neighbours.Sorted(ds, good, |pots|, idx)
    requires |added| <= |idx| && forall k :: 0 <= k < |added| ==> added[k] == pots[idx[k]]
    ensures PickedGood(self, base, pots, added) && PickedSorted(dm, self, base, pots, added)
    ensures forall k, l :: 0 <= k < l < |added| ==> added[k] != added[l]
  {
    forall k, l | 0 <= k < l < |added|
      ensures dm[added[k]] < dm[added[l]]
    {
      assert ds[idx[k]] < ds[idx[l]];
    }
  }

  lemma PickFirst(dm: map<Room, int>, self: Room, base: seq<Room>, pots: seq<Room>,
                  ds: seq<int>, good: seq<bool>, idx: seq<nat>, added: seq<Room>)
    requires Covers(dm, pots) && ds == Keys(dm, pots) && good == GoodFlags(self, base, pots)
    requires |good| == |ds| == |pots| && Neighbours.Members(good, |pots|, idx) && Neighbours.FirstWins(ds, good, |pots|, idx)
    requires |added| <= |idx| && forall k :: 0 <= k < |added| ==> added[k] == pots[idx[k]]
    requires PickedGood(self, base, pots, added)
    ensures PickedFirst(dm, self, base, pots, added)
  {
    forall j, k | 0 <= j < |pots| && 0 <= k < |added| && Good(self, base, pots[j]) && dm[pots[j]] == dm[added[k]]
      ensures added[k] in pots[..j + 1]
    {
      assert good[j] && ds[j] == ds[idx[k]];
      assert pots[..j + 1][idx[k]] == added[k];
    }
  }

  lemma PickNearest(dm: map<Room, int>, self: Room, base: seq<Room>, pots: seq<Room>, limit: nat,
                    ds: seq<int>, good: seq<bool>, idx: seq<nat>, added: seq<Room>)
    requires Covers(dm, pots) && ds == Keys(dm, pots) && good == GoodFlags(self, base, pots)
    requires |idx| >= |added| && forall k :: 0 <= k < |added| ==> idx[k] < |pots| && added[k] == pots[idx[k]]
    requires PickedGood(self, base, pots, added)
    requires forall j :: 0 <= j < |ds| && good[j] ==>
              (exists k :: 0 <= k < |added| && ds[idx[k]] == ds[j]) ||
              (|added| == limit && forall k :: 0 <= k < |added| ==> ds[idx[k]] < ds[j])
    ensures PickedNearest(dm, self, base, pots, limit, added)
  {
    assert forall k :: 0 <= k < |added| ==> ds[idx[k]] == dm[added[k]];
    forall j | 0 <= j < |pots| && Good(self, base, pots[j])
      ensures (exists k :: 0 <= k < |added| && dm[added[k]] == dm[pots[j]]) ||
              (|added| == limit && forall k :: 0 <= k < |added| ==> dm[added[k]] < dm[pots[j]])
    {
      assert good[j] && ds[j] == dm[pots[j]];
      if exists k :: 0 <= k < |added| && ds[idx[k]] == ds[j] {
        var k :| 0 <= k < |added| && ds[idx[k]] == ds[j];
        assert dm[added[k]] == dm[pots[j]];
      }
    }
  }

  /** collide_rooms: never a room with itself; otherwise the shrunk-rectangle test. */
  predicate CollideRooms(left: Room, right: Room)
    reads left, right
  {
    left != right && ShrunkCollide(left.rect, right.rect)
  }

  /** collide_rooms is irreflexive and symmetric. */
  lemma CollideRoomsIrreflexiveSymmetric(a: Room, b: Room)
    ensures !CollideRooms(a, a)
    ensures CollideRooms(a, b) <==> CollideRooms(b, a)
  {
    ShrunkCollideSymmetric(a.rect, b.rect);
  }

  /** collide_with_voids: the right-hand room is Void and the rooms collide. */
  predicate CollideWithVoids(left: Room, right: Room)
    reads left, right
  {
    right.layer == Void && CollideRooms(left, right)
  }

  /**
   * collide_and_scatter_rooms: on a collision `right` is pushed away from
   * `left`; otherwise `right`'s velocity is zeroed. Only `right.velocity`
   * changes, so `left` is untouched unless it is `right` itself.
   */
  method CollideAndScatterRooms(left: Room, right: Room, jitter: Jitter) returns (hit: bool)
    modifies right`velocity
    ensures hit == CollideRooms(left, right)
    ensures hit ==> right.velocity == Vec(old(right.velocity).x + (right.rect.x - left.rect.x) + jitter.dx,
                                          old(right.velocity).y + (right.rect.y - left.rect.y) + jitter.dy)
    ensures !hit ==> right.velocity == Vec(0, 0)
    ensures left != right ==> left.velocity == old(left.velocity)
  {
    if CollideRooms(left, right) {
      right.Repulse(left, jitter);
      return true;
    }
    right.velocity := Vec(0, 0);
    return false;
  }
}
