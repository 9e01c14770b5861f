/**
 * The Dungeon: an ordered list of rooms (the sprite group, in its
 * iteration order) with the layout passes of Dungeon.py. Each pass changes
 * the rooms in place and is proved to follow a value-level definition
 * (Separation, Classify, Tiling, Corridors) on snapshots of the rooms.
 */
module Dungeons {
  import opened Wrappers
  import opened Geometry
  import opened Rooms
  import Separation
  import Classify
  import Tiling
  import Corridors


  /** The rectangles of a room list, in order. */
  function RectsOf(rs: seq<Room>): (r: seq<Rect>)
    reads rs`rect
    ensures |r| == |rs| && forall k :: 0 <= k < |rs| ==> r[k] == rs[k].rect
    decreases |rs|
  {
    if rs == [] then [] else [rs[0].rect] + RectsOf(rs[1..])
  }

  /** Two sequences that agree at every index are equal. */
  lemma SameSeq<T>(a: seq<T>, b: seq<T>)
    requires |a| == |b| && forall j :: 0 <= j < |a| ==> a[j] == b[j]
    ensures a == b
  {
  }

  /** No room occurs twice in the list. */
  predicate Distinct(rs: seq<Room>)
  {
    forall i, j :: 0 <= i < |rs| && 0 <= j < |rs| && i != j ==> rs[i] != rs[j]
  }

  class Dungeon {
    /** Size of the target surface in pixels. */
    const width: int
    const height: int
    /** Largest room size in grid units, used when rooms are seeded. */
    const maxWidth: int
    const maxHeight: int
    const gridSpacing: nat
    const rect: Rect
    /** The room group, in iteration order. */
    var rooms: seq<Room>

    /** Dungeon(width, height, maxRoomWidth, maxRoomHeight, gridSpacing): no rooms yet. */
    constructor (width: int, height: int, maxRoomWidth: int, maxRoomHeight: int, gridSpacing: nat)
      ensures this.width == width && this.height == height && this.gridSpacing == gridSpacing
      ensures maxWidth == maxRoomWidth && maxHeight == maxRoomHeight
      ensures rect == Rect(0, 0, width, height) && rooms == []
      ensures Valid()
    {
      this.width := width;
      this.height := height;
      this.gridSpacing := gridSpacing;
      maxWidth := maxRoomWidth;
      maxHeight := maxRoomHeight;
      rect := Rect(0, 0, width, height);
      rooms := [];
    }

    /** Every room occurs once and lives on the dungeon's grid. */
    predicate Valid()
      reads this, rooms
    {
      Distinct(rooms) && forall k :: 0 <= k < |rooms| ==> rooms[k].gridSpacing == gridSpacing
    }

    /**
     * The body of addRandomRoom once its random draws are made: a new Void
     * room of w x h grid units at (x, y) joins the end of the group.
     */
    method AddRoom(x: int, y: int, w: int, h: int) returns (room: Room)
      requires Valid() && 1 <= w && 1 <= h
      modifies this`rooms
      ensures fresh(room) && rooms == old(rooms) + [room] && Valid()
      ensures room.rect == SnapXY(Rect(x, y, GridToScreen(w, gridSpacing), GridToScreen(h, gridSpacing)), gridSpacing)
      ensures room.layer == Void && room.velocity == Vec(0, 0) && room.neighbors == []
      ensures room.width == w && room.height == h
    {
      room := new Room(x, y, w, h, gridSpacing);
      rooms := rooms + [room];
    }

    /** bound: the union of all room rectangles, or None when there are no rooms. */
    function Bound(): (b: Option<Rect>)
      reads this, rooms
      ensures b == BoundOf(RectsOf(rooms))
    {
      BoundOf(RectsOf(rooms))
    }

    /**
     * setRoomType: tags the room with the layer. The list keeps its order;
     * the sprite group instead moves the room to the end of its new layer,
     * which no modelled pass reads.
     */
    method SetRoomType(room: Room, layer: Layer)
      modifies room`layer
      ensures room.layer == layer
    {
      room.layer := layer;
    }

    /**
     * centerIn: moves every room by the offset from the bound's centre to
     * the target's centre, so that the new bound is centred on the target.
     * The rooms are not snapped again, so they may leave the grid.
     */
    method CenterIn(target: Rect)
      requires Valid() && |rooms| > 0
      modifies rooms`rect
      ensures Valid()
      ensures RectsOf(rooms) == CenteredLayout(old(RectsOf(rooms)), target)
      ensures Bound().Some? && CenterX(Bound().value) == CenterX(target) && CenterY(Bound().value) == CenterY(target)
    {
      ghost var rs0 := RectsOf(rooms);
      var d := CentreOffset(RectsOf(rooms), target);
      Shift(d.x, d.y);
      CenteredLayoutIsCentred(rs0, target);
    }

    /** Moves every room by (dx, dy). */
    method Shift(dx: int, dy: int)
      requires Valid()
      modifies rooms`rect
      ensures Valid()
      ensures RectsOf(rooms) == TranslateAll(old(RectsOf(rooms)), dx, dy)
    {
      ghost var rs0 := RectsOf(rooms);
      var i := 0;
      while i < |rooms|
        invariant 0 <= i <= |rooms|
        invariant forall k :: 0 <= k < |rooms| ==> rooms[k].rect == if k < i then Translate(rs0[k], dx, dy) else rs0[k]
      {
        rooms[i].rect := Translate(rooms[i].rect, dx, dy);
        i := i + 1;
      }
      assert RectsOf(rooms) == TranslateAll(rs0, dx, dy);
    }

    /** mainRooms, halls, voids: the rooms of one layer, in group order. */
    function RoomsIn(l: Layer): (r: seq<Room>)
      reads this`rooms, rooms`layer
      ensures forall k :: 0 <= k < |r| ==> r[k] in rooms && r[k].layer == l
      ensures forall k :: 0 <= k < |rooms| && rooms[k].layer == l ==> rooms[k] in r
    {
      InLayer(rooms, l)
    }

    /** The total width and height of the rooms, in pixels. */
    method SumSizes() returns (sw: int, sh: int)
      ensures sw == Classify.SumW(RectsOf(rooms)) && sh == Classify.SumH(RectsOf(rooms))
    {
      ghost var rs := RectsOf(rooms);
      sw, sh := 0, 0;
      var i := 0;
      while i < |rooms|
        invariant 0 <= i <= |rooms|
        invariant sw == Classify.SumW(rs[..i]) && sh == Classify.SumH(rs[..i])
      {
        assert rs[..i + 1][..i] == rs[..i];
        sw := sw + rooms[i].rect.w;
        sh := sh + rooms[i].rect.h;
        i := i + 1;
      }
      assert rs[..i] == rs;
    }

    /**
     * pickMainRooms(num/den): a room narrower or lower than the ratio times
     * the average size becomes Void, every other room becomes a MainRoom,
     * and the main rooms are returned. The average divides by the number of
     * rooms, so there must be one.
     */
    method PickMainRooms(num: int, den: int) returns (mains: seq<Room>)
      requires Valid() && |rooms| > 0 && den > 0
      modifies rooms`layer
      ensures Valid()
      ensures forall k :: 0 <= k < |rooms| ==>
                rooms[k].layer == if Classify.MainFlags(RectsOf(rooms), num, den)[k] then MainRoom else Void
      ensures mains == RoomsIn(MainRoom)
    {
      var sw, sh := SumSizes();
      var n := |rooms|;
      ghost var rs := RectsOf(rooms);
      ghost var flags := Classify.MainFlags(rs, num, den);
      var i := 0;
      assert |flags| == n;
      while i < n
        invariant 0 <= i <= n == |flags| == |rooms|
        invariant forall k :: 0 <= k < i ==> rooms[k].layer == if flags[k] then MainRoom else Void
      {
        assert flags[i] == Classify.IsMain(rooms[i].rect, num, den, sw, sh, n);
        TagRoom(i, num, den, sw, sh, flags);
        i := i + 1;
      }
      SameSeq(RectsOf(rooms), rs);
      mains := RoomsIn(MainRoom);
    }

    /** The loop body of pickMainRooms: room i is tagged, and the rooms before it keep their tags. */
    method TagRoom(i: nat, num: int, den: int, sw: int, sh: int, ghost flags: seq<bool>)
      requires Distinct(rooms) && i < |rooms| == |flags|
      requires flags[i] == Classify.IsMain(rooms[i].rect, num, den, sw, sh, |rooms|)
      requires forall k :: 0 <= k < i ==> rooms[k].layer == if flags[k] then MainRoom else Void
      modifies rooms`layer
      ensures forall k :: 0 <= k < i + 1 ==> rooms[k].layer == if flags[k] then MainRoom else Void
    {
      var r := rooms[i];
      TagBySize(r, num, den, |rooms|, sw, sh);
      forall k | 0 <= k < i
        ensures rooms[k].layer == if flags[k] then MainRoom else Void
      {
        assert rooms[k] != r;
      }
    }

    /** One step of pickMainRooms: a room narrower or lower than the threshold becomes Void, any other a MainRoom. */
    method TagBySize(r: Room, num: int, den: int, n: int, sw: int, sh: int)
      modifies r`layer
      ensures r.layer == if Classify.IsMain(r.rect, num, den, sw, sh, n) then MainRoom else Void
    {
      if r.rect.w * den * n < num * sw || r.rect.h * den * n < num * sh {
        SetRoomType(r, Void);
      } else {
        SetRoomType(r, MainRoom);
      }
    }

    /**
     * findMainRoomNeighbors(maxEdges): every main room, in group order,
     * appends to its neighbour list the closest main rooms it does not yet
     * list (pickClosestNeighbors without reset). No other room changes.
     */
    method FindMainRoomNeighbors(maxEdges: nat)
      requires Valid()
      modifies rooms`neighbors
      ensures Valid()
      ensures var ms := RoomsIn(MainRoom);
        forall k :: 0 <= k < |ms| ==> Picked(ms[k], old(ms[k].neighbors), ms, maxEdges)
      ensures forall k :: 0 <= k < |rooms| && rooms[k].layer != MainRoom ==> rooms[k].neighbors == old(rooms[k].neighbors)
    {
      var ms := RoomsIn(MainRoom);
      InLayerDistinct(rooms, MainRoom);
      PickAll(ms, maxEdges);
      assert RoomsIn(MainRoom) == ms;
    }

    /** Every room of ms, in order, runs pickClosestNeighbors(ms, maxEdges). */
    method PickAll(ms: seq<Room>, maxEdges: nat)
      requires Distinct(ms)
      modifies ms`neighbors
      ensures forall k :: 0 <= k < |ms| ==> Picked(ms[k], old(ms[k].neighbors), ms, maxEdges)
    {
      ghost var olds := NeighborsOf(ms);
      var i := 0;
      while i < |ms|
        invariant 0 <= i <= |ms|
        invariant forall k :: 0 <= k < i ==> Picked(ms[k], olds[k], ms, maxEdges)
        invariant forall k :: i <= k < |ms| ==> ms[k].neighbors == olds[k]
      {
        PickOne(ms, i, maxEdges, olds);
        i := i + 1;
      }
    }

    /** stopRooms: every velocity becomes zero and every origin is snapped onto the grid. */
    method StopRooms()
      requires Valid()
      modifies rooms`velocity, rooms`rect
      ensures Valid()
      ensures BodiesOf(rooms) == Separation.StopAll(old(BodiesOf(rooms)), gridSpacing)
    {
      ghost var bs := BodiesOf(rooms);
      var i := 0;
      while i < |rooms|
        invariant 0 <= i <= |rooms|
        invariant forall k :: 0 <= k < |rooms| ==>
                    Separation.Body(rooms[k].rect, rooms[k].velocity) ==
                      if k < i then Separation.StopAll(bs, gridSpacing)[k] else bs[k]
      {
        rooms[i].velocity := Vec(0, 0);
        rooms[i].SnapToGrid();
        i := i + 1;
      }
      assert BodiesOf(rooms) == Separation.StopAll(bs, gridSpacing);
    }

    /** rooms.update: every room moves by its velocity and snaps onto the grid. */
    method UpdateRooms()
      requires Valid()
      modifies rooms`rect
      ensures Valid()
      ensures BodiesOf(rooms) == Separation.UpdateAll(old(BodiesOf(rooms)), gridSpacing)
    {
      ghost var bs := BodiesOf(rooms);
      var i := 0;
      while i < |rooms|
        invariant 0 <= i <= |rooms|
        invariant forall k :: 0 <= k < |rooms| ==>
                    Separation.Body(rooms[k].rect, rooms[k].velocity) ==
                      if k < i then Separation.UpdateAll(bs, gridSpacing)[k] else bs[k]
      {
        rooms[i].Update();
        i := i + 1;
      }
      assert BodiesOf(rooms) == Separation.UpdateAll(bs, gridSpacing);
    }

    /**
     * spritecollide(rooms[i], rooms, False, collide_and_scatter_rooms): room
     * i pushes every room it collides with away and stops every other room,
     * itself included; the result says whether it collided with any room.
     */
    method CollideRow(i: nat, jit: (nat, nat, nat) -> Jitter, n: nat) returns (hit: bool)
      requires Valid() && i < |rooms|
      modifies rooms`velocity
      ensures Valid()
      ensures BodiesOf(rooms) == Separation.ScatterRow(old(BodiesOf(rooms)), i, jit, n)
      ensures hit == Separation.RowHit(old(BodiesOf(rooms)), i)
    {
      ghost var bs := BodiesOf(rooms);
      ghost var row := Separation.ScatterRow(bs, i, jit, n);
      var room := rooms[i];
      hit := false;
      var j := 0;
      while j < |rooms|
        invariant 0 <= j <= |rooms|
        invariant forall k :: 0 <= k < |rooms| ==>
                    Separation.Body(rooms[k].rect, rooms[k].velocity) == if k < j then row[k] else bs[k]
        invariant hit <==> exists k :: 0 <= k < j && Separation.Hits(bs, i, k)
      {
        var h := ScatterStep(room, i, j, jit, n, bs, row);
        hit := hit || h;
        j := j + 1;
      }
      assert BodiesOf(rooms) == row;
    }

    /** collide_and_scatter_rooms(rooms[i], rooms[j]) inside the row of room i. */
    method ScatterStep(room: Room, i: nat, j: nat, jit: (nat, nat, nat) -> Jitter, n: nat,
                       ghost bs: seq<Separation.Body>, ghost row: seq<Separation.Body>) returns (h: bool)
      requires Valid() && i < |rooms| && j < |rooms| && room == rooms[i]
      requires |bs| == |rooms| && row == Separation.ScatterRow(bs, i, jit, n)
      requires forall k :: 0 <= k < |rooms| ==>
                 Separation.Body(rooms[k].rect, rooms[k].velocity) == if k < j then row[k] else bs[k]
      modifies rooms`velocity
      ensures Valid()
      ensures forall k :: 0 <= k < |rooms| ==>
                Separation.Body(rooms[k].rect, rooms[k].velocity) == if k <= j then row[k] else bs[k]
      ensures h == Separation.Hits(bs, i, j)
    {
      var other := rooms[j];
      assert room.rect == bs[i].rect && other.rect == bs[j].rect && other.velocity == bs[j].vel;
      assert (room == other) == (i == j);
      h := CollideAndScatterRooms(room, other, jit(n, i, j));
      assert Separation.Body(other.rect, other.velocity) == row[j];
      forall k | 0 <= k < |rooms| && k != j
        ensures rooms[k].velocity == old(rooms[k].velocity)
      {
        assert rooms[k] != other;
      }
    }

    /**
     * One sweep of the separation loop: the rooms in order run their row
     * until one of them collides with some room.
     */
    method SweepRooms(jit: (nat, nat, nat) -> Jitter, n: nat) returns (hit: bool)
      requires Valid()
      modifies rooms`velocity
      ensures Valid()
      ensures BodiesOf(rooms) == Separation.Sweep(old(BodiesOf(rooms)), 0, jit, n).0
      ensures hit == Separation.Sweep(old(BodiesOf(rooms)), 0, jit, n).1
    {
      ghost var target := Separation.Sweep(BodiesOf(rooms), 0, jit, n);
      hit := false;
      var i := 0;
      while i < |rooms|
        invariant 0 <= i <= |rooms|
        invariant Separation.Sweep(BodiesOf(rooms), i, jit, n) == target
      {
        ghost var bs := BodiesOf(rooms);
        hit := CollideRow(i, jit, n);
        if hit {
          return;
        }
        assert Separation.Sweep(bs, i, jit, n) == Separation.Sweep(BodiesOf(rooms), i + 1, jit, n);
        i := i + 1;
      }
    }

    /**
     * spreadOutRooms(surface) with at most `fuel` passes: repeats update and
     * sweep until a sweep finds no collision, then stops every room and
     * returns true; with a surface it returns false after the first sweep
     * that found one. Pass n draws its jitter from jit(n, _, _).
     */
    method SpreadOutRooms(surface: bool, fuel: nat, jit: (nat, nat, nat) -> Jitter) returns (outcome: Separation.Outcome)
      requires Valid()
      modifies rooms`rect, rooms`velocity
      ensures Valid()
      ensures BodiesOf(rooms) == Separation.Spread(old(BodiesOf(rooms)), gridSpacing, surface, fuel, jit, 0).0
      ensures outcome == Separation.Spread(old(BodiesOf(rooms)), gridSpacing, surface, fuel, jit, 0).1
      ensures outcome == Separation.Returned(true) ==>
                forall i, j :: 0 <= i < |rooms| && 0 <= j < |rooms| ==> !CollideRooms(rooms[i], rooms[j])
      ensures outcome == Separation.Returned(true) ==>
                forall k :: 0 <= k < |rooms| ==> rooms[k].velocity == Vec(0, 0) && OnGrid(rooms[k].rect, gridSpacing)
    {
      ghost var bs0 := BodiesOf(rooms);
      outcome := SpreadLoop(surface, fuel, jit);
      if outcome == Separation.Returned(true) {
        Separation.SpreadSettles(bs0, gridSpacing, surface, fuel, jit, 0);
        SettledRooms(rooms);
      }
    }

    /** The loop of spreadOutRooms, pass by pass, as Spread describes it. */
    method SpreadLoop(surface: bool, fuel: nat, jit: (nat, nat, nat) -> Jitter) returns (outcome: Separation.Outcome)
      requires Valid()
      modifies rooms`rect, rooms`velocity
      ensures Valid()
      ensures (BodiesOf(rooms), outcome) == Separation.Spread(old(BodiesOf(rooms)), gridSpacing, surface, fuel, jit, 0)
    {
      ghost var target := Separation.Spread(BodiesOf(rooms), gridSpacing, surface, fuel, jit, 0);
      var done := false;
      var n := 0;
      while !done
        invariant n <= fuel
        invariant !done ==> Separation.Spread(BodiesOf(rooms), gridSpacing, surface, fuel - n, jit, n) == target
        invariant done ==> target == (Separation.StopAll(BodiesOf(rooms), gridSpacing), Separation.Returned(true))
        decreases fuel - n
      {
        if n == fuel {
          return Separation.OutOfFuel;
        }
        var hit := SpreadPass(jit, n);
        done := !hit;
        if surface && !done {
          return Separation.Returned(false);
        }
        n := n + 1;
      }
      StopRooms();
      outcome := Separation.Returned(true);
    }

    /** One pass of the loop of spreadOutRooms: update, then sweep; hit says whether the sweep found a collision. */
    method SpreadPass(jit: (nat, nat, nat) -> Jitter, n: nat) returns (hit: bool)
      requires Valid()
      modifies rooms`rect, rooms`velocity
      ensures Valid()
      ensures (BodiesOf(rooms), hit) == Separation.Step(old(BodiesOf(rooms)), gridSpacing, jit, n)
    {
      UpdateRooms();
      hit := SweepRooms(jit, n);
    }

    /**
     * inFillWithVoids(bounds): tiles the bounds (the rooms' bound when none
     * is given) with 1x1 rooms one grid pitch apart, drops every tile that
     * collides with an existing room, and appends the rest, in x-major
     * order, as voids. The existing rooms are not touched.
     */
    method InFillWithVoids(bounds: Option<Rect>)
      requires Valid() && (bounds.Some? || |rooms| > 0)
      modifies this`rooms
      ensures Valid()
      ensures |old(rooms)| <= |rooms| && rooms[..|old(rooms)|] == old(rooms)
      ensures RectsOf(rooms[|old(rooms)|..]) ==
                Tiling.Keep(Tiling.Tiles(FillBounds(bounds, old(RectsOf(rooms))), gridSpacing), old(RectsOf(rooms)))
      ensures forall k :: |old(rooms)| <= k < |rooms| ==> fresh(rooms[k]) && NewVoid(rooms[k], gridSpacing)
    {
      ghost var rs0 := RectsOf(rooms);
      var b := FillBounds(bounds, RectsOf(rooms));
      var kept := NewVoids(b, rooms, gridSpacing);
      assert RectsOf(rooms) == rs0;
      ghost var fill := Tiling.Keep(Tiling.Tiles(b, gridSpacing), rs0);
      assert RectsOf(kept) == fill;
      AppendDistinct(rooms, kept);
      AppendParts(rooms, kept);
      rooms := rooms + kept;
      forall k | |old(rooms)| <= k < |rooms|
        ensures fresh(rooms[k]) && NewVoid(rooms[k], gridSpacing)
      {
        assert rooms[k] == kept[k - |old(rooms)|];
      }
    }

    /**
     * connectHallsToRooms(hallWidth): for every main room, in group order,
     * and every neighbour in its list, the void rooms that collide with the
     * pair's centre box grown by the hall width become halls, except 1x1
     * rooms that also collide with the box shrunk by the hall width.
     */
    method ConnectHallsToRooms(hallWidth: int)
      requires Valid()
      modifies rooms`layer
      ensures Valid()
      ensures CellsOf(rooms) ==
                Corridors.CarveAll(old(CellsOf(rooms)), old(EdgesOf(RoomsIn(MainRoom))), GridToScreen(hallWidth, gridSpacing), gridSpacing)
      ensures forall k :: 0 <= k < |rooms| && rooms[k].layer != old(rooms[k].layer) ==>
                old(rooms[k].layer) == Void && rooms[k].layer == Hall
    {
      var w := GridToScreen(hallWidth, gridSpacing);
      var ms := RoomsIn(MainRoom);
      ghost var cs0 := CellsOf(rooms);
      ghost var bs := Blocks(ms);
      assert EdgesOf(ms) == Flatten(bs);
      ConnectAll(ms, w, cs0, bs);
      Corridors.CarveOnlyVoidsToHalls(cs0, Flatten(bs), w, gridSpacing);
    }

    /** The outer loop of connectHallsToRooms: the edges of each room of ms in turn, bs holding them block by block. */
    method ConnectAll(ms: seq<Room>, w: int, ghost cs0: seq<Corridors.Cell>, ghost bs: seq<seq<Corridors.Edge>>)
      requires Distinct(rooms) && CellsOf(rooms) == cs0
      requires |bs| == |ms| && forall i :: 0 <= i < |ms| ==> bs[i] == EdgesFrom(ms[i], ms[i].neighbors)
      modifies rooms`layer
      ensures CellsOf(rooms) == Corridors.CarveAll(cs0, Flatten(bs), w, gridSpacing)
    {
      for i := 0 to |ms|
        invariant CellsOf(rooms) == Corridors.CarveAll(cs0, Flatten(bs[..i]), w, gridSpacing)
      {
        SameSeq(bs[i], EdgesFrom(ms[i], ms[i].neighbors));
        ConnectRoom(ms[i], w, cs0, Flatten(bs[..i]), bs[i]);
        FlattenSnoc(bs, i);
      }
      assert bs[..|ms|] == bs;
    }

    /** The inner loop of connectHallsToRooms: the edges from one main room to each of its neighbours, in list order. */
    method ConnectRoom(room: Room, w: int, ghost cs0: seq<Corridors.Cell>, ghost done: seq<Corridors.Edge>, ghost es: seq<Corridors.Edge>)
      requires Distinct(rooms)
      requires es == EdgesFrom(room, room.neighbors)
      requires CellsOf(rooms) == Corridors.CarveAll(cs0, done, w, gridSpacing)
      modifies rooms`layer
      ensures CellsOf(rooms) == Corridors.CarveAll(cs0, done + es, w, gridSpacing)
    {
      var ns := room.neighbors;
      assert done + es[..0] == done;
      for j := 0 to |ns|
        invariant CellsOf(rooms) == Corridors.CarveAll(cs0, done + es[..j], w, gridSpacing)
      {
        var e := Corridors.Edge(room.rect, ns[j].rect);
        assert es[j] == e;
        CarveEdgeRooms(e, w);
        AppendSnoc(done, es, j);
      }
      assert es[..|ns|] == es;
    }

    /**
     * One edge: the voids hit by the outer probe become halls, except the
     * 1x1 ones also hit by the inner probe. Both probes are tested before
     * any room changes.
     */
    method CarveEdgeRooms(e: Corridors.Edge, w: int)
      requires Distinct(rooms)
      modifies rooms`layer
      ensures CellsOf(rooms) == Corridors.CarveEdge(old(CellsOf(rooms)), e, w, gridSpacing)
    {
      ghost var cs := CellsOf(rooms);
      var outers := VoidsHit(Corridors.Probe(e, w, gridSpacing));
      var inners := VoidsHit(Corridors.Probe(e, -w, gridSpacing));
      for t := 0 to |outers|
        invariant forall k :: 0 <= k < |rooms| ==>
                    rooms[k].layer == if rooms[k] in outers[..t] && !(rooms[k] in inners && cs[k].unit) then Hall else cs[k].layer
        invariant forall k :: 0 <= k < |rooms| ==> rooms[k].rect == cs[k].rect
      {
        CarveStep(outers, inners, t, cs);
      }
      assert outers[..|outers|] == outers;
      ghost var now := CellsOf(rooms);
      ghost var want := Corridors.CarveEdge(cs, e, w, gridSpacing);
      forall k | 0 <= k < |rooms|
        ensures now[k] == want[k]
      {
        assert rooms[k].rect == cs[k].rect;
      }
    }

    /** The loop body of connectHallsToRooms' last loop: outer hit t becomes a hall unless it is a 1x1 inner hit. */
    method CarveStep(outers: seq<Room>, inners: seq<Room>, t: nat, ghost cs: seq<Corridors.Cell>)
      requires t < |outers| && |cs| == |rooms| && outers[t] in rooms
      requires forall k :: 0 <= k < |rooms| ==> cs[k].unit == (rooms[k].width == 1 && rooms[k].height == 1)
      requires forall k :: 0 <= k < |rooms| ==>
                 rooms[k].layer == if rooms[k] in outers[..t] && !(rooms[k] in inners && cs[k].unit) then Hall else cs[k].layer
      modifies rooms`layer
      ensures forall k :: 0 <= k < |rooms| ==>
                rooms[k].layer == if rooms[k] in outers[..t + 1] && !(rooms[k] in inners && cs[k].unit) then Hall else cs[k].layer
    {
      var v := outers[t];
      if !(v in inners && v.width == 1 && v.height == 1) {
        SetRoomType(v, Hall);
      }
      assert outers[..t + 1] == outers[..t] + [v];
    }

    /** spritecollide(probe, rooms, False, collide_with_voids): the void rooms the probe rectangle collides with. */
    method VoidsHit(probe: Rect) returns (hits: seq<Room>)
      requires Distinct(rooms)
      ensures forall k :: 0 <= k < |rooms| ==> (rooms[k] in hits <==> rooms[k].layer == Void && ShrunkCollide(probe, rooms[k].rect))
      ensures forall k :: 0 <= k < |hits| ==> hits[k] in rooms
    {
      hits := [];
      for i := 0 to |rooms|
        invariant forall k :: 0 <= k < |rooms| ==>
                    (rooms[k] in hits <==> k < i && rooms[k].layer == Void && ShrunkCollide(probe, rooms[k].rect))
        invariant forall k :: 0 <= k < |hits| ==> hits[k] in rooms
      {
        var r := rooms[i];
        if r.layer == Void && ShrunkCollide(probe, r.rect) {
          hits := hits + [r];
        }
      }
    }
  }

  /** A room as corridor carving sees it: its rectangle, whether it is 1x1 grid units, and its layer. */
  function CellsOf(rs: seq<Room>): (cs: seq<Corridors.Cell>)
    reads rs`rect, rs`layer
    ensures |cs| == |rs| && forall k :: 0 <= k < |rs| ==>
              cs[k] == Corridors.Cell(rs[k].rect, rs[k].width == 1 && rs[k].height == 1, rs[k].layer)
    decreases |rs|
  {
    if rs == [] then []
    else [Corridors.Cell(rs[0].rect, rs[0].width == 1 && rs[0].height == 1, rs[0].layer)] + CellsOf(rs[1..])
  }

  /** Every room on the neighbour list of some room of ms. */
  ghost function NeighborSet(ms: seq<Room>): set<Room>
    reads ms`neighbors
  {
    set k, j | 0 <= k < |ms| && 0 <= j < |ms[k].neighbors| :: ms[k].neighbors[j]
  }

  /** The (room, neighbour) pairs of room r with the neighbours ns, in order. */
  ghost function EdgesFrom(r: Room, ns: seq<Room>): (es: seq<Corridors.Edge>)
    reads r`rect, ns`rect
    ensures |es| == |ns| && forall j :: 0 <= j < |ns| ==> es[j] == Corridors.Edge(r.rect, ns[j].rect)
    decreases |ns|
  {
    if ns == [] then [] else EdgesFrom(r, ns[..|ns| - 1]) + [Corridors.Edge(r.rect, ns[|ns| - 1].rect)]
  }

  /** The edge lists of the rooms of ms, one block per room: each with its neighbours in order. */
  ghost function Blocks(ms: seq<Room>): (bs: seq<seq<Corridors.Edge>>)
    reads ms`rect, ms`neighbors, NeighborSet(ms)`rect
    ensures |bs| == |ms| && forall i :: 0 <= i < |ms| ==> bs[i] == EdgesFrom(ms[i], ms[i].neighbors)
    decreases |ms|
  {
    if ms == [] then []
    else
      var last := ms[|ms| - 1];
      assert forall j :: 0 <= j < |last.neighbors| ==> last.neighbors[j] in NeighborSet(ms);
      assert NeighborSet(ms[..|ms| - 1]) <= NeighborSet(ms);
      Blocks(ms[..|ms| - 1]) + [EdgesFrom(last, last.neighbors)]
  }

  /** The blocks joined in order. */
  function Flatten<T>(bs: seq<seq<T>>): seq<T>
    decreases |bs|
  {
    if bs == [] then [] else Flatten(bs[..|bs| - 1]) + bs[|bs| - 1]
  }

  lemma FlattenSnoc<T>(bs: seq<seq<T>>, i: nat)
    requires i < |bs|
    ensures Flatten(bs[..i + 1]) == Flatten(bs[..i]) + bs[i]
  {
    assert bs[..i + 1][..i] == bs[..i];
  }

  /** The edges connectHallsToRooms walks: each room of ms in order, each with its neighbours in order. */
  ghost function EdgesOf(ms: seq<Room>): seq<Corridors.Edge>
    reads ms`rect, ms`neighbors, NeighborSet(ms)`rect
  {
    Flatten(Blocks(ms))
  }

  /** The voids inFillWithVoids adds over bounds b next to the rooms olds. */
  method NewVoids(b: Rect, olds: seq<Room>, spacing: nat) returns (kept: seq<Room>)
    ensures RectsOf(kept) == Tiling.Keep(Tiling.Tiles(b, spacing), RectsOf(olds)) && Distinct(kept)
    ensures forall k :: 0 <= k < |kept| ==> fresh(kept[k]) && NewVoid(kept[k], spacing)
    ensures forall k, q :: 0 <= k < |kept| && 0 <= q < |olds| ==> kept[k] != olds[q]
  {
    var voids := MakeTiles(b, spacing);
    kept := Survivors(voids, olds);
    KeepRoomsRects(voids, RectsOf(olds));
    KeepRoomsFrom(voids, RectsOf(olds));
    forall k | 0 <= k < |kept|
      ensures fresh(kept[k]) && NewVoid(kept[k], spacing)
    {
      var p :| 0 <= p < |voids| && voids[p] == kept[k];
    }
  }

  /** The rectangle inFillWithVoids tiles: the given bounds, or else the bound of the rooms. */
  function FillBounds(bounds: Option<Rect>, rs: seq<Rect>): Rect
    requires bounds.Some? || |rs| > 0
  {
    if bounds.Some? then bounds.value else BoundOf(rs).value
  }

  /** A room as Room(x, y, gridSpacing=spacing) makes it: 1x1 grid units, Void, at rest, no neighbours. */
  predicate NewVoid(r: Room, spacing: nat)
    reads r
  {
    r.width == 1 && r.height == 1 && r.gridSpacing == spacing &&
    r.layer == Void && r.velocity == Vec(0, 0) && r.neighbors == []
  }

  /** The candidate voids of inFillWithVoids: one new 1x1 room per tile of b, x-major. */
  method MakeTiles(b: Rect, spacing: nat) returns (voids: seq<Room>)
    ensures RectsOf(voids) == Tiling.Tiles(b, spacing) && Distinct(voids)
    ensures forall k :: 0 <= k < |voids| ==> fresh(voids[k]) && NewVoid(voids[k], spacing)
  {
    voids := MakeColumns(Tiling.TileXs(b, spacing), Tiling.TileYs(b, spacing), spacing);
  }

  /** The new rooms of the columns at every x of xs, in order. */
  method MakeColumns(xs: seq<int>, ys: seq<int>, spacing: nat) returns (voids: seq<Room>)
    ensures RectsOf(voids) == Tiling.Columns(xs, ys, spacing) && Distinct(voids)
    ensures forall k :: 0 <= k < |voids| ==> fresh(voids[k]) && NewVoid(voids[k], spacing)
  {
    voids := [];
    for c := 0 to |xs|
      invariant RectsOf(voids) == Tiling.Columns(xs[..c], ys, spacing) && Distinct(voids)
      invariant forall k :: 0 <= k < |voids| ==> fresh(voids[k]) && NewVoid(voids[k], spacing)
    {
      ghost var before := RectsOf(voids);
      var col := MakeColumn(xs[c], ys, spacing);
      assert RectsOf(voids) == before;
      RectsOfAppend(voids, col);
      Tiling.ColumnsAppend(xs[..c], xs[c], ys, spacing);
      Snoc(xs, c);
      assert forall k, q :: 0 <= k < |col| && 0 <= q < |voids| ==> col[k] != voids[q];
      AppendDistinct(voids, col);
      ghost var n := |voids|;
      voids := voids + col;
      forall k | n <= k < |voids|
        ensures fresh(voids[k]) && NewVoid(voids[k], spacing)
      {
        assert voids[k] == col[k - n];
      }
    }
    assert xs[..|xs|] == xs;
  }

  /** The new rooms of one column at x, one per y of ys. */
  method MakeColumn(x: int, ys: seq<int>, spacing: nat) returns (col: seq<Room>)
    ensures RectsOf(col) == Tiling.Column(x, ys, spacing) && Distinct(col)
    ensures forall k :: 0 <= k < |col| ==> fresh(col[k]) && NewVoid(col[k], spacing)
  {
    col := [];
    for d := 0 to |ys|
      invariant |col| == d && Distinct(col)
      invariant forall k :: 0 <= k < d ==> col[k].rect == Tiling.Tile(x, ys[k], spacing)
      invariant forall k :: 0 <= k < d ==> fresh(col[k]) && NewVoid(col[k], spacing)
    {
      var r := new Room(x, ys[d], 1, 1, spacing);
      col := col + [r];
    }
    assert RectsOf(col) == Tiling.Column(x, ys, spacing);
  }

  /**
   * groupcollide(voids, olds, True, False, collide_rooms): the candidates,
   * in order, that collide with none of the old rooms.
   */
  method Survivors(voids: seq<Room>, olds: seq<Room>) returns (kept: seq<Room>)
    requires forall k, q :: 0 <= k < |voids| && 0 <= q < |olds| ==> voids[k] != olds[q]
    ensures kept == KeepRooms(voids, RectsOf(olds))
  {
    ghost var os := RectsOf(olds);
    kept := [];
    for c := 0 to |voids|
      invariant kept == KeepRooms(voids[..c], os)
    {
      var hit := CollidesWithAny(voids[c], olds);
      assert voids[..c + 1][..c] == voids[..c];
      if !hit {
        kept := kept + [voids[c]];
      }
    }
    assert voids[..|voids|] == voids;
  }

  /** The rooms of vs, in order, whose rectangles collide with none of the rectangles os. */
  function KeepRooms(vs: seq<Room>, os: seq<Rect>): seq<Room>
    reads vs`rect
    decreases |vs|
  {
    if vs == [] then []
    else
      var last := vs[|vs| - 1];
      KeepRooms(vs[..|vs| - 1], os) + if Tiling.Free(last.rect, os) then [last] else []
  }

  /** The rectangles of the kept rooms are the tiles Keep keeps. */
  lemma {:induction false} KeepRoomsRects(vs: seq<Room>, os: seq<Rect>)
    ensures RectsOf(KeepRooms(vs, os)) == Tiling.Keep(RectsOf(vs), os)
    decreases |vs|
  {
    if vs != [] {
      var init, last := vs[..|vs| - 1], vs[|vs| - 1];
      assert vs == init + [last];
      KeepRoomsRects(init, os);
      RectsOfAppend(init, [last]);
      ghost var ri := RectsOf(init);
      assert RectsOf(vs) == ri + [last.rect];
      Tiling.KeepAppend(ri, last.rect, os);
      KeepRoomsSnoc(vs, os);
    }
  }

  /** The last room of vs adds its rectangle to the kept ones exactly when it is free. */
  lemma KeepRoomsSnoc(vs: seq<Room>, os: seq<Rect>)
    requires vs != []
    ensures RectsOf(KeepRooms(vs, os)) ==
              RectsOf(KeepRooms(vs[..|vs| - 1], os)) + if Tiling.Free(vs[|vs| - 1].rect, os) then [vs[|vs| - 1].rect] else []
  {
    var ki, last := KeepRooms(vs[..|vs| - 1], os), vs[|vs| - 1];
    if Tiling.Free(last.rect, os) {
      RectsOfAppend(ki, [last]);
    }
  }

  /** The kept rooms are rooms of vs, without repetitions when vs has none. */
  lemma {:induction false} KeepRoomsFrom(vs: seq<Room>, os: seq<Rect>)
    requires Distinct(vs)
    ensures Distinct(KeepRooms(vs, os))
    ensures forall k :: 0 <= k < |KeepRooms(vs, os)| ==> KeepRooms(vs, os)[k] in vs
    decreases |vs|
  {
    if vs != [] {
      var init, last := vs[..|vs| - 1], vs[|vs| - 1];
      assert Distinct(init);
      KeepRoomsFrom(init, os);
      var ki := KeepRooms(init, os);
      forall k | 0 <= k < |ki|
        ensures ki[k] in vs && ki[k] != last
      {
        var p :| 0 <= p < |init| && init[p] == ki[k];
        assert vs[p] == init[p];
      }
      if Tiling.Free(last.rect, os) {
        AppendDistinct(ki, [last]);
      }
    }
  }

  /** spritecollide(v, olds, False, collide_rooms) is not empty. */
  method CollidesWithAny(v: Room, olds: seq<Room>) returns (hit: bool)
    requires v !in olds
    ensures hit == !Tiling.Free(v.rect, RectsOf(olds))
  {
    ghost var os := RectsOf(olds);
    hit := false;
    for q := 0 to |olds|
      invariant hit == !Tiling.Free(v.rect, os[..q])
    {
      Snoc(os, q);
      if CollideRooms(v, olds[q]) {
        hit := true;
      }
    }
    assert os[..|olds|] == os;
  }

  /** Growing the tail of a + s[..j] by element j of s; its prefix of the old length is a + s[..j] again. */
  lemma AppendSnoc<T>(a: seq<T>, s: seq<T>, j: nat)
    requires j < |s|
    ensures a + s[..j + 1] == (a + s[..j]) + [s[j]]
    ensures (a + s[..j + 1])[..|a + s[..j]|] == a + s[..j]
  {
    assert s[..j + 1] == s[..j] + [s[j]];
  }

  /** The first c + 1 elements: the first c, then element c. */
  lemma Snoc<T>(s: seq<T>, c: nat)
    requires c < |s|
    ensures s[..c + 1] == s[..c] + [s[c]]
  {
  }

  /** The two parts of a + b are a and b. */
  lemma AppendParts<T>(a: seq<T>, b: seq<T>)
    ensures (a + b)[..|a|] == a && (a + b)[|a|..] == b
  {
  }

  /** Joining two lists without repetitions and without common rooms gives a list without repetitions. */
  lemma AppendDistinct(a: seq<Room>, b: seq<Room>)
    requires Distinct(a) && Distinct(b)
    requires forall k, q :: 0 <= k < |b| && 0 <= q < |a| ==> b[k] != a[q]
    ensures Distinct(a + b)
  {
    forall i, j | 0 <= i < |a + b| && 0 <= j < |a + b| && i != j
      ensures (a + b)[i] != (a + b)[j]
    {
      if i >= |a| && j >= |a| {
        assert (a + b)[i] == b[i - |a|] && (a + b)[j] == b[j - |a|];
      }
    }
  }

  lemma {:induction false} RectsOfAppend(a: seq<Room>, b: seq<Room>)
    ensures RectsOf(a + b) == RectsOf(a) + RectsOf(b)
    decreases |a|
  {
    if a != [] {
      assert (a + b)[1..] == a[1..] + b;
      RectsOfAppend(a[1..], b);
    }
  }

  /** Rooms whose bodies are separated do not collide under collide_rooms. */
  lemma SettledRooms(rs: seq<Room>)
    requires Distinct(rs) && Separation.Separated(BodiesOf(rs))
    ensures forall i, j :: 0 <= i < |rs| && 0 <= j < |rs| ==> !CollideRooms(rs[i], rs[j])
  {
    forall i, j | 0 <= i < |rs| && 0 <= j < |rs|
      ensures !CollideRooms(rs[i], rs[j])
    {
      if i != j {
        assert !ShrunkCollide(BodiesOf(rs)[i].rect, BodiesOf(rs)[j].rect);
      }
    }
  }

  /** Room i of ms runs pickClosestNeighbors(ms, maxEdges); no other neighbour list changes. */
  method PickOne(ms: seq<Room>, i: nat, maxEdges: nat, ghost olds: seq<seq<Room>>)
    requires Distinct(ms) && i < |ms| && |olds| == |ms|
    requires forall k :: 0 <= k < i ==> Picked(ms[k], olds[k], ms, maxEdges)
    requires forall k :: i <= k < |ms| ==> ms[k].neighbors == olds[k]
    modifies ms`neighbors
    ensures forall k :: 0 <= k <= i ==> Picked(ms[k], olds[k], ms, maxEdges)
    ensures forall k :: i < k < |ms| ==> ms[k].neighbors == olds[k]
  {
    var room := ms[i];
    var _ := room.PickClosestNeighbors(ms, maxEdges, false);
    assert Picked(room, olds[i], ms, maxEdges);
    forall k | 0 <= k < |ms| && k != i
      ensures ms[k].neighbors == old(ms[k].neighbors)
    {
      assert ms[k] != room;
    }
    forall k | 0 <= k < i
      ensures Picked(ms[k], olds[k], ms, maxEdges)
    {
      SameDistMap(old(DistMap(ms[k], ms)), DistMap(ms[k], ms), ms);
    }
  }

  /** The rectangles and velocities of the rooms, in order. */
  ghost function BodiesOf(rs: seq<Room>): (b: seq<Separation.Body>)
    reads rs`rect, rs`velocity
    ensures |b| == |rs| && forall k :: 0 <= k < |rs| ==> b[k] == Separation.Body(rs[k].rect, rs[k].velocity)
    decreases |rs|
  {
    if rs == [] then [] else [Separation.Body(rs[0].rect, rs[0].velocity)] + BodiesOf(rs[1..])
  }

  /** The neighbour lists of the rooms, in order. */
  ghost function NeighborsOf(rs: seq<Room>): (r: seq<seq<Room>>)
    reads rs`neighbors
    ensures |r| == |rs| && forall k :: 0 <= k < |rs| ==> r[k] == rs[k].neighbors
    decreases |rs|
  {
    if rs == [] then [] else [rs[0].neighbors] + NeighborsOf(rs[1..])
  }

  /** Filtering a list without repetitions gives a list without repetitions. */
  lemma {:induction false} InLayerDistinct(rs: seq<Room>, l: Layer)
    requires Distinct(rs)
    ensures Distinct(InLayer(rs, l))
    decreases |rs|
  {
    if rs != [] {
      var rest := rs[1..];
      assert Distinct(rest) by {
        forall i, j | 0 <= i < |rest| && 0 <= j < |rest| && i != j
          ensures rest[i] != rest[j]
        {
          assert rest[i] == rs[i + 1] && rest[j] == rs[j + 1];
        }
      }
      InLayerDistinct(rest, l);
      if rs[0].layer == l {
        var t := InLayer(rest, l);
        assert rs[0] !in rest;
        assert rs[0] !in t;
        var u := [rs[0]] + t;
        forall i, j | 0 <= i < |u| && 0 <= j < |u| && i != j
          ensures u[i] != u[j]
        {
          if i > 0 && j > 0 {
            assert u[i] == t[i - 1] && u[j] == t[j - 1];
          } else if i == 0 {
            assert u[j] == t[j - 1] && u[j] in t;
          } else {
            assert u[i] == t[i - 1] && u[i] in t;
          }
        }
      }
    }
  }

  /** The rooms of the list tagged with layer l, in list order. */
  function InLayer(rs: seq<Room>, l: Layer): (r: seq<Room>)
    reads rs`layer
    ensures forall k :: 0 <= k < |r| ==> r[k] in rs && r[k].layer == l
    ensures forall k :: 0 <= k < |rs| && rs[k].layer == l ==> rs[k] in r
    decreases |rs|
  {
    if rs == [] then []
    else if rs[0].layer == l then [rs[0]] + InLayer(rs[1..], l)
    else InLayer(rs[1..], l)
  }

  /**
   * The union of the rectangles, or None for none. It contains every
   * rectangle, and each of its four edges is an edge of some rectangle.
   */
  function BoundOf(rs: seq<Rect>): (b: Option<Rect>)
    ensures b.None? <==> |rs| == 0
    ensures b.Some? ==> forall k :: 0 <= k < |rs| ==>
              b.value.x <= rs[k].x && b.value.y <= rs[k].y &&
              rs[k].x + rs[k].w <= b.value.x + b.value.w && rs[k].y + rs[k].h <= b.value.y + b.value.h
    ensures b.Some? ==> (exists k :: 0 <= k < |rs| && b.value.x == rs[k].x) &&
                        (exists k :: 0 <= k < |rs| && b.value.y == rs[k].y)
    ensures b.Some? ==> (exists k :: 0 <= k < |rs| && b.value.x + b.value.w == rs[k].x + rs[k].w) &&
                        (exists k :: 0 <= k < |rs| && b.value.y + b.value.h == rs[k].y + rs[k].h)
  {
    if |rs| == 0 then None
    else
      assert forall k :: 1 <= k < |rs| ==> rs[k] == rs[1..][k - 1];
      Some(UnionAll(rs[0], rs[1..]))
  }

  /** The offset centerIn moves the rooms by: from the centre of their bound to the centre of target. */
  function CentreOffset(rs: seq<Rect>, target: Rect): Vec
    requires |rs| > 0
  {
    var b := BoundOf(rs).value;
    Vec(CenterX(target) - CenterX(b), CenterY(target) - CenterY(b))
  }

  /** The rectangles after centerIn(target). */
  function CenteredLayout(rs: seq<Rect>, target: Rect): seq<Rect>
    requires |rs| > 0
  {
    var d := CentreOffset(rs, target);
    TranslateAll(rs, d.x, d.y)
  }

  /** After centerIn(target) the bound of the rooms is centred on target. */
  lemma CenteredLayoutIsCentred(rs: seq<Rect>, target: Rect)
    requires |rs| > 0
    ensures BoundOf(CenteredLayout(rs, target)).Some?
    ensures CenterX(BoundOf(CenteredLayout(rs, target)).value) == CenterX(target)
    ensures CenterY(BoundOf(CenteredLayout(rs, target)).value) == CenterY(target)
  {
    var d := CentreOffset(rs, target);
    BoundOfTranslate(rs, d.x, d.y);
    TranslateCenter(BoundOf(rs).value, d.x, d.y);
  }

  /** Moving every rectangle by (dx, dy) moves their bound by (dx, dy). */
  lemma BoundOfTranslate(rs: seq<Rect>, dx: int, dy: int)
    requires |rs| > 0
    ensures BoundOf(TranslateAll(rs, dx, dy)) == Some(Translate(BoundOf(rs).value, dx, dy))
  {
    var t := TranslateAll(rs, dx, dy);
    assert t[1..] == TranslateAll(rs[1..], dx, dy);
    UnionAllTranslate(rs[0], rs[1..], dx, dy);
  }

  /** Moving every rectangle by the same offset keeps exactly the colliding pairs. */
  lemma TranslateAllCollide(rs: seq<Rect>, dx: int, dy: int)
    ensures forall i, j :: 0 <= i < |rs| && 0 <= j < |rs| ==>
              (ShrunkCollide(TranslateAll(rs, dx, dy)[i], TranslateAll(rs, dx, dy)[j]) <==> ShrunkCollide(rs[i], rs[j]))
  {
    forall i, j | 0 <= i < |rs| && 0 <= j < |rs|
      ensures ShrunkCollide(TranslateAll(rs, dx, dy)[i], TranslateAll(rs, dx, dy)[j]) <==> ShrunkCollide(rs[i], rs[j])
    {
      TranslatePreservesCollide(rs[i], rs[j], dx, dy);
    }
  }
}
