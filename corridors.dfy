/**
 * Corridor carving (Dungeon.connectHallsToRooms) stated over values. Each
 * room is a Cell: its rectangle, whether it is one grid unit square, and
 * its layer. Each (main room, neighbour) pair is an Edge; its two probes are
 * the centre box of the pair grown and shrunk by the hall width and snapped
 * onto the grid. An edge turns into halls the void rooms that collide with
 * the outer probe, except the 1x1 rooms that also collide with the inner one.
 */
module Corridors {
  import opened Geometry
  import opened Rooms

  datatype Edge = Edge(room: Rect, neighbor: Rect)

  datatype Cell = Cell(rect: Rect, unit: bool, layer: Layer)

  /** The probe room of an edge: the centre box inflated by d on both axes, origin snapped onto the grid. */
  function Probe(e: Edge, d: int, spacing: nat): Rect
  {
    SnapXY(Inflate(Centerbox(e.room, e.neighbor), d, d), spacing)
  }

  /**
   * A void room of rectangle r is turned into a hall by edge e (hall width
   * w pixels): it collides with the outer probe and is not a 1x1 room that
   * also collides with the inner probe.
   */
  predicate Carves(e: Edge, w: int, spacing: nat, r: Rect, unit: bool)
  {
    ShrunkCollide(Probe(e, w, spacing), r) && !(unit && ShrunkCollide(Probe(e, -w, spacing), r))
  }

  /** The rooms after carving one edge. */
  function CarveEdge(cs: seq<Cell>, e: Edge, w: int, spacing: nat): (r: seq<Cell>)
    ensures |r| == |cs|
    ensures forall k :: 0 <= k < |cs| ==>
              r[k] == if cs[k].layer == Void && Carves(e, w, spacing, cs[k].rect, cs[k].unit)
                      then cs[k].(layer := Hall) else cs[k]
  {
    seq(|cs|, k requires 0 <= k < |cs| =>
      if cs[k].layer == Void && Carves(e, w, spacing, cs[k].rect, cs[k].unit) then cs[k].(layer := Hall) else cs[k])
  }

  /** The rooms after carving the edges in order. */
  function CarveAll(cs: seq<Cell>, es: seq<Edge>, w: int, spacing: nat): seq<Cell>
    decreases |es|
  {
    if es == [] then cs else CarveEdge(CarveAll(cs, es[..|es| - 1], w, spacing), es[|es| - 1], w, spacing)
  }

  /** Some edge of es carves the cell. */
  predicate CarvedBySome(es: seq<Edge>, w: int, spacing: nat, c: Cell)
  {
    exists i :: 0 <= i < |es| && Carves(es[i], w, spacing, c.rect, c.unit)
  }

  /**
   * The outcome of carving, whatever the order of the edges: a room becomes
   * a hall exactly when it was void and some edge carves it; every other
   * room, and every rectangle, is left as it was.
   */
  lemma {:induction false} CarveAllOutcome(cs: seq<Cell>, es: seq<Edge>, w: int, spacing: nat)
    ensures |CarveAll(cs, es, w, spacing)| == |cs|
    ensures forall k :: 0 <= k < |cs| ==>
              CarveAll(cs, es, w, spacing)[k] ==
                if cs[k].layer == Void && CarvedBySome(es, w, spacing, cs[k]) then cs[k].(layer := Hall) else cs[k]
    decreases |es|
  {
    if es != [] {
      var init := es[..|es| - 1];
      CarveAllOutcome(cs, init, w, spacing);
      forall k | 0 <= k < |cs|
        ensures CarveAll(cs, es, w, spacing)[k] ==
                  if cs[k].layer == Void && CarvedBySome(es, w, spacing, cs[k]) then cs[k].(layer := Hall) else cs[k]
      {
        if CarvedBySome(init, w, spacing, cs[k]) {
          var i :| 0 <= i < |init| && Carves(init[i], w, spacing, cs[k].rect, cs[k].unit);
          assert es[i] == init[i];
        }
        if !CarvedBySome(init, w, spacing, cs[k]) {
          assert forall i :: 0 <= i < |init| ==> !Carves(es[i], w, spacing, cs[k].rect, cs[k].unit);
        }
      }
    }
  }

  /** Carving changes only void rooms, and only into halls. */
  lemma CarveOnlyVoidsToHalls(cs: seq<Cell>, es: seq<Edge>, w: int, spacing: nat)
    ensures var r := CarveAll(cs, es, w, spacing);
      |r| == |cs| &&
      forall k :: 0 <= k < |cs| ==> r[k].rect == cs[k].rect && (r[k].layer != cs[k].layer ==> cs[k].layer == Void && r[k].layer == Hall)
  {
    CarveAllOutcome(cs, es, w, spacing);
  }

  /** Carving the same edges a second time changes nothing. */
  lemma CarveIdempotent(cs: seq<Cell>, es: seq<Edge>, w: int, spacing: nat)
    ensures CarveAll(CarveAll(cs, es, w, spacing), es, w, spacing) == CarveAll(cs, es, w, spacing)
  {
    var once := CarveAll(cs, es, w, spacing);
    CarveAllOutcome(cs, es, w, spacing);
    CarveAllOutcome(once, es, w, spacing);
    var twice := CarveAll(once, es, w, spacing);
    forall k | 0 <= k < |cs|
      ensures twice[k] == once[k]
    {
      if once[k].layer == Void {
        assert once[k] == cs[k];
      }
    }
  }
}
