/**
 * Grid geometry of the dungeon generator: integer rectangles with the
 * behaviour of the rectangle type of the drawing library the source uses,
 * rounding onto the grid, and the shrunk-rectangle collision test.
 *
 * The rectangle operations below (Inflate, CenterX/CenterY, Union,
 * Colliderect) belong to a library that is not part of this model; each is
 * an explicit definition of the behaviour this model ASSUMES for it.
 */
module Geometry {

  /** An axis-aligned rectangle in pixels; width and height may be negative. */
  datatype Rect = Rect(x: int, y: int, w: int, h: int)

  /** A two-dimensional velocity holding integer impulses. */
  datatype Vec = Vec(x: int, y: int)

  function Min(a: int, b: int): int { if a <= b then a else b }
  function Max(a: int, b: int): int { if a <= b then b else a }

  /** Integer division by two truncating toward zero, as C's `d / 2`. */
  function TruncHalf(d: int): (r: int)
    ensures d >= 0 ==> 0 <= r && d - 1 <= 2 * r <= d
    ensures d < 0 ==> r <= 0 && d <= 2 * r <= d + 1
  {
    if d >= 0 then d / 2 else -((-d) / 2)
  }

  /** Assumption: `inflate(dx, dy)` moves the origin by the truncated half and grows the size. */
  function Inflate(r: Rect, dx: int, dy: int): Rect
  {
    Rect(r.x - TruncHalf(dx), r.y - TruncHalf(dy), r.w + dx, r.h + dy)
  }

  /** Assumption: `center` is `(x + w/2, y + h/2)` with truncating division. */
  function CenterX(r: Rect): int { r.x + TruncHalf(r.w) }
  function CenterY(r: Rect): int { r.y + TruncHalf(r.h) }

  /** The horizontal and vertical extents, normalised for negative sizes. */
  function Left(r: Rect): int { Min(r.x, r.x + r.w) }
  function Right(r: Rect): int { Max(r.x, r.x + r.w) }
  function Top(r: Rect): int { Min(r.y, r.y + r.h) }
  function Bottom(r: Rect): int { Max(r.y, r.y + r.h) }

  /**
   * Assumption: `colliderect` never holds for a rectangle of zero width or
   * height; otherwise it holds when the normalised intervals strictly overlap
   * on both axes (so a negative size is read as the interval it spans).
   */
  predicate Colliderect(a: Rect, b: Rect)
  {
    a.w != 0 && a.h != 0 && b.w != 0 && b.h != 0 &&
    Left(a) < Right(b) && Top(a) < Bottom(b) &&
    Right(a) > Left(b) && Bottom(a) > Top(b)
  }

  /** Assumption: `union` is the smallest box spanning both origins and both far corners. */
  function Union(a: Rect, b: Rect): (u: Rect)
    ensures u.x == Min(a.x, b.x) && u.y == Min(a.y, b.y)
    ensures u.x + u.w == Max(a.x + a.w, b.x + b.w)
    ensures u.y + u.h == Max(a.y + a.h, b.y + b.h)
  {
    var x := Min(a.x, b.x);
    var y := Min(a.y, b.y);
    Rect(x, y, Max(a.x + a.w, b.x + b.w) - x, Max(a.y + a.h, b.y + b.h) - y)
  }

  /** `first.unionall(rest)`: the min/max box of all the rectangles. */
  function UnionAll(first: Rect, rest: seq<Rect>): (u: Rect)
    ensures u.x <= first.x && u.y <= first.y
    ensures first.x + first.w <= u.x + u.w && first.y + first.h <= u.y + u.h
    ensures forall k :: 0 <= k < |rest| ==>
              u.x <= rest[k].x && u.y <= rest[k].y &&
              rest[k].x + rest[k].w <= u.x + u.w && rest[k].y + rest[k].h <= u.y + u.h
    ensures u.x == first.x || exists k :: 0 <= k < |rest| && u.x == rest[k].x
    ensures u.y == first.y || exists k :: 0 <= k < |rest| && u.y == rest[k].y
    ensures u.x + u.w == first.x + first.w || exists k :: 0 <= k < |rest| && u.x + u.w == rest[k].x + rest[k].w
    ensures u.y + u.h == first.y + first.h || exists k :: 0 <= k < |rest| && u.y + u.h == rest[k].y + rest[k].h
    decreases |rest|
  {
    if rest == [] then first
    else
      var u := UnionAll(Union(first, rest[0]), rest[1..]);
      assert forall k :: 1 <= k < |rest| ==> rest[k] == rest[1..][k - 1];
      u
  }

  /** The rectangle moved by (dx, dy). */
  function Translate(r: Rect, dx: int, dy: int): Rect
  {
    r.(x := r.x + dx, y := r.y + dy)
  }

  // ---------------------------------------------------------------------
  // Rounding onto the grid

  /** `roundm(n, m)`: n rounded up to a multiple of m. */
  function Roundm(n: int, m: int): (r: int)
    requires m > 0
    ensures r % m == 0
    ensures n <= r < n + m
  {
    var q := (n + m - 1) / m;
    assert q * m == n + m - 1 - (n + m - 1) % m;
    MultipleMod(q, m);
    q * m
  }

  lemma MultipleMod(q: int, m: int)
    requires m > 0
    ensures (q * m) % m == 0 && (q * m) / m == q
  {
    var x := q * m;
    var d, r := x / m, x % m;
    assert x == d * m + r && 0 <= r < m;
    assert (d - q) * m == -r;
    if d - q >= 1 {
      MulAtLeast(d - q, m);
    } else if d - q <= -1 {
      MulAtLeast(q - d, m);
    }
  }

  lemma {:induction false} MulAtLeast(k: int, m: int)
    requires k >= 1 && m > 0
    ensures k * m >= m
    decreases k
  {
    if k > 1 {
      MulAtLeast(k - 1, m);
      assert k * m == (k - 1) * m + m;
    }
  }

  /** Two multiples of m that lie in one window of width m are equal. */
  lemma {:induction false} MultipleInWindowUnique(a: int, b: int, lo: int, m: int)
    requires m > 0
    requires a % m == 0 && b % m == 0
    requires lo <= a < lo + m && lo <= b < lo + m
    ensures a == b
  {
    var qa, qb := a / m, b / m;
    assert a == qa * m && b == qb * m;
    if qa < qb {
      MulStep(qa, qb, m);
    } else if qb < qa {
      MulStep(qb, qa, m);
    }
  }

  lemma MulStep(p: int, q: int, m: int)
    requires m > 0 && p < q
    ensures p * m + m <= q * m
  {
    assert q * m - p * m == (q - p) * m;
    MulAtLeast(q - p, m);
  }

  /** roundm returns the LEAST multiple of m that is at least n. */
  lemma RoundmIsLeast(n: int, m: int, c: int)
    requires m > 0
    requires c % m == 0 && c >= n
    ensures Roundm(n, m) <= c
  {
    var r := Roundm(n, m);
    if c < r {
      MultipleInWindowUnique(c, r, n, m);
    }
  }

  /** A multiple of m is left where it is. */
  lemma RoundmOfMultiple(c: int, m: int)
    requires m > 0 && c % m == 0
    ensures Roundm(c, m) == c
  {
    MultipleInWindowUnique(Roundm(c, m), c, c, m);
  }

  /** Rounding twice is rounding once. */
  lemma RoundmIdempotent(n: int, m: int)
    requires m > 0
    ensures Roundm(Roundm(n, m), m) == Roundm(n, m)
  {
    RoundmOfMultiple(Roundm(n, m), m);
  }

  /** Shifting the input by whole grid steps shifts the result by the same steps. */
  lemma RoundmShift(n: int, k: int, m: int)
    requires m > 0
    ensures Roundm(n + k * m, m) == Roundm(n, m) + k * m
  {
    var r := Roundm(n, m);
    assert (k * m) % m == 0 by { MultipleMod(k, m); }
    assert (r + k * m) % m == 0 by {
      MultipleMod(r / m, m);
      assert r == (r / m) * m;
      assert r + k * m == (r / m + k) * m;
      MultipleMod(r / m + k, m);
    }
    MultipleInWindowUnique(Roundm(n + k * m, m), r + k * m, n + k * m, m);
  }

  /** `gridToScreen(count, spacing)`: pixel length of `count` grid cells. */
  function GridToScreen(count: int, spacing: int): int
  {
    (spacing + 1) * count + 1
  }

  /** Room.snapToGrid: rounds only the origin up onto the grid of pitch spacing+1. */
  function SnapXY(r: Rect, spacing: nat): (s: Rect)
    ensures s.x % (spacing + 1) == 0 && s.y % (spacing + 1) == 0
    ensures r.x <= s.x < r.x + spacing + 1 && r.y <= s.y < r.y + spacing + 1
    ensures s.w == r.w && s.h == r.h
  {
    r.(x := Roundm(r.x, spacing + 1), y := Roundm(r.y, spacing + 1))
  }

  /** snap_rect_to_grid: rounds all four fields up onto the grid. */
  function SnapRectToGrid(r: Rect, spacing: nat): (s: Rect)
    ensures s.x % (spacing + 1) == 0 && s.y % (spacing + 1) == 0
    ensures s.w % (spacing + 1) == 0 && s.h % (spacing + 1) == 0
    ensures r.x <= s.x < r.x + spacing + 1 && r.y <= s.y < r.y + spacing + 1
    ensures r.w <= s.w < r.w + spacing + 1 && r.h <= s.h < r.h + spacing + 1
  {
    var g := spacing + 1;
    Rect(Roundm(r.x, g), Roundm(r.y, g), Roundm(r.w, g), Roundm(r.h, g))
  }

  predicate OnGrid(r: Rect, spacing: nat)
  {
    r.x % (spacing + 1) == 0 && r.y % (spacing + 1) == 0
  }

  /** Snapping the origin is idempotent and keeps a rectangle already on the grid. */
  lemma SnapXYFixesGrid(r: Rect, spacing: nat)
    ensures SnapXY(SnapXY(r, spacing), spacing) == SnapXY(r, spacing)
    ensures OnGrid(r, spacing) ==> SnapXY(r, spacing) == r
  {
    RoundmIdempotent(r.x, spacing + 1);
    RoundmIdempotent(r.y, spacing + 1);
    if OnGrid(r, spacing) {
      RoundmOfMultiple(r.x, spacing + 1);
      RoundmOfMultiple(r.y, spacing + 1);
    }
  }

  /** snap_rect_to_grid is idempotent. */
  lemma SnapRectToGridIdempotent(r: Rect, spacing: nat)
    ensures SnapRectToGrid(SnapRectToGrid(r, spacing), spacing) == SnapRectToGrid(r, spacing)
  {
    var g := spacing + 1;
    RoundmIdempotent(r.x, g);
    RoundmIdempotent(r.y, g);
    RoundmIdempotent(r.w, g);
    RoundmIdempotent(r.h, g);
  }

  // ---------------------------------------------------------------------
  // The shrunk-rectangle collision test used by collide_rooms

  /** Both rectangles shrunk by one pixel per side, then tested with colliderect. */
  predicate ShrunkCollide(left: Rect, right: Rect)
  {
    Colliderect(Inflate(right, -2, -2), Inflate(left, -2, -2))
  }

  /** The test does not depend on the order of its arguments. */
  lemma ShrunkCollideSymmetric(a: Rect, b: Rect)
    ensures ShrunkCollide(a, b) <==> ShrunkCollide(b, a)
  {
  }

  /**
   * Rectangles of at least two pixels that overlap in at most a one-pixel
   * column do not collide once shrunk.
   */
  lemma SeparatedInX(a: Rect, b: Rect)
    requires a.w >= 2 && b.w >= 2
    requires a.x + a.w <= b.x + 1
    ensures !ShrunkCollide(a, b) && !ShrunkCollide(b, a)
  {
  }

  lemma SeparatedInY(a: Rect, b: Rect)
    requires a.h >= 2 && b.h >= 2
    requires a.y + a.h <= b.y + 1
    ensures !ShrunkCollide(a, b) && !ShrunkCollide(b, a)
  {
  }

  /**
   * Two rooms sized by gridToScreen that sit side by side on the grid share
   * only their border line and do not collide.
   */
  lemma GridNeighboursDoNotCollide(a: Rect, b: Rect, units: int, spacing: nat)
    requires units >= 1 && a.w == GridToScreen(units, spacing) && b.w >= 2
    requires b.x == a.x + (spacing + 1) * units
    ensures !ShrunkCollide(a, b)
  {
    assert (spacing + 1) * units >= 1 by { MulStep(0, units, spacing + 1); }
    SeparatedInX(a, b);
  }

  /** The same for two rooms stacked one above the other on the grid. */
  lemma GridNeighboursDoNotCollideVertically(a: Rect, b: Rect, units: int, spacing: nat)
    requires units >= 1 && a.h == GridToScreen(units, spacing) && b.h >= 2
    requires b.y == a.y + (spacing + 1) * units
    ensures !ShrunkCollide(a, b)
  {
    assert (spacing + 1) * units >= 1 by { MulStep(0, units, spacing + 1); }
    SeparatedInY(a, b);
  }

  /** Moving both rectangles by the same offset does not change whether they collide. */
  lemma TranslatePreservesCollide(a: Rect, b: Rect, dx: int, dy: int)
    ensures ShrunkCollide(Translate(a, dx, dy), Translate(b, dx, dy)) <==> ShrunkCollide(a, b)
  {
  }

  /** Every rectangle moved by (dx, dy). */
  function TranslateAll(rs: seq<Rect>, dx: int, dy: int): (t: seq<Rect>)
    ensures |t| == |rs| && forall k :: 0 <= k < |rs| ==> t[k] == Translate(rs[k], dx, dy)
  {
    seq(|rs|, k requires 0 <= k < |rs| => Translate(rs[k], dx, dy))
  }

  /** The union of moved rectangles is the moved union. */
  lemma {:induction false} UnionAllTranslate(first: Rect, rest: seq<Rect>, dx: int, dy: int)
    ensures UnionAll(Translate(first, dx, dy), TranslateAll(rest, dx, dy)) == Translate(UnionAll(first, rest), dx, dy)
    decreases |rest|
  {
    if rest != [] {
      var t := TranslateAll(rest, dx, dy);
      assert Union(Translate(first, dx, dy), t[0]) == Translate(Union(first, rest[0]), dx, dy);
      assert t[1..] == TranslateAll(rest[1..], dx, dy);
      UnionAllTranslate(Union(first, rest[0]), rest[1..], dx, dy);
    }
  }

  /** The centre of a translated rectangle is translated. */
  lemma TranslateCenter(r: Rect, dx: int, dy: int)
    ensures CenterX(Translate(r, dx, dy)) == CenterX(r) + dx
    ensures CenterY(Translate(r, dx, dy)) == CenterY(r) + dy
  {
  }

  /** Room.centerbox: the box from the lesser to the greater of the two origins. */
  function Centerbox(a: Rect, b: Rect): (c: Rect)
    ensures c.w >= 0 && c.h >= 0
    ensures c.x <= a.x <= c.x + c.w && c.x <= b.x <= c.x + c.w
    ensures c.y <= a.y <= c.y + c.h && c.y <= b.y <= c.y + c.h
    ensures (c.x == a.x && c.x + c.w == b.x) || (c.x == b.x && c.x + c.w == a.x)
    ensures (c.y == a.y && c.y + c.h == b.y) || (c.y == b.y && c.y + c.h == a.y)
  {
    var x := Min(a.x, b.x);
    var y := Min(a.y, b.y);
    Rect(x, y, Max(a.x, b.x) - x, Max(a.y, b.y) - y)
  }

  /**
   * Squared distance between the centres of two rectangles: an order- and
   * tie-preserving stand-in for the Euclidean distance between centres.
   */
  function Dist2(a: Rect, b: Rect): (d: int)
    ensures d >= 0
    ensures d == 0 <==> CenterX(a) == CenterX(b) && CenterY(a) == CenterY(b)
  {
    var dx := CenterX(a) - CenterX(b);
    var dy := CenterY(a) - CenterY(b);
    dx * dx + dy * dy
  }

  /** The distance key does not depend on which room measures it. */
  lemma Dist2Symmetric(a: Rect, b: Rect)
    ensures Dist2(a, b) == Dist2(b, a)
  {
    var dx := CenterX(a) - CenterX(b);
    var dy := CenterY(a) - CenterY(b);
    assert (-dx) * (-dx) == dx * dx;
    assert (-dy) * (-dy) == dy * dy;
  }
}
