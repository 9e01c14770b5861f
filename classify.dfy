/**
 * The size classifier of Dungeon.pickMainRooms stated over the room
 * rectangles. The pick ratio is the rational num/den; a room is a main
 * room when its pixel width and height both reach ratio times the average
 * width and height. With n rooms and den > 0 the source's test
 * `w >= ratio * (sum w / n)` is `w * den * n >= num * sum w`.
 */
module Classify {
  import opened Geometry

  function SumW(rs: seq<Rect>): int
    decreases |rs|
  {
    if rs == [] then 0 else SumW(rs[..|rs| - 1]) + rs[|rs| - 1].w
  }

  function SumH(rs: seq<Rect>): int
    decreases |rs|
  {
    if rs == [] then 0 else SumH(rs[..|rs| - 1]) + rs[|rs| - 1].h
  }

  /** Rectangle r is large enough to be a main room among rooms whose sizes add up to sumW and sumH. */
  predicate IsMain(r: Rect, num: int, den: int, sumW: int, sumH: int, n: int)
  {
    r.w * den * n >= num * sumW && r.h * den * n >= num * sumH
  }

  /** The main-room flags of a whole layout, in room order. */
  function MainFlags(rs: seq<Rect>, num: int, den: int): (f: seq<bool>)
    ensures |f| == |rs|
    ensures forall k :: 0 <= k < |rs| ==> f[k] == IsMain(rs[k], num, den, SumW(rs), SumH(rs), |rs|)
  {
    seq(|rs|, k requires 0 <= k < |rs| => IsMain(rs[k], num, den, SumW(rs), SumH(rs), |rs|))
  }

  /** The smallest width in the layout is at most the average width. */
  lemma {:induction false} MinWidthBelowAverage(rs: seq<Rect>)
    requires |rs| > 0
    ensures exists k :: 0 <= k < |rs| && rs[k].w * |rs| <= SumW(rs)
    decreases |rs|
  {
    if |rs| == 1 {
      assert rs[..0] == [];
      assert rs[0].w * 1 <= SumW(rs);
    } else {
      var init := rs[..|rs| - 1];
      var last := rs[|rs| - 1].w;
      MinWidthBelowAverage(init);
      var k :| 0 <= k < |init| && init[k].w * |init| <= SumW(init);
      var n := |init|;
      if rs[k].w <= last {
        assert rs[k].w * (n + 1) == rs[k].w * n + rs[k].w;
      } else {
        // The last room is narrower than room k, whose width times n is at most SumW(init).
        assert last * n <= rs[k].w * n by { MulLe(last, rs[k].w, n); }
        assert last * (n + 1) == last * n + last;
      }
    }
  }

  lemma MulLe(a: int, b: int, n: nat)
    requires a <= b
    ensures a * n <= b * n
  {
  }

  /**
   * With a pick ratio above one and rooms of positive width, some room is
   * not a main room: the narrowest one falls short of ratio times the
   * average.
   */
  lemma RatioAboveOneLeavesAVoid(rs: seq<Rect>, num: int, den: int)
    requires |rs| > 0 && num > den > 0
    requires forall k :: 0 <= k < |rs| ==> rs[k].w > 0
    ensures exists k :: 0 <= k < |rs| && !MainFlags(rs, num, den)[k]
  {
    MinWidthBelowAverage(rs);
    var k :| 0 <= k < |rs| && rs[k].w * |rs| <= SumW(rs);
    PositiveSum(rs);
    Shortfall(rs[k].w, |rs|, SumW(rs), num, den);
    assert !IsMain(rs[k], num, den, SumW(rs), SumH(rs), |rs|);
    assert !MainFlags(rs, num, den)[k];
  }

  /** A width at most the average falls short of a ratio above one times the average. */
  lemma Shortfall(w: int, n: int, s: int, num: int, den: int)
    requires w * n <= s && s > 0 && num > den > 0
    ensures w * den * n < num * s
  {
    assert w * den * n == den * (w * n);
    MulLe(w * n, s, den);
    assert (w * n) * den <= s * den;
    MulLt(den, num, s);
  }

  lemma MulLt(a: int, b: int, c: int)
    requires a < b && c > 0
    ensures a * c < b * c
  {
  }

  lemma {:induction false} PositiveSum(rs: seq<Rect>)
    requires |rs| > 0 && forall k :: 0 <= k < |rs| ==> rs[k].w > 0
    ensures SumW(rs) > 0
    decreases |rs|
  {
    if |rs| > 1 {
      PositiveSum(rs[..|rs| - 1]);
    } else {
      assert rs[..0] == [];
    }
  }

  /**
   * Raising the pick ratio only removes main rooms: a room that is a main
   * room for ratio num2/den2 is one for any smaller ratio num1/den1.
   */
  lemma HigherRatioFewerMains(rs: seq<Rect>, num1: int, den1: int, num2: int, den2: int, k: nat)
    requires den1 > 0 && den2 > 0 && num1 * den2 <= num2 * den1
    requires k < |rs| && SumW(rs) >= 0 && SumH(rs) >= 0
    requires MainFlags(rs, num2, den2)[k]
    ensures MainFlags(rs, num1, den1)[k]
  {
    var n := |rs|;
    var r := rs[k];
    RatioStep(r.w, n, SumW(rs), num1, den1, num2, den2);
    RatioStep(r.h, n, SumH(rs), num1, den1, num2, den2);
  }

  lemma RatioStep(w: int, n: int, s: int, num1: int, den1: int, num2: int, den2: int)
    requires den1 > 0 && den2 > 0 && num1 * den2 <= num2 * den1 && s >= 0
    requires w * den2 * n >= num2 * s
    ensures w * den1 * n >= num1 * s
  {
    assert (w * den1 * n) * den2 == (w * den2 * n) * den1;
    assert (w * den2 * n) * den1 >= (num2 * s) * den1 by { MulLe(num2 * s, w * den2 * n, den1); }
    assert (num2 * s) * den1 == (num2 * den1) * s;
    assert (num2 * den1) * s >= (num1 * den2) * s by { MulLe(num1 * den2, num2 * den1, s); }
    assert (num1 * den2) * s == (num1 * s) * den2;
    if w * den1 * n < num1 * s {
      MulLt(w * den1 * n, num1 * s, den2);
      assert false;
    }
  }
}
