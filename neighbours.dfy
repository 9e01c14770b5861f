/**
 * The neighbourhood table built by Room.pickClosestNeighbors, stated over
 * candidate positions: `ds[j]` is the distance key of candidate j and
 * `good[j]` says whether candidate j passes the good-neighbour filter.
 *
 * The source builds a dictionary keyed on distance with `setdefault` (the
 * first candidate with a given distance keeps the key) and then reads it in
 * ascending key order. `hood` below is that table as a sorted list of
 * candidate positions; it is built by sorted insertion, which gives the
 * same list as filling the dictionary and sorting its keys.
 */
module Neighbours {

  /**
   * After the first i candidates: `hood` lists good candidates among them in
   * strictly increasing distance, each the EARLIEST good candidate with its
   * distance, and every good candidate's distance occurs in it.
   */
  ghost predicate HoodInv(ds: seq<int>, good: seq<bool>, i: nat, hood: seq<nat>)
  {
    |good| == |ds| && i <= |ds| && Members(good, i, hood) &&
    Sorted(ds, good, i, hood) && FirstWins(ds, good, i, hood) && Complete(ds, good, i, hood)
  }

  /** Every entry is a good candidate among the first i. */
  ghost predicate Members(good: seq<bool>, i: nat, hood: seq<nat>)
    requires i <= |good|
  {
    forall k :: 0 <= k < |hood| ==> hood[k] < i && good[hood[k]]
  }

  /** Entries come in strictly increasing distance. */
  ghost predicate Sorted(ds: seq<int>, good: seq<bool>, i: nat, hood: seq<nat>)
    requires |good| == |ds| && i <= |ds| && Members(good, i, hood)
  {
    forall k, l :: 0 <= k < l < |hood| ==> ds[hood[k]] < ds[hood[l]]
  }

  /** On a distance tie the earlier candidate keeps the key. */
  ghost predicate FirstWins(ds: seq<int>, good: seq<bool>, i: nat, hood: seq<nat>)
    requires |good| == |ds| && i <= |ds| && Members(good, i, hood)
  {
    forall j, k :: 0 <= j < i && 0 <= k < |hood| && good[j] && ds[j] == ds[hood[k]] ==> hood[k] <= j
  }

  /** Every good candidate's distance is a key. */
  ghost predicate Complete(ds: seq<int>, good: seq<bool>, i: nat, hood: seq<nat>)
    requires |good| == |ds| && i <= |ds| && Members(good, i, hood)
  {
    forall j :: 0 <= j < i && good[j] ==> exists k :: 0 <= k < |hood| && ds[hood[k]] == ds[j]
  }

  lemma EmptyHood(ds: seq<int>, good: seq<bool>)
    requires |good| == |ds|
    ensures HoodInv(ds, good, 0, [])
  {
  }

  /** A candidate that is filtered out, or whose distance is already a key, leaves the table as it is. */
  lemma SkipCandidate(ds: seq<int>, good: seq<bool>, i: nat, hood: seq<nat>)
    requires HoodInv(ds, good, i, hood) && i < |ds|
    requires !good[i] || exists k :: 0 <= k < |hood| && ds[hood[k]] == ds[i]
    ensures HoodInv(ds, good, i + 1, hood)
  {
  }

  /** `hood` with `i` inserted at position pos. */
  function Insert<T>(hood: seq<T>, pos: nat, i: T): (h: seq<T>)
    requires pos <= |hood|
    ensures |h| == |hood| + 1 && h[pos] == i
    ensures forall k :: 0 <= k < pos ==> h[k] == hood[k]
    ensures forall k :: pos < k < |h| ==> h[k] == hood[k - 1]
  {
    hood[..pos] + [i] + hood[pos..]
  }

  /**
   * A good candidate with a new distance is inserted just after the entries
   * that are closer.
   */
  lemma InsertCandidate(ds: seq<int>, good: seq<bool>, i: nat, hood: seq<nat>, pos: nat)
    requires HoodInv(ds, good, i, hood) && i < |ds| && good[i]
    requires pos <= |hood|
    requires forall k :: 0 <= k < pos ==> ds[hood[k]] < ds[i]
    requires pos < |hood| ==> ds[hood[pos]] > ds[i]
    ensures HoodInv(ds, good, i + 1, Insert(hood, pos, i))
  {
    InsertMembers(good, i, hood, pos);
    InsertSorted(ds, good, i, hood, pos);
    InsertComplete(ds, good, i, hood, pos);
    InsertFirst(ds, good, i, hood, pos);
  }

  lemma InsertSorted(ds: seq<int>, good: seq<bool>, i: nat, hood: seq<nat>, pos: nat)
    requires HoodInv(ds, good, i, hood) && i < |ds| && good[i]
    requires pos <= |hood|
    requires forall k :: 0 <= k < pos ==> ds[hood[k]] < ds[i]
    requires pos < |hood| ==> ds[hood[pos]] > ds[i]
    ensures Members(good, i + 1, Insert(hood, pos, i)) && Sorted(ds, good, i + 1, Insert(hood, pos, i))
  {
    forall k | pos <= k < |hood|
      ensures ds[hood[k]] > ds[i]
    {
      if k > pos {
        assert ds[hood[pos]] < ds[hood[k]];
      }
    }
    InsertMembers(good, i, hood, pos);
    InsertKeepsOrder(ds, i, hood, pos);
  }

  /** Inserting a key between the smaller and the larger ones keeps the list strictly increasing. */
  lemma InsertKeepsOrder(ds: seq<int>, i: nat, hood: seq<nat>, pos: nat)
    requires i < |ds| && pos <= |hood| && forall k :: 0 <= k < |hood| ==> hood[k] < |ds|
    requires forall k, l :: 0 <= k < l < |hood| ==> ds[hood[k]] < ds[hood[l]]
    requires forall k :: 0 <= k < pos ==> ds[hood[k]] < ds[i]
    requires forall k :: pos <= k < |hood| ==> ds[hood[k]] > ds[i]
    ensures forall k, l :: 0 <= k < l < |hood| + 1 ==> ds[Insert(hood, pos, i)[k]] < ds[Insert(hood, pos, i)[l]]
  {
    var h' := Insert(hood, pos, i);
    forall k, l | 0 <= k < l < |h'|
      ensures ds[h'[k]] < ds[h'[l]]
    {
      if l < pos {
        assert h'[k] == hood[k] && h'[l] == hood[l];
      } else if l == pos {
        assert h'[k] == hood[k];
      } else if k < pos {
        assert h'[k] == hood[k] && h'[l] == hood[l - 1];
      } else if k == pos {
        assert h'[l] == hood[l - 1];
      } else {
        assert h'[k] == hood[k - 1] && h'[l] == hood[l - 1];
      }
    }
  }

  lemma InsertMembers(good: seq<bool>, i: nat, hood: seq<nat>, pos: nat)
    requires i < |good| && good[i] && Members(good, i, hood)
    requires pos <= |hood|
    ensures Members(good, i + 1, Insert(hood, pos, i))
  {
  }

  lemma InsertComplete(ds: seq<int>, good: seq<bool>, i: nat, hood: seq<nat>, pos: nat)
    requires |good| == |ds| && i < |ds| && good[i] && Members(good, i, hood)
    requires Complete(ds, good, i, hood)
    requires pos <= |hood|
    requires Members(good, i + 1, Insert(hood, pos, i))
    ensures Complete(ds, good, i + 1, Insert(hood, pos, i))
  {
    var h' := Insert(hood, pos, i);
    forall j | 0 <= j < i + 1 && good[j]
      ensures exists k :: 0 <= k < |h'| && ds[h'[k]] == ds[j]
    {
      if j == i {
        assert ds[h'[pos]] == ds[j];
      } else {
        KeyKept(ds, i, hood, pos, j);
      }
    }
  }

  /** An existing key survives the insertion. */
  lemma KeyKept(ds: seq<int>, i: nat, hood: seq<nat>, pos: nat, j: nat)
    requires i < |ds| && j < |ds| && pos <= |hood|
    requires forall k :: 0 <= k < |hood| ==> hood[k] < |ds|
    requires exists k :: 0 <= k < |hood| && ds[hood[k]] == ds[j]
    ensures exists k :: 0 <= k < |hood| + 1 && ds[Insert(hood, pos, i)[k]] == ds[j]
  {
    var k :| 0 <= k < |hood| && ds[hood[k]] == ds[j];
    var k' := if k < pos then k else k + 1;
    assert Insert(hood, pos, i)[k'] == hood[k];
  }

  lemma InsertFirst(ds: seq<int>, good: seq<bool>, i: nat, hood: seq<nat>, pos: nat)
    requires HoodInv(ds, good, i, hood) && i < |ds| && good[i]
    requires pos <= |hood|
    requires forall k :: 0 <= k < |hood| ==> ds[hood[k]] != ds[i]
    ensures Members(good, i + 1, Insert(hood, pos, i)) && FirstWins(ds, good, i + 1, Insert(hood, pos, i))
  {
    var h' := Insert(hood, pos, i);
    forall j, k | 0 <= j < i + 1 && 0 <= k < |h'| && good[j] && ds[j] == ds[h'[k]]
      ensures h'[k] <= j
    {
      if k == pos {
      } else if k < pos {
        assert h'[k] == hood[k];
      } else {
        assert h'[k] == hood[k - 1];
      }
    }
  }

  /** The first `limit` entries of a complete table: what pickClosestNeighbors appends. */
  lemma TakeNearest(ds: seq<int>, good: seq<bool>, hood: seq<nat>, limit: nat, m: nat)
    requires HoodInv(ds, good, |ds|, hood)
    requires m == if limit < |hood| then limit else |hood|
    ensures forall j :: 0 <= j < |ds| && good[j] ==>
              (exists k :: 0 <= k < m && ds[hood[k]] == ds[j]) ||
              (m == limit && forall k :: 0 <= k < m ==> ds[hood[k]] < ds[j])
  {
    forall j | 0 <= j < |ds| && good[j]
      ensures (exists k :: 0 <= k < m && ds[hood[k]] == ds[j]) ||
              (m == limit && forall k :: 0 <= k < m ==> ds[hood[k]] < ds[j])
    {
      var k0 :| 0 <= k0 < |hood| && ds[hood[k0]] == ds[j];
      if k0 >= m {
        assert forall k :: 0 <= k < m ==> ds[hood[k]] < ds[hood[k0]];
      }
    }
  }
}
