/**
 * What insertion does with cities that share one point. Subdividing a leaf
 * re-inserts its cities last-first, so a child receives them in reverse
 * order; and when a full leaf's cities and the new city all share a point,
 * every split sends them all to the same child again, so insertion runs
 * out of fuel however much it is given (the source recurses until Python
 * raises `RecursionError`).
 */
module Duplicates {
  import opened Wrappers
  import opened Geometry
  import opened Nodes
  import opened Insertion
  import Search

  /** The elements of `s` in reverse order. */
  function Reversed<T>(s: seq<T>): (r: seq<T>)
    ensures |r| == |s|
    ensures forall i :: 0 <= i < |s| ==> r[i] == s[|s| - 1 - i]
  {
    if s == [] then [] else [s[|s| - 1]] + Reversed(s[..|s| - 1])
  }

  /** All cities of `cs` lie exactly at `p`. */
  predicate AllAt(cs: seq<City>, p: Point) {
    forall i :: 0 <= i < |cs| ==> cs[i].point == p
  }

  /** The internal node over `r` whose child containing `p` holds `cs` and
      whose other children are empty leaves. */
  function Gathered(r: Region, p: Point, cs: seq<City>): Node {
    var q := Split(r);
    if InBoundary(q.nw, p) then Internal(r, Leaf(q.nw, cs), Leaf(q.ne, []), Leaf(q.sw, []), Leaf(q.se, []))
    else if InBoundary(q.ne, p) then Internal(r, Leaf(q.nw, []), Leaf(q.ne, cs), Leaf(q.sw, []), Leaf(q.se, []))
    else if InBoundary(q.sw, p) then Internal(r, Leaf(q.nw, []), Leaf(q.ne, []), Leaf(q.sw, cs), Leaf(q.se, []))
    else Internal(r, Leaf(q.nw, []), Leaf(q.ne, []), Leaf(q.sw, []), Leaf(q.se, cs))
  }

  /** A city at `p` offered to a gathered node joins the end of the child
      list at `p` while that child has room. */
  lemma GatherOne(r: Region, p: Point, acc: seq<City>, c: City, cap: nat, fuel: nat)
    requires InBoundary(r, p) && c.point == p
    requires |acc| < cap
    ensures Insert(Gathered(r, p, acc), c, cap, fuel) == Done(true, Gathered(r, p, acc + [c]))
  {
    var q := Split(r);
    assert Covering(q, p) == 1;
    var n := Gathered(r, p, acc);
    var full := Leaf(if InBoundary(q.nw, p) then q.nw else if InBoundary(q.ne, p) then q.ne
                     else if InBoundary(q.sw, p) then q.sw else q.se, acc);
    assert Insert(full, c, cap, fuel) == Done(true, full.(cities := acc + [c]));
    if InBoundary(q.nw, p) {
      assert Insert(n, c, cap, fuel) == InsertIntoChildren(n, c, cap, fuel);
    } else if InBoundary(q.ne, p) {
      assert Insert(n.nw, c, cap, fuel) == Done(false, n.nw);
    } else if InBoundary(q.sw, p) {
      assert Insert(n.nw, c, cap, fuel) == Done(false, n.nw);
      assert Insert(n.ne, c, cap, fuel) == Done(false, n.ne);
    } else {
      assert Insert(n.nw, c, cap, fuel) == Done(false, n.nw);
      assert Insert(n.ne, c, cap, fuel) == Done(false, n.ne);
      assert Insert(n.sw, c, cap, fuel) == Done(false, n.sw);
    }
  }

  /** Re-inserting cities that all lie at `p` appends them, last first, to
      the child containing `p`. */
  lemma {:induction false} GatherAll(r: Region, p: Point, acc: seq<City>, pending: seq<City>, cap: nat, fuel: nat)
    requires InBoundary(r, p) && AllAt(pending, p)
    requires |acc| + |pending| <= cap
    ensures Reinsert(Gathered(r, p, acc), pending, cap, fuel) == Some(Gathered(r, p, acc + Reversed(pending)))
    decreases |pending|
  {
    if pending == [] {
      assert acc + Reversed(pending) == acc;
    } else {
      var k := |pending| - 1;
      var last := pending[k];
      GatherOne(r, p, acc, last, cap, fuel);
      GatherAll(r, p, acc + [last], pending[..k], cap, fuel);
      assert Reversed(pending) == [last] + Reversed(pending[..k]);
      assert acc + [last] + Reversed(pending[..k]) == acc + Reversed(pending);
    }
  }

  /**
   * A full leaf whose cities all lie at the new city's point can never
   * take it: with any amount of fuel the insertion runs out, as the source
   * recurses until Python raises `RecursionError`.
   */
  lemma {:induction false} DuplicatesExhaustFuel(r: Region, cs: seq<City>, c: City, cap: nat, fuel: nat)
    requires InBoundary(r, c.point)
    requires |cs| == cap && AllAt(cs, c.point)
    ensures Insert(Leaf(r, cs), c, cap, fuel) == OutOfFuel
    decreases fuel
  {
    if fuel > 0 {
      var p := c.point;
      var q := Split(r);
      assert Covering(q, p) == 1;
      assert Gathered(r, p, []) == EmptyChildren(r);
      GatherAll(r, p, [], cs, cap, fuel - 1);
      var rev := Reversed(cs);
      assert [] + rev == rev;
      assert Subdivide(r, cs, cap, fuel - 1) == Some(Gathered(r, p, rev));
      if InBoundary(q.nw, p) {
        DuplicatesExhaustFuel(q.nw, rev, c, cap, fuel - 1);
      } else if InBoundary(q.ne, p) {
        DuplicatesExhaustFuel(q.ne, rev, c, cap, fuel - 1);
      } else if InBoundary(q.sw, p) {
        DuplicatesExhaustFuel(q.sw, rev, c, cap, fuel - 1);
      } else {
        DuplicatesExhaustFuel(q.se, rev, c, cap, fuel - 1);
      }
    }
  }

  /**
   * Splitting a leaf whose cities all lie at `p` moves them, reversed, into
   * the child containing `p`. Lookup of `p` returns the first of them
   * before the split and the last of them after it.
   */
  lemma {:induction false} SplitReversesDuplicates(r: Region, cs: seq<City>, p: Point, cap: nat, fuel: nat)
    requires InBoundary(r, p) && AllAt(cs, p)
    requires 0 < |cs| <= cap
    ensures Subdivide(r, cs, cap, fuel) == Some(Gathered(r, p, Reversed(cs)))
    ensures Search.FindIn(Leaf(r, cs), p) == Some(cs[0])
    ensures Search.FindIn(Gathered(r, p, Reversed(cs)), p) == Some(cs[|cs| - 1])
  {
    assert Gathered(r, p, []) == EmptyChildren(r);
    GatherAll(r, p, [], cs, cap, fuel);
    assert [] + Reversed(cs) == Reversed(cs);
    var rev := Reversed(cs);
    assert Search.FirstMatch(cs, p) == 0;
    assert Search.FirstMatch(rev, p) == 0;
    var q := Split(r);
    assert Covering(q, p) == 1;
    if InBoundary(q.nw, p) {
      assert Search.FindIn(Leaf(q.nw, rev), p) == Some(rev[0]);
    } else if InBoundary(q.ne, p) {
      assert Search.FindIn(Leaf(q.ne, rev), p) == Some(rev[0]);
    } else if InBoundary(q.sw, p) {
      assert Search.FindIn(Leaf(q.sw, rev), p) == Some(rev[0]);
    } else {
      assert Search.FindIn(Leaf(q.se, rev), p) == Some(rev[0]);
    }
  }
}
