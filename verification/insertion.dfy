/**
 * Recursive insertion with leaf-to-internal subdivision.
 *
 * The source recurses without bound: once more than `capacity` cities share
 * one point, re-inserting them after a split lands them all in the same
 * child again, and the split repeats until Python raises RecursionError,
 * leaving a partly split node behind. The model therefore carries a `fuel`
 * budget that every nested subdivision consumes, and `OutOfFuel` stands for
 * that error; the partly split tree is not kept.
 */
module Insertion {
  import opened Wrappers
  import opened Geometry
  import opened Nodes

  /** What an insertion call returns: the source's boolean result together
      with the subtree as the call left it, or exhaustion of the fuel. */
  datatype Outcome<T> = Done(accepted: bool, state: T) | OutOfFuel

  /**
   * Inserts `c` into the subtree `t` whose leaves hold at most `cap` cities.
   * A point outside the region is refused; a leaf with room appends the city;
   * a full leaf is subdivided first; an internal node hands the city to its
   * children.
   */
  function Insert(t: Node, c: City, cap: nat, fuel: nat): (r: Outcome<Node>)
    ensures !InBoundary(t.region, c.point) ==> r == Done(false, t)
    ensures InBoundary(t.region, c.point) && t.Leaf? && |t.cities| < cap ==>
      r == Done(true, Leaf(t.region, t.cities + [c]))
    ensures r.Done? ==> r.state.region == t.region
    ensures r.Done? && t.Internal? ==> r.state.Internal?
    ensures r.Done? && InBoundary(t.region, c.point) && t.Leaf? && |t.cities| >= cap ==> r.state.Internal?
    decreases fuel, 1, t
  {
    if !InBoundary(t.region, c.point) then Done(false, t)
    else match t
      case Leaf(region, cs) =>
        if |cs| < cap then Done(true, Leaf(region, cs + [c]))
        else if fuel == 0 then OutOfFuel
        else (match Subdivide(region, cs, cap, fuel - 1)
          case None => OutOfFuel
          case Some(n) => InsertIntoChildren(n, c, cap, fuel - 1))
      case Internal(_, _, _, _, _) => InsertIntoChildren(t, c, cap, fuel)
  }

  /**
   * Offers `c` to the children of an internal node in the order NW, NE, SW,
   * SE and stops at the first that accepts. A child that refuses is kept as
   * that call left it, since the source mutates children in place.
   */
  function InsertIntoChildren(t: Node, c: City, cap: nat, fuel: nat): (r: Outcome<Node>)
    requires t.Internal?
    ensures r.Done? ==> r.state.Internal? && r.state.region == t.region
    decreases fuel, 1, t, 0
  {
    var a := Insert(t.nw, c, cap, fuel);
    if a.OutOfFuel? then OutOfFuel
    else if a.accepted then Done(true, t.(nw := a.state))
    else
      var b := Insert(t.ne, c, cap, fuel);
      if b.OutOfFuel? then OutOfFuel
      else if b.accepted then Done(true, t.(nw := a.state, ne := b.state))
      else
        var d := Insert(t.sw, c, cap, fuel);
        if d.OutOfFuel? then OutOfFuel
        else if d.accepted then Done(true, t.(nw := a.state, ne := b.state, sw := d.state))
        else
          var e := Insert(t.se, c, cap, fuel);
          if e.OutOfFuel? then OutOfFuel
          else Done(e.accepted, t.(nw := a.state, ne := b.state, sw := d.state, se := e.state))
  }

  /** An internal node over `r` whose four children are empty leaves. */
  function EmptyChildren(r: Region): Node {
    var q := Split(r);
    Internal(r, Leaf(q.nw, []), Leaf(q.ne, []), Leaf(q.sw, []), Leaf(q.se, []))
  }

  /**
   * Turns a leaf over `r` holding `cs` into an internal node and re-inserts
   * the cities into it; `None` when a nested insertion runs out of fuel.
   */
  function Subdivide(r: Region, cs: seq<City>, cap: nat, fuel: nat): (res: Option<Node>)
    ensures res.Some? ==> res.value.Internal? && res.value.region == r
    decreases fuel + 1, 0
  {
    Reinsert(EmptyChildren(r), cs, cap, fuel)
  }

  /**
   * Re-inserts the cities still pending, popping from the end of the list
   * as the source does, and ignoring each insertion's boolean result.
   */
  function Reinsert(n: Node, pending: seq<City>, cap: nat, fuel: nat): (res: Option<Node>)
    requires n.Internal?
    ensures res.Some? ==> res.value.Internal? && res.value.region == n.region
    decreases fuel + 1, 0, |pending|
  {
    if pending == [] then Some(n)
    else
      var last := pending[|pending| - 1];
      match Insert(n, last, cap, fuel)
      case OutOfFuel => None
      case Done(_, n') => Reinsert(n', pending[..|pending| - 1], cap, fuel)
  }

  /**
   * Insertion keeps the tree well formed and within capacity; it accepts
   * exactly the cities inside the region, adds exactly that one city, and
   * leaves the subtree untouched when it refuses.
   */
  lemma {:induction false} InsertCorrect(t: Node, c: City, cap: nat, fuel: nat)
    requires WellFormed(t)
    ensures var r := Insert(t, c, cap, fuel);
      r.Done? ==>
        && WellFormed(r.state)
        && (r.accepted <==> InBoundary(t.region, c.point))
        && (r.accepted ==> Cities(r.state) == Cities(t) + multiset{c})
        && (!r.accepted ==> r.state == t)
        && (WithinCapacity(t, cap) ==> WithinCapacity(r.state, cap))
    decreases fuel, 1, t
  {
    if InBoundary(t.region, c.point) {
      match t
      case Leaf(region, cs) =>
        if |cs| < cap {
          assert multiset(cs + [c]) == multiset(cs) + multiset{c};
        } else if fuel > 0 {
          SubdivideCorrect(region, cs, cap, fuel - 1);
          var s := Subdivide(region, cs, cap, fuel - 1);
          if s.Some? {
            InsertIntoChildrenCorrect(s.value, c, cap, fuel - 1);
          }
        }
      case Internal(_, _, _, _, _) =>
        InsertIntoChildrenCorrect(t, c, cap, fuel);
    }
  }

  /** A city inside an internal node's region is always taken by one of its
      children, unless the fuel runs out. */
  lemma {:induction false} InsertIntoChildrenCorrect(t: Node, c: City, cap: nat, fuel: nat)
    requires t.Internal? && WellFormed(t)
    requires InBoundary(t.region, c.point)
    ensures var r := InsertIntoChildren(t, c, cap, fuel);
      r.Done? ==>
        && r.accepted
        && WellFormed(r.state)
        && Cities(r.state) == Cities(t) + multiset{c}
        && (WithinCapacity(t, cap) ==> WithinCapacity(r.state, cap))
    decreases fuel, 1, t, 0
  {
    var p := c.point;
    assert Covering(Split(t.region), p) == 1;
    var k := Quadrant(t, p);
    var x := Insert(Child(t, k), c, cap, fuel);
    OffersReachQuadrant(t, c, cap, fuel);
    InsertCorrect(Child(t, k), c, cap, fuel);
    if x.Done? {
      Graft(t, k, x.state, c, cap);
    }
  }

  /** The i-th child of an internal node, in the order NW, NE, SW, SE. */
  function Child(t: Node, i: nat): Node
    requires t.Internal? && i < 4
  {
    if i == 0 then t.nw else if i == 1 then t.ne else if i == 2 then t.sw else t.se
  }

  /** `t` with its i-th child replaced by `x`. */
  function WithChild(t: Node, i: nat, x: Node): Node
    requires t.Internal? && i < 4
  {
    if i == 0 then t.(nw := x) else if i == 1 then t.(ne := x) else if i == 2 then t.(sw := x) else t.(se := x)
  }

  /** The position of the first child whose region contains `p`. */
  function Quadrant(t: Node, p: Point): (i: nat)
    requires t.Internal?
    ensures i < 4
  {
    if InBoundary(t.nw.region, p) then 0
    else if InBoundary(t.ne.region, p) then 1
    else if InBoundary(t.sw.region, p) then 2
    else 3
  }

  /** Children before the one containing the point refuse it unchanged, so
      the outcome is decided by that child alone. */
  lemma OffersReachQuadrant(t: Node, c: City, cap: nat, fuel: nat)
    requires t.Internal?
    requires InBoundary(Child(t, Quadrant(t, c.point)).region, c.point)
    ensures var k := Quadrant(t, c.point);
      var x := Insert(Child(t, k), c, cap, fuel);
      && (x.OutOfFuel? ==> InsertIntoChildren(t, c, cap, fuel) == OutOfFuel)
      && (x.Done? && x.accepted ==> InsertIntoChildren(t, c, cap, fuel) == Done(true, WithChild(t, k, x.state)))
  {
  }

  /** Replacing one child of a well-formed internal node by a well-formed
      subtree over the same region holding one more copy of `c` keeps the
      node well formed and adds exactly that copy. */
  lemma Graft(t: Node, k: nat, x: Node, c: City, cap: nat)
    requires t.Internal? && k < 4 && WellFormed(t)
    requires x.region == Child(t, k).region && WellFormed(x)
    requires Cities(x) == Cities(Child(t, k)) + multiset{c}
    requires WithinCapacity(Child(t, k), cap) ==> WithinCapacity(x, cap)
    ensures WellFormed(WithChild(t, k, x))
    ensures Cities(WithChild(t, k, x)) == Cities(t) + multiset{c}
    ensures WithinCapacity(t, cap) ==> WithinCapacity(WithChild(t, k, x), cap)
  {
    var Internal(r, nw, ne, sw, se) := t;
    if k == 0 {
      assert WithChild(t, k, x) == Internal(r, x, ne, sw, se);
      Regraft(t, Internal(r, x, ne, sw, se), c, cap);
    } else if k == 1 {
      assert WithChild(t, k, x) == Internal(r, nw, x, sw, se);
      Regraft(t, Internal(r, nw, x, sw, se), c, cap);
    } else if k == 2 {
      assert WithChild(t, k, x) == Internal(r, nw, ne, x, se);
      Regraft(t, Internal(r, nw, ne, x, se), c, cap);
    } else {
      assert WithChild(t, k, x) == Internal(r, nw, ne, sw, x);
      Regraft(t, Internal(r, nw, ne, sw, x), c, cap);
    }
  }

  /** The four-child form of `Graft`. */
  lemma Regraft(t: Node, t': Node, c: City, cap: nat)
    requires t.Internal? && t'.Internal? && WellFormed(t)
    requires t'.region == t.region && ChildRegions(t') == ChildRegions(t)
    requires WellFormed(t'.nw) && WellFormed(t'.ne) && WellFormed(t'.sw) && WellFormed(t'.se)
    requires Cities(t'.nw) + Cities(t'.ne) + Cities(t'.sw) + Cities(t'.se)
          == Cities(t.nw) + Cities(t.ne) + Cities(t.sw) + Cities(t.se) + multiset{c}
    requires WithinCapacity(t, cap) ==>
      WithinCapacity(t'.nw, cap) && WithinCapacity(t'.ne, cap) && WithinCapacity(t'.sw, cap) && WithinCapacity(t'.se, cap)
    ensures WellFormed(t') && Cities(t') == Cities(t) + multiset{c}
    ensures WithinCapacity(t, cap) ==> WithinCapacity(t', cap)
  {
  }

  /** Subdividing a leaf loses and duplicates nothing: the new internal node
      holds exactly the leaf's cities, well formed and within capacity. */
  lemma {:induction false} SubdivideCorrect(r: Region, cs: seq<City>, cap: nat, fuel: nat)
    requires forall i :: 0 <= i < |cs| ==> InBoundary(r, cs[i].point)
    ensures var res := Subdivide(r, cs, cap, fuel);
      res.Some? ==>
        && WellFormed(res.value)
        && WithinCapacity(res.value, cap)
        && Cities(res.value) == multiset(cs)
    decreases fuel + 1, 0
  {
    var n := EmptyChildren(r);
    assert WellFormed(n.nw) && WellFormed(n.ne) && WellFormed(n.sw) && WellFormed(n.se);
    assert WithinCapacity(n.nw, cap) && WithinCapacity(n.ne, cap);
    assert WithinCapacity(n.sw, cap) && WithinCapacity(n.se, cap);
    assert Cities(n) == multiset{};
    ReinsertCorrect(n, cs, cap, fuel);
  }

  /** Re-inserting cities of the node's own region adds each of them once. */
  lemma {:induction false} ReinsertCorrect(n: Node, pending: seq<City>, cap: nat, fuel: nat)
    requires n.Internal? && WellFormed(n)
    requires forall i :: 0 <= i < |pending| ==> InBoundary(n.region, pending[i].point)
    ensures var res := Reinsert(n, pending, cap, fuel);
      res.Some? ==>
        && WellFormed(res.value)
        && Cities(res.value) == Cities(n) + multiset(pending)
        && (WithinCapacity(n, cap) ==> WithinCapacity(res.value, cap))
    decreases fuel + 1, 0, |pending|
  {
    if pending != [] {
      var k := |pending| - 1;
      var last := pending[k];
      InsertCorrect(n, last, cap, fuel);
      var r := Insert(n, last, cap, fuel);
      if r.Done? {
        ReinsertCorrect(r.state, pending[..k], cap, fuel);
        assert pending == pending[..k] + [last];
        assert multiset(pending) == multiset(pending[..k]) + multiset{last};
      }
    }
  }
}
