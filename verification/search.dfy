/**
 * Exact-coordinate lookup: scan the node's own cities in list order, then
 * descend into the one child whose region contains the query point.
 */
module Search {
  import opened Wrappers
  import opened Geometry
  import opened Nodes

  /** Index of the first city in `cs` located exactly at `p`, or `|cs|` when
      there is none. */
  function FirstMatch(cs: seq<City>, p: Point): (k: nat)
    ensures k <= |cs|
    ensures forall j :: 0 <= j < k ==> cs[j].point != p
    ensures k < |cs| ==> cs[k].point == p
  {
    if cs == [] then 0
    else if cs[0].point == p then 0
    else 1 + FirstMatch(cs[1..], p)
  }

  /**
   * Looks `p` up in the subtree `t`. Whatever it returns is a city of the
   * subtree located exactly at `p`, and `p` then lies in the subtree's region.
   */
  function FindIn(t: Node, p: Point): (r: Option<City>)
    ensures r.Some? ==> r.value in Cities(t) && r.value.point == p && InBoundary(t.region, p)
  {
    if !InBoundary(t.region, p) then None
    else match t
      case Leaf(_, cs) =>
        var k := FirstMatch(cs, p);
        if k < |cs| then Some(cs[k]) else None
      case Internal(_, nw, ne, sw, se) =>
        if InBoundary(nw.region, p) then FindIn(nw, p)
        else if InBoundary(ne.region, p) then FindIn(ne, p)
        else if InBoundary(sw.region, p) then FindIn(sw, p)
        else if InBoundary(se.region, p) then FindIn(se, p)
        else None
  }

  /** In a leaf, lookup returns the earliest city of the list at `p`. */
  lemma FindInLeafFirst(r: Region, cs: seq<City>, p: Point, i: nat)
    requires InBoundary(r, p)
    requires i < |cs| && cs[i].point == p
    requires forall j :: 0 <= j < i ==> cs[j].point != p
    ensures FindIn(Leaf(r, cs), p) == Some(cs[i])
  {
  }

  /** Lookup in a well-formed subtree misses no stored city. */
  lemma {:induction false} FindInComplete(t: Node, c: City)
    requires WellFormed(t)
    requires c in Cities(t)
    ensures FindIn(t, c.point).Some?
  {
    var p := c.point;
    CityInside(t, c);
    match t
    case Leaf(_, cs) =>
      var i :| 0 <= i < |cs| && cs[i] == c;
      assert FirstMatch(cs, p) <= i;
    case Internal(r, nw, ne, sw, se) =>
      assert Covering(Split(r), p) == 1;
      if c in Cities(nw) {
        CityInside(nw, c);
        FindInComplete(nw, c);
      } else if c in Cities(ne) {
        CityInside(ne, c);
        FindInComplete(ne, c);
      } else if c in Cities(sw) {
        CityInside(sw, c);
        FindInComplete(sw, c);
      } else {
        CityInside(se, c);
        FindInComplete(se, c);
      }
  }

  /** Lookup in a well-formed subtree reports "not found" exactly when no
      stored city lies at `p`. */
  lemma FindInNone(t: Node, p: Point)
    requires WellFormed(t)
    ensures FindIn(t, p).None? <==> forall c | c in Cities(t) :: c.point != p
  {
    forall c | c in Cities(t) && c.point == p
      ensures FindIn(t, p).Some?
    {
      FindInComplete(t, c);
    }
  }
}
