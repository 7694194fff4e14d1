/**
 * Cities and the quadtree's nodes. A node is either a leaf that holds cities
 * directly or an internal node with exactly four children; the source's
 * "NW is None" test becomes the `Leaf?` tag, so an internal node cannot
 * hold cities of its own.
 */
module Nodes {
  import opened Geometry

  datatype City = City(name: string, point: Point)

  datatype Node =
    | Leaf(region: Region, cities: seq<City>)
    | Internal(region: Region, nw: Node, ne: Node, sw: Node, se: Node)

  /** Every city stored anywhere in the subtree, with multiplicity. */
  function Cities(t: Node): multiset<City> {
    match t
    case Leaf(_, cs) => multiset(cs)
    case Internal(_, nw, ne, sw, se) => Cities(nw) + Cities(ne) + Cities(sw) + Cities(se)
  }

  /** The regions of an internal node's children. */
  function ChildRegions(t: Node): Quadrants
    requires t.Internal?
  {
    Quadrants(t.nw.region, t.ne.region, t.sw.region, t.se.region)
  }

  /**
   * The structural invariant: each leaf's cities lie inside the leaf's
   * region, and each internal node's children cover the four quadrants of
   * its region.
   */
  predicate WellFormed(t: Node) {
    match t
    case Leaf(r, cs) => forall i :: 0 <= i < |cs| ==> InBoundary(r, cs[i].point)
    case Internal(r, nw, ne, sw, se) =>
      && ChildRegions(t) == Split(r)
      && WellFormed(nw) && WellFormed(ne) && WellFormed(sw) && WellFormed(se)
  }

  /** No leaf of the subtree holds more than `cap` cities. */
  predicate WithinCapacity(t: Node, cap: nat) {
    match t
    case Leaf(_, cs) => |cs| <= cap
    case Internal(_, nw, ne, sw, se) =>
      WithinCapacity(nw, cap) && WithinCapacity(ne, cap) && WithinCapacity(sw, cap) && WithinCapacity(se, cap)
  }

  /** Every city of a well-formed subtree lies inside the subtree's root region. */
  lemma {:induction false} CityInside(t: Node, c: City)
    requires WellFormed(t)
    requires c in Cities(t)
    ensures InBoundary(t.region, c.point)
  {
    match t
    case Leaf(r, cs) =>
      var i :| 0 <= i < |cs| && cs[i] == c;
    case Internal(r, nw, ne, sw, se) =>
      assert Covering(Split(r), c.point) == (if InBoundary(r, c.point) then 1 else 0);
      if c in Cities(nw) {
        CityInside(nw, c);
      } else if c in Cities(ne) {
        CityInside(ne, c);
      } else if c in Cities(sw) {
        CityInside(sw, c);
      } else {
        CityInside(se, c);
      }
  }
}
