/**
 * The quadtree object: a root node over the world region, a fixed leaf
 * capacity, and the last city `find` located (kept for highlighting only).
 */
module Quadtrees {
  import opened Wrappers
  import opened Geometry
  import opened Nodes
  import Insertion
  import Search
  import Duplicates

  /** The capacity a quadtree gets when none is given. */
  const DefaultCapacity: nat := 1

  datatype Quadtree = Quadtree(root: Node, capacity: nat, foundCity: Option<City>)

  /** The invariant every quadtree reachable through `Create`, `Insert` and
      `Find` satisfies. */
  predicate Valid(q: Quadtree) {
    WellFormed(q.root) && WithinCapacity(q.root, q.capacity)
  }

  /** A new quadtree: a single empty leaf over `boundary`, nothing found yet.
      The source's constructor defaults `capacity` to `DefaultCapacity`. */
  function Create(boundary: Region, capacity: nat := DefaultCapacity): (q: Quadtree)
    ensures Valid(q)
    ensures q.root.region == boundary && q.capacity == capacity
    ensures Cities(q.root) == multiset{} && q.foundCity == None
  {
    Quadtree(Leaf(boundary, []), capacity, None)
  }

  /**
   * Inserts a city. The result's flag is the source's return value: true
   * exactly when the city lies in the world region, in which case it is
   * stored once more and nothing else changes; when false the quadtree is
   * untouched. `OutOfFuel` stands for an insertion that recurses until
   * Python raises RecursionError.
   */
  function Insert(q: Quadtree, c: City, fuel: nat): (r: Insertion.Outcome<Quadtree>)
    ensures !InBoundary(q.root.region, c.point) ==> r == Insertion.Done(false, q)
    ensures r.Done? ==>
      && r.state.capacity == q.capacity
      && r.state.foundCity == q.foundCity
      && r.state.root.region == q.root.region
    ensures Valid(q) && r.Done? ==>
      && Valid(r.state)
      && (r.accepted <==> InBoundary(q.root.region, c.point))
      && (r.accepted ==> Cities(r.state.root) == Cities(q.root) + multiset{c})
      && (!r.accepted ==> r.state == q)
  {
    var r := Insertion.Insert(q.root, c, q.capacity, fuel);
    assert Valid(q) && r.Done? ==>
      && Valid(q.(root := r.state))
      && (r.accepted <==> InBoundary(q.root.region, c.point))
      && (r.accepted ==> Cities(r.state) == Cities(q.root) + multiset{c})
      && (!r.accepted ==> r.state == q.root)
    by {
      if Valid(q) {
        Insertion.InsertCorrect(q.root, c, q.capacity, fuel);
      }
    }
    match r
    case OutOfFuel => Insertion.OutOfFuel
    case Done(ok, root) => Insertion.Done(ok, q.(root := root))
  }

  /** What `find` returns, and the quadtree after the call. */
  datatype Lookup = Lookup(city: Option<City>, after: Quadtree)

  /**
   * Looks a point up by exact coordinates. The tree and capacity are not
   * changed; the recorded found city becomes the result, so a miss clears
   * any earlier one. A hit is a stored city at exactly `p`, and in a valid
   * quadtree a miss means no stored city lies at `p`.
   */
  function Find(q: Quadtree, p: Point): (r: Lookup)
    ensures r.after.root == q.root && r.after.capacity == q.capacity
    ensures r.after.foundCity == r.city
    ensures r.city.Some? ==>
      r.city.value in Cities(q.root) && r.city.value.point == p && InBoundary(q.root.region, p)
    ensures Valid(q) ==> (r.city.None? <==> forall c | c in Cities(q.root) :: c.point != p)
  {
    var found := Search.FindIn(q.root, p);
    assert Valid(q) ==> (found.None? <==> forall c | c in Cities(q.root) :: c.point != p) by {
      if Valid(q) {
        Search.FindInNone(q.root, p);
      }
    }
    Lookup(found, q.(foundCity := found))
  }

  /** After a successful insertion, looking up the city's point finds a city
      at that point (not necessarily the same one when points repeat). */
  lemma InsertThenFind(q: Quadtree, c: City, fuel: nat)
    requires Valid(q)
    requires Insert(q, c, fuel).Done? && Insert(q, c, fuel).accepted
    ensures Find(Insert(q, c, fuel).state, c.point).city.Some?
    ensures Find(Insert(q, c, fuel).state, c.point).city.value.point == c.point
  {
    var q' := Insert(q, c, fuel).state;
    Search.FindInComplete(q'.root, c);
  }

  /** When no stored city shares the new city's point, looking the point up
      after a successful insertion returns exactly that city. */
  lemma InsertThenFindUnique(q: Quadtree, c: City, fuel: nat)
    requires Valid(q)
    requires forall d | d in Cities(q.root) :: d.point != c.point
    requires Insert(q, c, fuel).Done? && Insert(q, c, fuel).accepted
    ensures Find(Insert(q, c, fuel).state, c.point).city == Some(c)
  {
    InsertThenFind(q, c, fuel);
  }

  /** A second lookup of the same point returns the same city and leaves the
      quadtree as the first one left it. */
  lemma FindTwice(q: Quadtree, p: Point)
    ensures Find(Find(q, p).after, p) == Find(q, p)
  {
  }

  /** A point on the world's upper x or y edge is refused by insertion and
      never found. */
  lemma UpperEdgeExcluded(q: Quadtree, c: City, fuel: nat)
    requires c.point.x == q.root.region.xMax || c.point.y == q.root.region.yMax
    ensures Insert(q, c, fuel) == Insertion.Done(false, q)
    ensures Find(q, c.point).city == None
  {
  }

  /** With capacity 0 no city is ever stored: every insertion of a point in
      the world region runs out of fuel, as the source recurses until Python
      raises `RecursionError`. */
  lemma ZeroCapacityNeverStores(boundary: Region, c: City, fuel: nat)
    requires InBoundary(boundary, c.point)
    ensures Insert(Create(boundary, 0), c, fuel) == Insertion.OutOfFuel
  {
    Duplicates.DuplicatesExhaustFuel(boundary, [], c, 0, fuel);
  }

  /** A fresh quadtree with the default capacity stores any city of its
      world region at once, without needing a split. */
  lemma FirstInsertAccepted(boundary: Region, c: City, fuel: nat)
    requires InBoundary(boundary, c.point)
    ensures Insert(Create(boundary), c, fuel)
         == Insertion.Done(true, Create(boundary).(root := Leaf(boundary, [c])))
  {
    assert [] + [c] == [c];
  }
}
