# Point quadtree of named cities

A model of the point-region quadtree in `app.py`. The tree stores named 2D
points ("cities") in a rectangle that it splits recursively into four
quadrants, and it answers exact-coordinate lookups. The model covers:

- the half-open boundary test `_in_boundary`;
- the leaf-to-internal split `_subdivide`: midpoint quadrants NW, NE, SW, SE,
  then the leaf's cities re-inserted last-first;
- the recursive `_insert`: refuse a point outside the node, append to a leaf
  with room, otherwise split and offer the city to NW, NE, SW, SE in turn;
- `find` / `_find`: reset the found city, scan the node's cities in list
  order, then descend into the one child containing the point.

Files, one module each:

- `geometry.dfy`: points, regions, `InBoundary` and the midpoint `Split`.
- `nodes.dfy`: cities, the tagged `Leaf | Internal` node, the multiset of
  stored cities, and the `WellFormed` and `WithinCapacity` invariants.
- `insertion.dfy`: fuel-bounded `Insert`, `InsertIntoChildren`, `Subdivide`
  and `Reinsert`, with their correctness lemmas.
- `search.dfy`: `FirstMatch` and `FindIn`, with their completeness lemmas.
- `quadtree.dfy`: the quadtree object (root, capacity, last found city),
  `Create`, `Insert` and `Find`, and the insert/find round trip.
- `duplicates.dfy`: what happens to cities that share a point.
- `wrappers.dfy`: `Option`.

Coordinates are exact `real`s, so the midpoint `(a + b) / 2` splits a region
exactly. Insertion takes a `fuel` argument. Every nested split uses one unit
of it, and `OutOfFuel` stands for Python raising `RecursionError` in the
source. The source recurses without bound until that error once more than
`capacity` cities share one point: every split sends them all to the same
child again (`Duplicates.DuplicatesExhaustFuel`).

Behaviour of the code a reader may not expect:

- `_insert` returns at the first child that accepts. It does not try all
  four children.
- An insert outside the world region returns `False`.
- The constructor accepts any capacity and any region.
- Recursion depth is not bounded by the number of cities: with duplicate
  points it is unbounded.
- A lookup after inserting a city returns *a* city at that point. It need not
  carry the inserted name when points repeat, and a split reverses the order
  in which duplicates are found (`Duplicates.SplitReversesDuplicates`).

Internal nodes carry no city list. In the source, `_subdivide` empties an
internal node's list and nothing appends to it afterwards, so the scan that
`_find` runs over an internal node's own cities never matches anything.

## Model

| member | source | states |
|---|---|---|
| Geometry.InBoundary | app.py:64-66 | Half-open membership: x_min <= x < x_max and y_min <= y < y_max. A point on the upper x or y edge is outside, and the lower corner belongs exactly to the non-empty regions. |
| Geometry.Split | app.py:50-58 | The four midpoint quadrants tile the region. A point of the region lies in exactly one quadrant and a point outside it in none. A non-empty region yields non-empty quadrants of half its width and height. |
| Nodes.CityInside | app.py:33-37 | In a well-formed subtree every stored city lies inside the subtree's region, because a city is stored only after the boundary check passes. |
| Insertion.Insert | app.py:32-48 | A point outside the node is refused and the subtree is returned unchanged. A leaf with room appends the city at the end of its list and stays a leaf. A completed insertion keeps the node's region. An internal node stays internal. A full leaf that receives a point becomes internal. |
| Insertion.InsertIntoChildren | app.py:43-48 | Offering a city to the children keeps the node internal over the same region. |
| Insertion.Subdivide | app.py:50-62 | A split leaf becomes an internal node over the same region. |
| Insertion.Reinsert | app.py:60-62 | Re-inserting the popped cities keeps the node internal over the same region. |
| Insertion.InsertCorrect | app.py:32-48 | A completed insertion keeps the tree well formed and within capacity. It accepts exactly when the point lies in the region. When accepted, the stored multiset gains exactly the new city. When refused, the subtree is unchanged. |
| Insertion.InsertIntoChildrenCorrect | app.py:43-48 | A city inside an internal node is always accepted by one child, unless the fuel runs out. The node then holds exactly one more copy of the city and stays well formed and within capacity. |
| Insertion.SubdivideCorrect | app.py:50-62 | A split loses and duplicates nothing. The new internal node holds exactly the leaf's cities and is well formed, and every new leaf is within capacity. |
| Insertion.ReinsertCorrect | app.py:60-62 | Re-inserting cities of the node's own region adds each of them exactly once and keeps the node well formed and within capacity. |
| Search.FirstMatch | app.py:76-79 | The scan returns the index of the first city at exactly the query point, or the list length when there is none. |
| Search.FindIn | app.py:72-93 | A city the lookup returns is stored in the subtree, sits at exactly the query point, and the point lies in the subtree's region. |
| Search.FindInLeafFirst | app.py:76-79 | In a leaf, the lookup returns the earliest city in list order at the query point. |
| Search.FindInComplete | app.py:72-93 | In a well-formed subtree, the lookup finds a city at the point of any stored city. |
| Search.FindInNone | app.py:72-93 | In a well-formed subtree, the lookup returns nothing exactly when no stored city lies at the query point. |
| Quadtrees.Create | app.py:24-27 | A new quadtree is one empty leaf over the boundary, with the given capacity (by default 1) and no found city, and it satisfies the invariant. |
| Quadtrees.Insert | app.py:29-48 | A city outside the world region is refused and the quadtree is unchanged. On a valid quadtree, a completed insertion returns true exactly when the point lies in the world region. It then stores exactly one more copy of the city and keeps the invariant. Capacity, world region and found city never change. |
| Quadtrees.Find | app.py:68-93 | The tree and capacity are unchanged. The found city becomes the result, so a miss clears an earlier one. A hit is a stored city at exactly the point. In a valid quadtree a miss means no stored city lies there. |
| Quadtrees.InsertThenFind | app.py:29-93 | After a successful insertion, a lookup of the city's point returns a city at that point. |
| Quadtrees.InsertThenFindUnique | app.py:29-93 | If no stored city shared the point, a lookup after a successful insertion returns exactly the inserted city. |
| Quadtrees.FindTwice | app.py:68-70 | A repeated lookup of the same point returns the same city and leaves the quadtree as the first lookup left it. |
| Quadtrees.UpperEdgeExcluded | app.py:64-66 | A point on the world's upper x or y edge is refused by insertion and never found. |
| Quadtrees.FirstInsertAccepted | app.py:24-38 | A fresh quadtree with the default capacity 1 stores any in-region city at once, as a one-city leaf. |
| Quadtrees.ZeroCapacityNeverStores | app.py:36-41 | With capacity 0, inserting any point of the world region recurses until the fuel runs out, as the source recurses until Python raises `RecursionError`. |
| Duplicates.GatherOne | app.py:36-38 | A city at point p offered to a freshly split node joins the end of the list of the child containing p, while that child has room. |
| Duplicates.GatherAll | app.py:60-62 | Re-inserting cities that all lie at p appends them to the child containing p in reverse order, because the source pops from the end. |
| Duplicates.DuplicatesExhaustFuel | app.py:36-48 | Take a full leaf whose cities all sit at the new city's point. With any amount of fuel, inserting that city runs out. |
| Duplicates.SplitReversesDuplicates | app.py:60-62 | Splitting a leaf of cities at one point reverses them into one child. A lookup of that point returns the first city before the split and the last one after it. |

## Left out

- `draw` / `_draw_node` (app.py:95-120): rendering through matplotlib, a foreign library.
- `main` (app.py:122-150): console input, `float()` parsing and printing are I/O.
- Floating point: coordinates are exact reals, so the midpoint is never rounded.
- Unbounded recursion is bounded by fuel. Every nested split consumes one unit, and `OutOfFuel` models Python's `RecursionError`.
- The partly split tree a caller catching `RecursionError` would keep (children already set at app.py:55-58, cities partly re-inserted at app.py:60-62) is discarded: `OutOfFuel` carries no tree.
- Insertion.InsertCorrect: describes completed insertions only. No lemma bounds the fuel that distinct points need. That depth depends on how close the points are.
- Capacity is a `nat`. A negative Python capacity behaves like 0, and non-integer capacities are not modelled.
- Insertion.InsertIntoChildren: its own contract gives only the shape of the result (internal, same region). What it stores is proved by `InsertIntoChildrenCorrect`.
- Insertion.Subdivide: its own contract gives only the shape of the result (internal, same region). What it stores is proved by `SubdivideCorrect`.
- Insertion.Reinsert: its own contract gives only the shape of the result (internal, same region). What it stores is proved by `ReinsertCorrect`.
- There is no separate traversal accessor for a renderer: the node datatype is itself the read-only view of regions, cities and children.
- Cities are values, so two cities with equal name and point cannot be told apart. `draw` matches the found city by name. Nothing in the core compares cities.
