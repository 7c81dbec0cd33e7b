# KdTreeST: a 2-d tree symbol table, modelled in Dafny

`KdTreeST<Value>` maps points of the plane to values with a 2-d tree. The
model covers all of its operations: insert-or-update (`put`), exact lookup
(`get`, `contains`), `isEmpty`, `size`, breadth-first enumeration
(`points`), orthogonal range search (`range`) and nearest-neighbour search
(`nearest`).

The tree is an immutable datatype
`Tree<V> = Leaf | Node(p, val, lb, rt, region)`. Each descent threads a
`vertical` flag. The flag is true at the root, where nodes split on x, and it
flips at each level. The meaning of a tree is the ghost map
`KdTree.Contents(t)` from point to value. Every operation is stated against
that map:

- `put` is a map update.
- `get` is a map lookup.
- `range` is a filter by inclusive containment.
- `nearest` is an argmin of squared distance.

Coordinates are exact `real`s. A rectangle side is an `Option<real>`, where
`None` is an infinite bound. This makes the root's region (the whole plane,
`Geometry.Plane`) and unbounded query rectangles representable.

Modules:

- `Wrappers`: `Option`.
- `Geometry`: the roles of `Point2D` and `RectHV`. Points, rectangles,
  inclusive `Contains`/`Intersects`, `DistSq` for points and rectangles, and
  the two half-regions a split produces.
- `KdTree`: nodes, the invariants, and the `put`/`get` helpers.
  - `Ordered` is the kd ordering. Left/bottom is strictly less on the axis.
    Ties go right/top. A node's point is not repeated below it.
  - `Regions` is the region invariant. A child's region is the parent's
    region cut at the parent's point on the parent's axis.
  - `WellFormed(t, vertical, region)` is the two invariants together, for a subtree
    whose root splits on `vertical` and whose region is `region`.
  - `Extends(t, u)` says `u` grows `t` without moving anything: every node
    of `t` keeps its place, point and region in `u`.
  - `get` relies on `Ordered` itself, to know which side of a node a point
    can be on. `points`, `range` and `nearest` rely only on two axis-free
    consequences of the invariants, `Distinct` and `Confined`. Two lemmas
    prove these.
- `KdSearch`: the traversals behind `points`, `range` and `nearest`.
- `SymbolTable`: the public API over the record `KdTreeST(root, size)`. Its
  invariant `Valid` says three things: the root region is the plane, the tree
  invariants hold, and `size` equals the number of stored points.
- `Scenario`: five points inserted in a fixed order, then a lookup, `size`, a
  range query and a nearest-neighbour query. Each answer is derived from the
  contracts.

Where the model differs from the source:

- The Java `nearest` helper threads both `nearest` and `nearestDist`. Every
  call keeps `nearestDist` equal to the squared distance of `nearest`, or
  +infinity when `nearest` is null. The model therefore threads only
  `Option<Point>` and derives the distance (`KdSearch.Closer`).
- The Java `put` updates a value in place and re-links children. The model
  rebuilds the path from the root to the changed node, returns it, and
  reports whether a node was created (`Inserted.added`). That flag models the
  `size++`.
- `range` pushes onto a `Stack`, and the `Stack` iterates last-pushed first.
  The model's stack is a sequence with its top at the front. The result's
  order is therefore the reverse of the visiting order (node, then
  left/bottom, then right/top), not the visiting order itself.

## Model

| member | source | states |
|---|---|---|
| `KdTree.PutNode` | KdTreeST.java:72-119 | insert-or-update below a node keeps the kd ordering and the region invariant (an absent child becomes a node whose region is the half being entered); the subtree's table becomes the old table with `p` bound to `val`; a node is created exactly when `p` was not stored; no existing node moves or changes its point or region (`Extends`), and the nodes grow by exactly one holding `p` when it is created and by none otherwise |
| `KdTree.GetNode` | KdTreeST.java:122-144 | the descent finds a value exactly when `p` is stored, and that value is the one the table binds to `p` |
| `KdTree.OrderedDistinct` | KdTreeST.java:77-116 | the kd ordering (strictly less goes left/bottom, equal points are updated, not re-inserted) implies no point is held by two nodes |
| `KdTree.RegionsConfined` | KdTreeST.java:84-107 | the region invariant implies every point of every subtree lies in that subtree's region |
| `KdTree.NodeKeys` | KdTreeST.java:15-24 | a node stores exactly its own point and those of its two subtrees |
| `Geometry.HalvesSplit` | KdTreeST.java:87-107 | the two half-regions lie inside the parent region; a point strictly below on the axis lies in the low half, a point at or above lies in the high half |
| `Geometry.SharedPointIntersects` | KdTreeST.java:199 | two rectangles sharing a point intersect, so skipping a non-intersecting region loses no point of the query |
| `Geometry.RectDistBelow` | KdTreeST.java:244-249 | the squared distance to a region is at most the squared distance to any point inside it |
| `KdSearch.RangeNode` | KdTreeST.java:195-207 | the range helper pushes exactly the stored points inside the query rectangle, each once, in spite of pruning |
| `KdSearch.PruneRange` | KdTreeST.java:199 | a node whose region misses the query holds no point of the query |
| `KdSearch.RangeSplit` | KdTreeST.java:200-206 | the points of a node inside the query are its own (when inside) plus those of its two subtrees, without overlap |
| `KdSearch.NearestNode` | KdTreeST.java:216-253 | the result is the incoming candidate or a stored point; it is no farther than the candidate nor than any stored point; it is absent only when there was no candidate and the subtree is empty |
| `KdSearch.VisitChild` | KdTreeST.java:244-250 | a child step, taken or pruned, returns a candidate no farther than the incoming one and than every point of the child |
| `KdSearch.NearestSkip` | KdTreeST.java:244-249 | a child skipped because its region is no closer than the candidate holds no point closer than the candidate |
| `KdSearch.ElementsAreKeys` | KdTreeST.java:72-81 | when no point is stored twice, the nodes hold every stored point exactly once |
| `KdSearch.DequeueNode` | KdTreeST.java:172-178 | dequeuing a node and queuing its two children moves its point from the queue to the output and shrinks the queue's slot count |
| `KdSearch.DequeueLeaf` | KdTreeST.java:172-175 | dequeuing an absent child drops nothing but one slot |
| `SymbolTable.Empty` | KdTreeST.java:41-44 | the new symbol table satisfies the invariant and is empty |
| `SymbolTable.IsEmpty` | KdTreeST.java:47-49 | `isEmpty` holds exactly when no point is stored |
| `SymbolTable.Size` | KdTreeST.java:52-55 | `size` is the number of stored points |
| `SymbolTable.Put` | KdTreeST.java:58-69 | `put` keeps the invariant (root region is the whole plane); the table becomes the old one with `p` bound to `val`; the size grows by one exactly for a new point and stays for an existing one; the old tree keeps its shape, points and regions, and gains one node holding `p` exactly for a new point |
| `SymbolTable.Get` | KdTreeST.java:147-152 | `get` returns no value exactly when `p` is not stored, and otherwise the stored value |
| `SymbolTable.Contains` | KdTreeST.java:155-160 | `contains(p)` holds exactly when `p` is stored, and exactly when `get(p)` returns a value |
| `SymbolTable.Points` | KdTreeST.java:163-182 | the breadth-first enumeration lists every stored point exactly once, so its length is `size` |
| `SymbolTable.Range` | KdTreeST.java:185-192 | `range(q)` lists exactly the stored points inside `q` or on its boundary, each once |
| `SymbolTable.Nearest` | KdTreeST.java:210-213 | `nearest` is absent exactly on the empty table; otherwise it is a stored point whose squared distance to `q` is at most that of every stored point |
| `SymbolTable.PutThenGet` | KdTreeST.java:77-80 | after `put(p, val)`, `get(p)` is `val` and `get` of any other point is unchanged |
| `SymbolTable.SizeCountsNodes` | KdTreeST.java:72-76 | the size counter equals the number of nodes in the tree |
| `SymbolTable.RangePlaneIsAll` | KdTreeST.java:185-207 | a range query over the whole plane lists each stored point exactly once, the same points `points` lists |
| `Scenario.SampleGet` | KdTreeST.java:122-152 | after inserting the five sample points, `get` of (0.5, 0.4) is its value |
| `Scenario.SampleSize` | KdTreeST.java:52-55 | five distinct insertions give size five |
| `Scenario.SampleRange` | KdTreeST.java:185-207 | the square [0, 0.6] x [0, 0.6] holds exactly (0.5, 0.4) and (0.2, 0.3) |
| `Scenario.SampleNearest` | KdTreeST.java:210-253 | the nearest sample point to (0.6, 0.5) is (0.5, 0.4) |

## Left out

- `Point2D`, `RectHV`, `Queue` and `Stack` are library types. They are
  replaced by `Geometry` and Dafny sequences; their internals are not
  modelled.
- Floating point is not modelled. This covers the infinite root bounds
  (written as absent bounds instead), NaN and -0.0, the difference between
  `Double.compare` in `put` and `<` in `get`, and rounding in squared
  distances. The model's coordinates are exact reals, and there `put` and
  `get` compare the same way.
- Null arguments cannot occur. Points, values and rectangles are plain
  values, so the `IllegalArgumentException` checks of `put`, `get`,
  `contains`, `range` and `nearest` have no counterpart.
- `SymbolTable.Size`: the counter is a Java `int`. The model uses `nat` and
  ignores wrap-around past 2^31 - 1 nodes, which memory rules out in
  practice.
- `SymbolTable.Points`: the contract states the multiset of the output. It
  does not state the breadth-first order. The method itself does follow the
  queue order of the source.
- `SymbolTable.Range`: the contract states the multiset of the output. It
  does not state the emission order.
- `SymbolTable.Nearest`: the contract admits any closest point. It does not
  state which of several equidistant points the traversal keeps. The function
  itself follows the source's traversal, so it keeps the first one found.
- The unused `vertical` parameter of the `Node` constructor and the empty
  `main` are left out.
