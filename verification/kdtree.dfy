/** The kd-tree itself: its nodes, the invariants insertion maintains, and the
    insert-or-update and exact-lookup descents (the `put` and `get` helpers of
    KdTreeST). The split axis is not stored: every descent threads a
    `vertical` flag that is true at the root and flips at each level. */
module KdTree {
  import opened Wrappers
  import opened Geometry

  /** A subtree: `Leaf` is an absent child. A node holds its point, its
      value, its left/bottom and right/top children, and the region its whole
      subtree is confined to, fixed when the node is created. */
  datatype Tree<V> = Leaf | Node(p: Point, val: V, lb: Tree<V>, rt: Tree<V>, region: Rect)

  /** The symbol table a subtree stands for. A node's own binding is applied
      last, so it is the one a lookup finds. */
  ghost function Contents<V>(t: Tree<V>): map<Point, V> {
    match t
    case Leaf => map[]
    case Node(p, v, lb, rt, _) => (Contents(lb) + Contents(rt))[p := v]
  }

  /** The points held by the nodes of `t`, one occurrence per node. */
  ghost function Elements<V>(t: Tree<V>): multiset<Point> {
    match t
    case Leaf => multiset{}
    case Node(p, _, lb, rt, _) => multiset{p} + Elements(lb) + Elements(rt)
  }

  /** `u` grows `t` without moving anything: every node of `t` is still in
      place in `u`, with the same point, the same region and, below it,
      subtrees that grow its old ones. Only absent children may be filled. */
  ghost predicate Extends<V>(t: Tree<V>, u: Tree<V>) {
    match t
    case Leaf => true
    case Node(p, _, lb, rt, region) =>
      && u.Node? && u.p == p && u.region == region
      && Extends(lb, u.lb)
      && Extends(rt, u.rt)
  }

  lemma ExtendsItself<V>(t: Tree<V>)
    ensures Extends(t, t)
  {
  }

  /** The kd ordering: at a node split on `vertical`, every point of the
      left/bottom subtree is strictly below the node's point on that axis,
      every point of the right/top subtree is at or above it, and the node's
      point is not stored again further down. */
  ghost predicate Ordered<V>(t: Tree<V>, vertical: bool) {
    match t
    case Leaf => true
    case Node(p, _, lb, rt, _) =>
      && (forall k :: k in Contents(lb) ==> Coord(k, vertical) < Coord(p, vertical))
      && (forall k :: k in Contents(rt) ==> Coord(p, vertical) <= Coord(k, vertical))
      && p !in Contents(rt)
      && Ordered(lb, !vertical)
      && Ordered(rt, !vertical)
  }

  /** The region invariant: a node's point lies in its region, and each
      child's region is the parent's region cut at the parent's point on the
      parent's axis. */
  ghost predicate Regions<V>(t: Tree<V>, vertical: bool) {
    match t
    case Leaf => true
    case Node(p, _, lb, rt, region) =>
      && region.Contains(p)
      && (lb.Node? ==> lb.region == LowHalf(region, p, vertical))
      && (rt.Node? ==> rt.region == HighHalf(region, p, vertical))
      && Regions(lb, !vertical)
      && Regions(rt, !vertical)
  }

  /** A well-formed subtree whose root splits on `vertical` and whose region
      is `region`. */
  ghost predicate WellFormed<V>(t: Tree<V>, vertical: bool, region: Rect) {
    && Ordered(t, vertical)
    && Regions(t, vertical)
    && (t.Node? ==> t.region == region)
  }

  /** No point is held by two nodes. */
  ghost predicate Distinct<V>(t: Tree<V>) {
    match t
    case Leaf => true
    case Node(p, _, lb, rt, _) =>
      && p !in Contents(lb)
      && p !in Contents(rt)
      && Contents(lb).Keys !! Contents(rt).Keys
      && Distinct(lb)
      && Distinct(rt)
  }

  /** Every point of every subtree lies in that subtree's region. */
  ghost predicate Confined<V>(t: Tree<V>) {
    match t
    case Leaf => true
    case Node(_, _, lb, rt, region) =>
      && (forall k :: k in Contents(t) ==> region.Contains(k))
      && Confined(lb)
      && Confined(rt)
  }

  /** A node stores its own point and those of its two subtrees. */
  lemma NodeKeys<V>(t: Tree<V>)
    requires t.Node?
    ensures Contents(t).Keys == {t.p} + Contents(t.lb).Keys + Contents(t.rt).Keys
  {
  }

  /** The kd ordering implies that no point is stored twice. */
  lemma {:induction false} OrderedDistinct<V>(t: Tree<V>, vertical: bool)
    requires Ordered(t, vertical)
    ensures Distinct(t)
  {
    match t
    case Leaf =>
    case Node(p, _, lb, rt, _) =>
      OrderedDistinct(lb, !vertical);
      OrderedDistinct(rt, !vertical);
  }

  /** The region invariant implies that each subtree stays inside its region. */
  lemma {:induction false} RegionsConfined<V>(t: Tree<V>, vertical: bool)
    requires Regions(t, vertical)
    ensures Confined(t)
    ensures t.Node? ==> forall k :: k in Contents(t) ==> t.region.Contains(k)
  {
    match t
    case Leaf =>
    case Node(p, _, lb, rt, region) =>
      RegionsConfined(lb, !vertical);
      RegionsConfined(rt, !vertical);
      forall k | k in Contents(t)
        ensures region.Contains(k)
      {
        HalvesSplit(region, p, vertical, k);
        if k in Contents(lb) {
          assert lb.region.Contains(k);
        } else if k in Contents(rt) {
          assert rt.region.Contains(k);
        }
      }
  }

  /** What the recursive `put` hands back: the (possibly new) subtree and
      whether a node was created, which is when the table's size grows. */
  datatype Inserted<V> = Inserted(node: Tree<V>, added: bool)

  /** Insert-or-update below `t`, whose region is `rect`. An equal point gets
      the new value; otherwise the descent goes left/bottom when the point is
      strictly less on the current axis and right/top on ties or greater, and
      an absent child becomes a node whose region is the half being entered.
      No existing node moves: the old tree is extended, by one node holding
      `p` exactly when `p` was not stored, and by none otherwise. */
  function PutNode<V>(t: Tree<V>, p: Point, val: V, rect: Rect, vertical: bool): (r: Inserted<V>)
    requires WellFormed(t, vertical, rect)
    requires rect.Contains(p)
    ensures WellFormed(r.node, vertical, rect)
    ensures Contents(r.node) == Contents(t)[p := val]
    ensures r.added <==> p !in Contents(t)
    ensures Extends(t, r.node)
    ensures Elements(r.node) == Elements(t) + (if r.added then multiset{p} else multiset{})
  {
    match t
    case Leaf => Inserted(Node(p, val, Leaf, Leaf, rect), true)
    case Node(np, nv, lb, rt, region) =>
      if np == p then
        PutHere(t, val, vertical);
        Inserted(Node(np, val, lb, rt, region), false)
      else
        HalvesSplit(region, np, vertical, p);
        if Coord(p, vertical) < Coord(np, vertical) then
          var sub := PutNode(lb, p, val, LowHalf(region, np, vertical), !vertical);
          PutBelow(t, p, val, vertical, sub);
          Inserted(Node(np, nv, sub.node, rt, region), sub.added)
        else
          var sub := PutNode(rt, p, val, HighHalf(region, np, vertical), !vertical);
          PutAbove(t, p, val, vertical, sub);
          Inserted(Node(np, nv, lb, sub.node, region), sub.added)
  }

  /** Overwriting the value at a node keeps its shape and binds the node's
      point to the new value. */
  lemma PutHere<V>(t: Tree<V>, val: V, vertical: bool)
    requires t.Node? && WellFormed(t, vertical, t.region)
    ensures WellFormed(Node(t.p, val, t.lb, t.rt, t.region), vertical, t.region)
    ensures Contents(Node(t.p, val, t.lb, t.rt, t.region)) == Contents(t)[t.p := val]
    ensures Extends(t, Node(t.p, val, t.lb, t.rt, t.region))
    ensures Elements(Node(t.p, val, t.lb, t.rt, t.region)) == Elements(t)
  {
    ExtendsItself(t.lb);
    ExtendsItself(t.rt);
  }

  /** Re-attaching a left/bottom subtree that received `p` keeps the node
      well formed, binds `p` in the node's table, and grows the node by
      exactly what the subtree grew by. */
  lemma PutBelow<V>(t: Tree<V>, p: Point, val: V, vertical: bool, sub: Inserted<V>)
    requires t.Node? && WellFormed(t, vertical, t.region)
    requires p != t.p && Coord(p, vertical) < Coord(t.p, vertical)
    requires WellFormed(sub.node, !vertical, LowHalf(t.region, t.p, vertical)) && sub.node.Node?
    requires Contents(sub.node) == Contents(t.lb)[p := val]
    requires sub.added <==> p !in Contents(t.lb)
    requires Extends(t.lb, sub.node)
    requires Elements(sub.node) == Elements(t.lb) + (if sub.added then multiset{p} else multiset{})
    ensures var u := Node(t.p, t.val, sub.node, t.rt, t.region);
      && WellFormed(u, vertical, t.region)
      && Contents(u) == Contents(t)[p := val]
      && (sub.added <==> p !in Contents(t))
      && Extends(t, u)
      && Elements(u) == Elements(t) + (if sub.added then multiset{p} else multiset{})
  {
    KeepBelow(t, p, val, vertical, sub.node);
    GrowBelow(t, sub.node, if sub.added then multiset{p} else multiset{});
  }

  /** The kd ordering and the table part of `PutBelow`. */
  lemma KeepBelow<V>(t: Tree<V>, p: Point, val: V, vertical: bool, sub: Tree<V>)
    requires t.Node? && WellFormed(t, vertical, t.region)
    requires p != t.p && Coord(p, vertical) < Coord(t.p, vertical)
    requires WellFormed(sub, !vertical, LowHalf(t.region, t.p, vertical)) && sub.Node?
    requires Contents(sub) == Contents(t.lb)[p := val]
    ensures WellFormed(Node(t.p, t.val, sub, t.rt, t.region), vertical, t.region)
    ensures Contents(Node(t.p, t.val, sub, t.rt, t.region)) == Contents(t)[p := val]
    ensures p in Contents(t) <==> p in Contents(t.lb)
  {
    assert p !in Contents(t.rt);
    MapUpdateBelow(Contents(t.lb), Contents(t.rt), t.p, t.val, p, val);
  }

  /** Re-attaching a left/bottom subtree that grew the old one grows the node
      by the same points. */
  lemma GrowBelow<V>(t: Tree<V>, sub: Tree<V>, added: multiset<Point>)
    requires t.Node? && Extends(t.lb, sub)
    requires Elements(sub) == Elements(t.lb) + added
    ensures Extends(t, Node(t.p, t.val, sub, t.rt, t.region))
    ensures Elements(Node(t.p, t.val, sub, t.rt, t.region)) == Elements(t) + added
  {
    ExtendsItself(t.rt);
    var el, er := Elements(t.lb), Elements(t.rt);
    assert multiset{t.p} + (el + added) + er == (multiset{t.p} + el + er) + added;
  }

  /** Re-attaching a right/top subtree that received `p` keeps the node well
      formed, binds `p` in the node's table, and grows the node by exactly
      what the subtree grew by. */
  lemma PutAbove<V>(t: Tree<V>, p: Point, val: V, vertical: bool, sub: Inserted<V>)
    requires t.Node? && WellFormed(t, vertical, t.region)
    requires p != t.p && Coord(t.p, vertical) <= Coord(p, vertical)
    requires WellFormed(sub.node, !vertical, HighHalf(t.region, t.p, vertical)) && sub.node.Node?
    requires Contents(sub.node) == Contents(t.rt)[p := val]
    requires sub.added <==> p !in Contents(t.rt)
    requires Extends(t.rt, sub.node)
    requires Elements(sub.node) == Elements(t.rt) + (if sub.added then multiset{p} else multiset{})
    ensures var u := Node(t.p, t.val, t.lb, sub.node, t.region);
      && WellFormed(u, vertical, t.region)
      && Contents(u) == Contents(t)[p := val]
      && (sub.added <==> p !in Contents(t))
      && Extends(t, u)
      && Elements(u) == Elements(t) + (if sub.added then multiset{p} else multiset{})
  {
    KeepAbove(t, p, val, vertical, sub.node);
    GrowAbove(t, sub.node, if sub.added then multiset{p} else multiset{});
  }

  /** The kd ordering and the table part of `PutAbove`. */
  lemma KeepAbove<V>(t: Tree<V>, p: Point, val: V, vertical: bool, sub: Tree<V>)
    requires t.Node? && WellFormed(t, vertical, t.region)
    requires p != t.p && Coord(t.p, vertical) <= Coord(p, vertical)
    requires WellFormed(sub, !vertical, HighHalf(t.region, t.p, vertical)) && sub.Node?
    requires Contents(sub) == Contents(t.rt)[p := val]
    ensures WellFormed(Node(t.p, t.val, t.lb, sub, t.region), vertical, t.region)
    ensures Contents(Node(t.p, t.val, t.lb, sub, t.region)) == Contents(t)[p := val]
    ensures p in Contents(t) <==> p in Contents(t.rt)
  {
    MapUpdateAbove(Contents(t.lb), Contents(t.rt), t.p, t.val, p, val);
  }

  /** Re-attaching a right/top subtree that grew the old one grows the node by
      the same points. */
  lemma GrowAbove<V>(t: Tree<V>, sub: Tree<V>, added: multiset<Point>)
    requires t.Node? && Extends(t.rt, sub)
    requires Elements(sub) == Elements(t.rt) + added
    ensures Extends(t, Node(t.p, t.val, t.lb, sub, t.region))
    ensures Elements(Node(t.p, t.val, t.lb, sub, t.region)) == Elements(t) + added
  {
    ExtendsItself(t.lb);
    var el, er := Elements(t.lb), Elements(t.rt);
    assert multiset{t.p} + el + (er + added) == (multiset{t.p} + el + er) + added;
  }

  lemma MapUpdateBelow<V>(a: map<Point, V>, b: map<Point, V>, np: Point, nv: V, p: Point, val: V)
    requires p != np && p !in b
    ensures (a[p := val] + b)[np := nv] == (a + b)[np := nv][p := val]
  {
  }

  lemma MapUpdateAbove<V>(a: map<Point, V>, b: map<Point, V>, np: Point, nv: V, p: Point, val: V)
    requires p != np
    ensures (a + b[p := val])[np := nv] == (a + b)[np := nv][p := val]
  {
  }

  /** Exact lookup below `t`: the same descent as insertion, without looking
      at regions; `None` when the point is not stored. */
  function GetNode<V>(t: Tree<V>, p: Point, vertical: bool): (r: Option<V>)
    requires Ordered(t, vertical)
    ensures r.Some? <==> p in Contents(t)
    ensures r.Some? ==> r.value == Contents(t)[p]
  {
    match t
    case Leaf => None
    case Node(np, nv, lb, rt, _) =>
      if np == p then Some(nv)
      else if vertical then
        if p.x < np.x then GetNode(lb, p, !vertical) else GetNode(rt, p, !vertical)
      else
        if p.y < np.y then GetNode(lb, p, !vertical) else GetNode(rt, p, !vertical)
  }
}
