/** The traversals of KdTreeST that read the tree without changing it: the
    breadth-first enumeration behind `points`, the pruned depth-first search
    behind `range`, and the pruned nearest-neighbour search behind `nearest`. */
module KdSearch {
  import opened Wrappers
  import opened Geometry
  import opened KdTree

  /** The points held by the nodes of every subtree waiting in a queue. */
  ghost function QueueElements<V>(queue: seq<Tree<V>>): multiset<Point> {
    if queue == [] then multiset{} else Elements(queue[0]) + QueueElements(queue[1..])
  }

  /** Child slots below and including `t`: a node counts itself and its
      children's slots, an absent child counts one. */
  ghost function Slots<V>(t: Tree<V>): nat {
    match t
    case Leaf => 1
    case Node(_, _, lb, rt, _) => 1 + Slots(lb) + Slots(rt)
  }

  ghost function QueueSlots<V>(queue: seq<Tree<V>>): nat {
    if queue == [] then 0 else Slots(queue[0]) + QueueSlots(queue[1..])
  }

  lemma {:induction false} QueueConcat<V>(a: seq<Tree<V>>, b: seq<Tree<V>>)
    ensures QueueElements(a + b) == QueueElements(a) + QueueElements(b)
    ensures QueueSlots(a + b) == QueueSlots(a) + QueueSlots(b)
  {
    if a == [] {
      assert a + b == b;
    } else {
      assert (a + b)[1..] == a[1..] + b;
      QueueConcat(a[1..], b);
    }
  }

  /** Dequeuing an absent child removes nothing but its slot. */
  lemma DequeueLeaf<V>(queue: seq<Tree<V>>)
    requires queue != [] && queue[0].Leaf?
    ensures QueueElements(queue[1..]) == QueueElements(queue)
    ensures QueueSlots(queue[1..]) < QueueSlots(queue)
  {
  }

  /** Dequeuing a node and queuing its two children moves the node's point
      out of the queue and shrinks the slot count. */
  lemma DequeueNode<V>(queue: seq<Tree<V>>)
    requires queue != [] && queue[0].Node?
    ensures var t := queue[0];
      && multiset{t.p} + QueueElements(queue[1..] + [t.lb, t.rt]) == QueueElements(queue)
      && QueueSlots(queue[1..] + [t.lb, t.rt]) < QueueSlots(queue)
  {
    var t := queue[0];
    var rest := queue[1..];
    QueueConcat(rest, [t.lb, t.rt]);
    QueueConcat([t.lb], [t.rt]);
    assert [t.lb, t.rt] == [t.lb] + [t.rt];
    QueueSingle(t.lb);
    QueueSingle(t.rt);
    var el, er := Elements(t.lb), Elements(t.rt);
    assert QueueElements(rest + [t.lb, t.rt]) == QueueElements(rest) + (el + er);
    assert QueueElements(queue) == multiset{t.p} + el + er + QueueElements(rest);
  }

  lemma QueueSingle<V>(t: Tree<V>)
    ensures QueueElements([t]) == Elements(t)
    ensures QueueSlots([t]) == Slots(t)
  {
    assert [t][1..] == [];
  }

  /** In a tree where no point is stored twice, the nodes hold each stored
      point exactly once. */
  lemma {:induction false} ElementsAreKeys<V>(t: Tree<V>)
    requires Distinct(t)
    ensures Elements(t) == multiset(Contents(t).Keys)
  {
    match t
    case Leaf =>
    case Node(p, _, lb, rt, _) =>
      ElementsAreKeys(lb);
      ElementsAreKeys(rt);
      NodeKeys(t);
      ThreeWayUnion(p, Contents(lb).Keys, Contents(rt).Keys);
  }

  lemma ThreeWayUnion(p: Point, a: set<Point>, b: set<Point>)
    requires p !in a && p !in b && a !! b
    ensures multiset({p} + a + b) == multiset{p} + multiset(a) + multiset(b)
  {
    DisjointUnion({p}, a);
    DisjointUnion({p} + a, b);
    assert multiset({p}) == multiset{p};
  }

  lemma DisjointUnion(a: set<Point>, b: set<Point>)
    requires a !! b
    ensures multiset(a + b) == multiset(a) + multiset(b)
  {
    forall k
      ensures multiset(a + b)[k] == (multiset(a) + multiset(b))[k]
    {
    }
  }

  /** A sequence whose multiset is that of a set lists each member of the
      set once and nothing else. */
  lemma ListsSet(s: seq<Point>, a: set<Point>)
    requires multiset(s) == multiset(a)
    ensures forall k :: k in s <==> k in a
    ensures |s| == |a|
  {
    forall k
      ensures k in s <==> k in a
    {
      assert k in s <==> k in multiset(s);
    }
    assert |multiset(s)| == |s|;
  }

  /** The stored points of `t` inside the query rectangle `q`. */
  ghost function InRect<V>(t: Tree<V>, q: Rect): set<Point> {
    set k | k in Contents(t) && q.Contains(k)
  }

  /** Range search below `t`, pushing onto `stack` (the top of the stack is
      the front of the sequence). A subtree whose region does not intersect
      `q` is skipped as a whole; otherwise the node's point is pushed when `q`
      holds it, then the left/bottom and the right/top subtrees are searched.
      The pushes are exactly the stored points in `q`, each once. */
  function RangeNode<V>(t: Tree<V>, q: Rect, stack: seq<Point>): (r: seq<Point>)
    requires Distinct(t) && Confined(t)
    ensures multiset(r) == multiset(stack) + multiset(InRect(t, q))
  {
    match t
    case Leaf => stack
    case Node(p, _, lb, rt, region) =>
      if !q.Intersects(region) then
        PruneRange(t, q);
        stack
      else
        var pushed := if q.Contains(p) then [p] + stack else stack;
        var afterLow := RangeNode(lb, q, pushed);
        RangeSplit(t, q);
        RangeNode(rt, q, afterLow)
  }

  /** A node whose region misses the query rectangle holds no point of it. */
  lemma PruneRange<V>(t: Tree<V>, q: Rect)
    requires t.Node? && Confined(t)
    requires !q.Intersects(t.region)
    ensures InRect(t, q) == {}
  {
    forall k | k in Contents(t) && q.Contains(k)
      ensures false
    {
      SharedPointIntersects(q, t.region, k);
    }
  }

  /** The points of a node inside `q` split into the node's own point and
      those of its two subtrees, with no overlap. */
  lemma RangeSplit<V>(t: Tree<V>, q: Rect)
    requires t.Node? && Distinct(t)
    ensures multiset(InRect(t, q))
      == (if q.Contains(t.p) then multiset{t.p} else multiset{})
         + multiset(InRect(t.lb, q)) + multiset(InRect(t.rt, q))
  {
    var own := if q.Contains(t.p) then {t.p} else {};
    assert InRect(t, q) == own + InRect(t.lb, q) + InRect(t.rt, q);
    DisjointUnion(own, InRect(t.lb, q));
    DisjointUnion(own + InRect(t.lb, q), InRect(t.rt, q));
  }

  /** `d` beats the current best candidate: there is none (its distance is
      infinite) or `d` is strictly smaller than the candidate's distance. */
  predicate Closer(d: real, best: Option<Point>, q: Point) {
    best.None? || d < best.value.DistSq(q)
  }

  /** Nearest-neighbour search below `t` for `q`, given the best candidate
      found so far. The node's point replaces the candidate when strictly
      closer; then the child on the query's side of the split is searched
      first and the other one second, each only when its region is strictly
      closer than the candidate of that moment. The answer is the candidate
      or a stored point, and no stored point and not the candidate is
      strictly closer to `q`. */
  function NearestNode<V>(t: Tree<V>, q: Point, best: Option<Point>, vertical: bool): (r: Option<Point>)
    requires Confined(t)
    ensures r.None? <==> best.None? && Contents(t) == map[]
    ensures r.Some? ==> r == best || r.value in Contents(t)
    ensures best.Some? ==> r.Some? && r.value.DistSq(q) <= best.value.DistSq(q)
    ensures forall k :: k in Contents(t) ==> r.Some? && r.value.DistSq(q) <= k.DistSq(q)
    decreases t, 0
  {
    match t
    case Leaf => best
    case Node(p, _, lb, rt, _) =>
      var here := if Closer(p.DistSq(q), best, q) then Some(p) else best;
      var cmp := if vertical then q.x - p.x else q.y - p.y;
      var one := if cmp < 0.0 then lb else rt;
      var two := if cmp < 0.0 then rt else lb;
      var first := VisitChild(one, q, here, !vertical);
      var second := VisitChild(two, q, first, !vertical);
      assert Contents(t).Keys == {p} + Contents(one).Keys + Contents(two).Keys;
      second
  }

  /** One child step of the nearest-neighbour search: descend into `c` only
      when it exists and its region is strictly closer to `q` than the
      current candidate. */
  function VisitChild<V>(c: Tree<V>, q: Point, best: Option<Point>, vertical: bool): (r: Option<Point>)
    requires Confined(c) && best.Some?
    ensures r.Some? && (r == best || r.value in Contents(c))
    ensures r.value.DistSq(q) <= best.value.DistSq(q)
    ensures forall k :: k in Contents(c) ==> r.value.DistSq(q) <= k.DistSq(q)
    decreases c, 1
  {
    if c.Node? && Closer(c.region.DistSq(q), best, q) then
      NearestNode(c, q, best, vertical)
    else
      NearestSkip(c, q, best);
      best
  }

  /** A subtree that the search skips holds no point strictly closer than the
      candidate it was skipped for. */
  lemma NearestSkip<V>(t: Tree<V>, q: Point, best: Option<Point>)
    requires Confined(t)
    requires t.Leaf? || !Closer(t.region.DistSq(q), best, q)
    ensures forall k :: k in Contents(t) ==> best.Some? && best.value.DistSq(q) <= k.DistSq(q)
  {
    forall k | k in Contents(t)
      ensures best.Some? && best.value.DistSq(q) <= k.DistSq(q)
    {
      RectDistBelow(t.region, k, q);
    }
  }
}
