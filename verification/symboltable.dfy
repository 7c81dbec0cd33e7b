/** The public face of the kd-tree symbol table KdTreeST: a root subtree and
    a node counter, with `isEmpty`, `size`, `put`, `get`, `contains`,
    `points`, `range` and `nearest`. Every operation is stated against the
    table the tree stands for, a map from point to value. */
module SymbolTable {
  import opened Wrappers
  import opened Geometry
  import opened KdTree
  import opened KdSearch

  /** The root subtree and the number of nodes created so far. */
  datatype KdTreeST<V> = KdTreeST(root: Tree<V>, size: nat)

  /** The class invariant: the root splits vertically and its region is the
      whole plane, the kd ordering and the region invariant hold throughout,
      and the counter equals the number of stored points. */
  ghost predicate Valid<V>(st: KdTreeST<V>) {
    && KdTree.WellFormed(st.root, true, Plane)
    && st.size == |Contents(st.root)|
  }

  /** The table `st` stands for. */
  ghost function Table<V>(st: KdTreeST<V>): map<Point, V> {
    Contents(st.root)
  }

  /** The empty symbol table. */
  function Empty<V>(): (st: KdTreeST<V>)
    ensures Valid(st)
    ensures Table(st) == map[]
  {
    KdTreeST(Leaf, 0)
  }

  /** The table is empty exactly when the counter is zero, which is exactly
      when no point is stored. */
  function IsEmpty<V>(st: KdTreeST<V>): (b: bool)
    requires Valid(st)
    ensures b <==> Table(st) == map[]
  {
    st.size == 0
  }

  /** The number of stored points. */
  function Size<V>(st: KdTreeST<V>): (n: nat)
    requires Valid(st)
    ensures n == |Table(st)|
  {
    st.size
  }

  /** Associate `val` with `p`. A new point adds one node, in a slot that was
      empty, and one to the size; an existing point has its value replaced and
      the size stays. Every other point keeps its value, and no existing node
      moves or changes its region. */
  function Put<V>(st: KdTreeST<V>, p: Point, val: V): (r: KdTreeST<V>)
    requires Valid(st)
    ensures Valid(r)
    ensures Table(r) == Table(st)[p := val]
    ensures p in Table(st) ==> r.size == st.size
    ensures p !in Table(st) ==> r.size == st.size + 1
    ensures Extends(st.root, r.root)
    ensures Elements(r.root) == Elements(st.root) + (if p in Table(st) then multiset{} else multiset{p})
  {
    PlaneContainsAll(p);
    var ins := PutNode(st.root, p, val, Plane, true);
    KdTreeST(ins.node, if ins.added then st.size + 1 else st.size)
  }

  /** The value associated with `p`, or `None` when `p` is not stored. */
  function Get<V>(st: KdTreeST<V>, p: Point): (r: Option<V>)
    requires Valid(st)
    ensures r.None? <==> p !in Table(st)
    ensures r.Some? ==> r.value == Table(st)[p]
  {
    GetNode(st.root, p, true)
  }

  /** Whether `p` is stored: exactly when `Get` finds a value. */
  function Contains<V>(st: KdTreeST<V>, p: Point): (b: bool)
    requires Valid(st)
    ensures b <==> p in Table(st)
    ensures b <==> Get(st, p).Some?
  {
    Get(st, p).Some?
  }

  /** Every stored point, each exactly once, in breadth-first order: the root
      is queued, and each dequeued node emits its point and queues its
      left/bottom then right/top child; absent children are dequeued and
      dropped. */
  method Points<V>(st: KdTreeST<V>) returns (ps: seq<Point>)
    requires Valid(st)
    ensures multiset(ps) == multiset(Table(st).Keys)
    ensures forall k :: k in ps <==> k in Table(st)
    ensures |ps| == Size(st)
  {
    var queue := [st.root];
    ps := [];
    assert queue[1..] == [];
    while queue != []
      invariant multiset(ps) + QueueElements(queue) == Elements(st.root)
      decreases QueueSlots(queue)
    {
      var node := queue[0];
      if node.Leaf? {
        DequeueLeaf(queue);
        queue := queue[1..];
        continue;
      }
      DequeueNode(queue);
      ps := ps + [node.p];
      queue := queue[1..] + [node.lb, node.rt];
    }
    OrderedDistinct(st.root, true);
    ElementsAreKeys(st.root);
    ListsSet(ps, Table(st).Keys);
  }

  /** The stored points inside the rectangle `q` or on its boundary, each
      exactly once, in the order a stack of the pushes is iterated. */
  function Range<V>(st: KdTreeST<V>, q: Rect): (ps: seq<Point>)
    requires Valid(st)
    ensures multiset(ps) == multiset(InRect(st.root, q))
    ensures forall k :: k in ps <==> k in Table(st) && q.Contains(k)
  {
    OrderedDistinct(st.root, true);
    RegionsConfined(st.root, true);
    var ps := RangeNode(st.root, q, []);
    ListsSet(ps, InRect(st.root, q));
    ps
  }

  /** A stored point closest to `q` by squared distance, or `None` for the
      empty table. */
  function Nearest<V>(st: KdTreeST<V>, q: Point): (r: Option<Point>)
    requires Valid(st)
    ensures r.None? <==> Table(st) == map[]
    ensures r.Some? ==> r.value in Table(st)
    ensures r.Some? ==> forall k :: k in Table(st) ==> r.value.DistSq(q) <= k.DistSq(q)
  {
    RegionsConfined(st.root, true);
    NearestNode(st.root, q, None, true)
  }

  /** After `put(p, val)`, `get(p)` answers `val` and every other point
      answers what it answered before. */
  lemma PutThenGet<V>(st: KdTreeST<V>, p: Point, val: V, other: Point)
    requires Valid(st)
    ensures Get(Put(st, p, val), p) == Some(val)
    ensures other != p ==> Get(Put(st, p, val), other) == Get(st, other)
  {
  }

  /** The counter equals the number of nodes in the tree: one node per
      distinct stored point. */
  lemma SizeCountsNodes<V>(st: KdTreeST<V>)
    requires Valid(st)
    ensures |Elements(st.root)| == Size(st)
  {
    OrderedDistinct(st.root, true);
    ElementsAreKeys(st.root);
  }

  /** A range query over the whole plane lists exactly the stored points,
      each once: the same points as the breadth-first enumeration. */
  lemma RangePlaneIsAll<V>(st: KdTreeST<V>)
    requires Valid(st)
    ensures multiset(Range(st, Plane)) == multiset(Table(st).Keys)
  {
    assert InRect(st.root, Plane) == Table(st).Keys;
  }
}
