/** A worked example: five points inserted in a fixed order, then a lookup,
    the size, a range query and a nearest-neighbour query, each answer
    derived from the operations' contracts alone. */
module Scenario {
  import opened Wrappers
  import opened Geometry
  import opened SymbolTable

  const A := Point(0.7, 0.2)
  const B := Point(0.5, 0.4)
  const C := Point(0.2, 0.3)
  const D := Point(0.4, 0.7)
  const E := Point(0.9, 0.6)

  /** The table after inserting A, B, C, D and E with their own names as
      values. */
  ghost function SampleTable(): map<Point, string> {
    map[A := "A", B := "B", C := "C", D := "D", E := "E"]
  }

  /** The symbol table built by inserting A, B, C, D and E in that order. */
  function Sample(): (st: KdTreeST<string>)
    ensures Valid(st)
    ensures Table(st) == SampleTable()
  {
    Put(Put(Put(Put(Put(Empty(), A, "A"), B, "B"), C, "C"), D, "D"), E, "E")
  }

  /** Lookup finds the value stored for B. */
  lemma SampleGet()
    ensures Get(Sample(), B) == Some("B")
  {
  }

  /** Five distinct points were inserted, so the size is five. */
  lemma SampleSize()
    ensures Size(Sample()) == 5
  {
    SampleKeys(Table(Sample()));
  }

  /** The square [0, 0.6] x [0, 0.6] holds B and C and no other stored point. */
  lemma SampleRange()
    ensures var ps := Range(Sample(), Rect(Some(0.0), Some(0.0), Some(0.6), Some(0.6)));
      forall k :: k in ps <==> k == B || k == C
  {
    var q := Rect(Some(0.0), Some(0.0), Some(0.6), Some(0.6));
    SampleRangeIs(Range(Sample(), q), Table(Sample()));
  }

  /** Any listing of the sample points inside [0, 0.6] x [0, 0.6] lists B
      and C and nothing else. */
  lemma SampleRangeIs(ps: seq<Point>, m: map<Point, string>)
    requires m == SampleTable()
    requires forall k :: k in ps <==> k in m && Rect(Some(0.0), Some(0.0), Some(0.6), Some(0.6)).Contains(k)
    ensures forall k :: k in ps <==> k == B || k == C
  {
    SampleKeys(m);
  }

  /** B, at squared distance 0.02, is strictly nearer to (0.6, 0.5) than every
      other stored point, so it is the answer. */
  lemma SampleNearest()
    ensures Nearest(Sample(), Point(0.6, 0.5)) == Some(B)
  {
    SampleNearestIs(Nearest(Sample(), Point(0.6, 0.5)), Table(Sample()));
  }

  /** Any closest sample point to (0.6, 0.5) is B. */
  lemma SampleNearestIs(r: Option<Point>, m: map<Point, string>)
    requires m == SampleTable()
    requires r.None? <==> m == map[]
    requires r.Some? ==> r.value in m
    requires r.Some? ==> forall k :: k in m ==> r.value.DistSq(Point(0.6, 0.5)) <= k.DistSq(Point(0.6, 0.5))
    ensures r == Some(B)
  {
    SampleKeys(m);
    assert B in m;
    OnlyBWithin(r.value);
  }

  /** The sample table binds exactly the five distinct points. */
  lemma SampleKeys(m: map<Point, string>)
    requires m == SampleTable()
    ensures m.Keys == {A, B, C, D, E}
    ensures |m| == 5
  {
    assert m.Keys == {A, B, C, D, E};
  }

  /** The squared distances of the five points to (0.6, 0.5). */
  lemma SampleDistances()
    ensures A.DistSq(Point(0.6, 0.5)) == 0.1
    ensures B.DistSq(Point(0.6, 0.5)) == 0.02
    ensures C.DistSq(Point(0.6, 0.5)) == 0.2
    ensures D.DistSq(Point(0.6, 0.5)) == 0.08
    ensures E.DistSq(Point(0.6, 0.5)) == 0.1
  {
  }

  /** Among the five points only B lies within B's squared distance of
      (0.6, 0.5). */
  lemma OnlyBWithin(p: Point)
    requires p == A || p == B || p == C || p == D || p == E
    requires p.DistSq(Point(0.6, 0.5)) <= B.DistSq(Point(0.6, 0.5))
    ensures p == B
  {
    SampleDistances();
  }
}
