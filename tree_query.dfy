/**
 * `QuadTree::query`, quadTree.cpp:62-80: collect the stored bodies a range
 * contains, pruning every subtree whose boundary the range is judged not to
 * meet.
 *
 * The pruning test is a parameter: `ByIntersects` is the code as written
 * (`Rect::intersects`, corner-based), `ByOverlaps` the centre-based overlap
 * it stands for. Both only ever report stored bodies inside the range
 * (`QuerySound`); only `ByOverlaps` reports all of them (`QueryComplete`),
 * and `QueryMissesStoredBody` shows a body the code as written does not report.
 */
module TreeQuery {
  import opened Vectors
  import opened Bodies
  import opened Regions
  import opened TreeModel

  datatype Prune = ByIntersects | ByOverlaps

  /** Whether `query` descends into a node with this boundary. */
  predicate Visits(boundary: Rect, range: Rect, prune: Prune) {
    match prune
    case ByIntersects => boundary.Intersects(range)
    case ByOverlaps => boundary.Overlaps(range)
  }

  /** What the loop over the node's own `bodies` (quadTree.cpp:67-71) appends: those in `range`, in order. */
  function InRange(bodies: seq<BodyState>, range: Rect): seq<BodyState> {
    if bodies == [] then []
    else
      var last := bodies[|bodies| - 1];
      InRange(bodies[..|bodies| - 1], range) + if range.Contains(last.position) then [last] else []
  }

  /** What `query(range, found)` appends to `found`. */
  function Query(t: Tree, range: Rect, prune: Prune): seq<BodyState> {
    if !Visits(t.boundary, range, prune) then []
    else
      InRange(t.bodies, range) +
      match t.children
      case Undivided => []
      case Divided(a, b, c, d) =>
        Query(a, range, prune) + Query(b, range, prune) + Query(c, range, prune) + Query(d, range, prune)
  }

  /** `found` holds only bodies of `m` inside `range`, each at most as often as `m` does. */
  ghost predicate Among(found: seq<BodyState>, m: multiset<BodyState>, range: Rect) {
    forall b :: multiset(found)[b] <= if range.Contains(b.position) then m[b] else 0
  }

  /** `found` holds exactly the bodies of `m` inside `range`, each as often as `m` does. */
  ghost predicate Selects(found: seq<BodyState>, m: multiset<BodyState>, range: Rect) {
    forall b :: multiset(found)[b] == if range.Contains(b.position) then m[b] else 0
  }

  lemma {:induction false} InRangeSelects(bodies: seq<BodyState>, range: Rect)
    ensures Selects(InRange(bodies, range), multiset(bodies), range)
  {
    if bodies != [] {
      var init := bodies[..|bodies| - 1];
      var last := bodies[|bodies| - 1];
      InRangeSelects(init, range);
      assert bodies == init + [last];
    }
  }

  /** Reports of the four children together select from what the four store together. */
  lemma SelectsJoin(
    f0: seq<BodyState>, f1: seq<BodyState>, f2: seq<BodyState>, f3: seq<BodyState>, f4: seq<BodyState>,
    m0: multiset<BodyState>, m1: multiset<BodyState>, m2: multiset<BodyState>, m3: multiset<BodyState>,
    m4: multiset<BodyState>, range: Rect, exact: bool)
    requires exact ==> Selects(f0, m0, range) && Selects(f1, m1, range) && Selects(f2, m2, range) && Selects(f3, m3, range) && Selects(f4, m4, range)
    requires !exact ==> Among(f0, m0, range) && Among(f1, m1, range) && Among(f2, m2, range) && Among(f3, m3, range) && Among(f4, m4, range)
    ensures exact ==> Selects(f0 + (f1 + f2 + f3 + f4), m0 + (m1 + m2 + m3 + m4), range)
    ensures !exact ==> Among(f0 + (f1 + f2 + f3 + f4), m0 + (m1 + m2 + m3 + m4), range)
  {
    assert multiset(f0 + (f1 + f2 + f3 + f4)) == multiset(f0) + (multiset(f1) + multiset(f2) + multiset(f3) + multiset(f4));
  }

  /** Whatever the pruning, `query` reports only stored bodies inside the range, and nothing from a node it prunes. */
  lemma {:induction false} QuerySound(t: Tree, range: Rect, prune: Prune)
    ensures Among(Query(t, range, prune), Stored(t), range)
    ensures !Visits(t.boundary, range, prune) ==> Query(t, range, prune) == []
  {
    InRangeSelects(t.bodies, range);
    if Visits(t.boundary, range, prune) {
      match t.children
      case Undivided =>
        assert Query(t, range, prune) == InRange(t.bodies, range) + [];
        assert Stored(t) == multiset(t.bodies) + multiset{};
      case Divided(a, b, c, d) =>
        QuerySound(a, range, prune);
        QuerySound(b, range, prune);
        QuerySound(c, range, prune);
        QuerySound(d, range, prune);
        SelectsJoin(InRange(t.bodies, range), Query(a, range, prune), Query(b, range, prune),
          Query(c, range, prune), Query(d, range, prune),
          multiset(t.bodies), Stored(a), Stored(b), Stored(c), Stored(d), range, false);
    }
  }

  /** A stored body lies inside the boundary of the node that stores it. */
  lemma {:induction false} StoredInside(t: Tree, x: BodyState)
    requires Placed(t) && x in Stored(t)
    ensures t.boundary.Contains(x.position)
  {
    if x in t.bodies {
      var i :| 0 <= i < |t.bodies| && t.bodies[i] == x;
    } else {
      match t.children
      case Divided(a, b, c, d) =>
        QuadrantsCover(t.boundary, x.position);
        if x in Stored(a) {
          StoredInside(a, x);
        } else if x in Stored(b) {
          StoredInside(b, x);
        } else if x in Stored(c) {
          StoredInside(c, x);
        } else {
          StoredInside(d, x);
        }
    }
  }

  /** A point in both boxes makes them overlap. */
  lemma CommonPointOverlaps(r: Rect, range: Rect, p: Vec)
    requires r.Contains(p) && range.Contains(p)
    ensures r.Overlaps(range)
  {
  }

  /** With the overlap test, `query` reports every stored body inside the range, as often as it is stored. */
  lemma {:induction false} QueryComplete(t: Tree, range: Rect)
    requires Placed(t)
    ensures Selects(Query(t, range, ByOverlaps), Stored(t), range)
  {
    if !t.boundary.Overlaps(range) {
      forall x: BodyState | range.Contains(x.position) && x in Stored(t)
        ensures false
      {
        StoredInside(t, x);
        CommonPointOverlaps(t.boundary, range, x.position);
      }
    } else {
      InRangeSelects(t.bodies, range);
      match t.children
      case Undivided =>
        assert Query(t, range, ByOverlaps) == InRange(t.bodies, range) + [];
        assert Stored(t) == multiset(t.bodies) + multiset{};
      case Divided(a, b, c, d) =>
        QueryComplete(a, range);
        QueryComplete(b, range);
        QueryComplete(c, range);
        QueryComplete(d, range);
        SelectsJoin(InRange(t.bodies, range), Query(a, range, ByOverlaps), Query(b, range, ByOverlaps),
          Query(c, range, ByOverlaps), Query(d, range, ByOverlaps),
          multiset(t.bodies), Stored(a), Stored(b), Stored(c), Stored(d), range, true);
    }
  }

  /** A leaf holding one body inside the range reports it exactly when it is visited. */
  lemma LeafQuery(leaf: Tree, range: Rect, prune: Prune, a: BodyState)
    requires leaf.children.Undivided? && leaf.bodies == [a] && range.Contains(a.position)
    ensures Query(leaf, range, prune) == if Visits(leaf.boundary, range, prune) then [a] else []
  {
    assert InRange([a], range) == InRange([], range) + [a];
  }

  /**
   * A body alone in a new tree, inside a range that `Intersects` rejects
   * although it shares that point with the boundary, is reported with the
   * overlap test and missed by the code as written.
   */
  lemma MissedBody(node: Rect, range: Rect, a: BodyState, depth: nat)
    requires 0.0 < a.mass && node.Contains(a.position) && range.Contains(a.position) && !node.Intersects(range)
    ensures
      var t := Insert(Empty(node), a, depth, ThroughNode);
      && t.outcome == Inserted && Stored(t.tree) == multiset{a}
      && Query(t.tree, range, ByIntersects) == []
      && Query(t.tree, range, ByOverlaps) == [a]
  {
    InsertIntoEmpty(node, a, depth, ThroughNode);
    var leaf := Tree(node, [a], a.mass, a.position, Undivided);
    assert Stored(leaf) == multiset([a]) + multiset{};
    CommonPointOverlaps(node, range, a.position);
    LeafQuery(leaf, range, ByIntersects, a);
    LeafQuery(leaf, range, ByOverlaps, a);
  }

  /**
   * A tree over the box centred at the origin with side 10 that holds one body
   * at (-4.5, 0), queried with the box centred at (-6, 0) with side 4: the
   * range contains the body, yet `query` as written reports nothing.
   */
  lemma QueryMissesStoredBody(depth: nat)
    ensures
      var node := Rect(0.0, 0.0, 10.0, 10.0);
      var range := Rect(-6.0, 0.0, 4.0, 4.0);
      var a := BodyState(1.0, 1.0, Vec(-4.5, 0.0), Zero, Zero);
      var t := Insert(Empty(node), a, depth, ThroughNode);
      && t.outcome == Inserted && Stored(t.tree) == multiset{a} && range.Contains(a.position)
      && Query(t.tree, range, ByIntersects) == []
      && Query(t.tree, range, ByOverlaps) == [a]
  {
    IntersectsMissesOverlap();
    MissedBody(Rect(0.0, 0.0, 10.0, 10.0), Rect(-6.0, 0.0, 4.0, 4.0), BodyState(1.0, 1.0, Vec(-4.5, 0.0), Zero, Zero), depth);
  }
}
