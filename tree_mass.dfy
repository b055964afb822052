/**
 * What a node's `totalMass` and `centerOfMass` ought to summarise: the mass
 * and the moment (`mass * position`) of every body stored in its subtree.
 *
 * When a full leaf re-inserts its displaced body into its new children
 * (`IntoChildren`), every insertion keeps each node's aggregate equal to the
 * sums over what it stores (`InsertAggregates`). Re-inserting through the node
 * itself, as quadTree.cpp:50 does, folds that body in twice
 * (`TreeModel.SubdivisionFoldsTwice`, `TreeModel.SecondInsertDoubleFolds`).
 */
module TreeMass {
  import opened Vectors
  import opened Bodies
  import opened Regions
  import opened TreeModel

  /** Some element of a non-empty bag. */
  ghost function Pick(m: multiset<BodyState>): (x: BodyState)
    requires |m| > 0
    ensures x in m
  {
    var x :| x in m; x
  }

  /** The sum of `w` over a bag of bodies, each counted as often as it occurs. */
  ghost function BagSum(m: multiset<BodyState>, w: BodyState -> real): real
    decreases |m|
  {
    if |m| == 0 then 0.0 else var x := Pick(m); w(x) + BagSum(m - multiset{x}, w)
  }

  /** The sum does not depend on which element is taken out first. */
  lemma {:induction false} BagSumRemove(m: multiset<BodyState>, x: BodyState, w: BodyState -> real)
    requires x in m
    ensures BagSum(m, w) == w(x) + BagSum(m - multiset{x}, w)
    decreases |m|
  {
    var y := Pick(m);
    if y != x {
      assert (m - multiset{y})[x] == m[x];
      assert (m - multiset{x})[y] == m[y];
      BagSumRemove(m - multiset{y}, x, w);
      BagSumRemove(m - multiset{x}, y, w);
      assert m - multiset{y} - multiset{x} == m - multiset{x} - multiset{y};
    }
  }

  lemma BagSumAdd(m: multiset<BodyState>, b: BodyState, w: BodyState -> real)
    ensures BagSum(m + multiset{b}, w) == BagSum(m, w) + w(b)
  {
    BagSumRemove(m + multiset{b}, b, w);
    assert m + multiset{b} - multiset{b} == m;
  }

  function MassOfBody(b: BodyState): real { b.mass }
  function MomentX(b: BodyState): real { b.position.x * b.mass }
  function MomentY(b: BodyState): real { b.position.y * b.mass }

  ghost function BagMass(m: multiset<BodyState>): real {
    BagSum(m, MassOfBody)
  }

  ghost function BagMoment(m: multiset<BodyState>): Vec {
    Vec(BagSum(m, MomentX), BagSum(m, MomentY))
  }

  /** Adding one body to a bag adds its mass and its moment. */
  lemma BagAdd(m: multiset<BodyState>, b: BodyState)
    ensures BagMass(m + multiset{b}) == BagMass(m) + b.mass
    ensures BagMoment(m + multiset{b}) == Add(BagMoment(m), Scale(b.position, b.mass))
  {
    BagSumAdd(m, b, MassOfBody);
    BagSumAdd(m, b, MomentX);
    BagSumAdd(m, b, MomentY);
    assert Scale(b.position, b.mass) == Vec(MomentX(b), MomentY(b));
  }

  /** The pair of bodies weighs the two masses together. */
  lemma PairMass(a: BodyState, c: BodyState)
    ensures BagMass(multiset{a, c}) == a.mass + c.mass
    ensures BagMoment(multiset{a, c}) == Add(Scale(a.position, a.mass), Scale(c.position, c.mass))
  {
    BagAdd(multiset{}, a);
    BagAdd(multiset{a}, c);
    assert multiset{} + multiset{a} == multiset{a};
    assert multiset{a} + multiset{c} == multiset{a, c};
  }

  /** The node's own aggregate sums what its subtree stores. */
  ghost predicate NodeAggregated(t: Tree) {
    t.totalMass == BagMass(Stored(t)) && Moment(t) == BagMoment(Stored(t))
  }

  /** Every node of the tree sums what its subtree stores. */
  ghost predicate Aggregated(t: Tree)
    decreases t, 1
  {
    NodeAggregated(t) && ChildrenAggregated(t)
  }

  ghost predicate ChildrenAggregated(t: Tree)
    decreases t, 0
  {
    match t.children
    case Undivided => true
    case Divided(topLeft, topRight, bottomLeft, bottomRight) =>
      Aggregated(topLeft) && Aggregated(topRight) && Aggregated(bottomLeft) && Aggregated(bottomRight)
  }

  /** A new node stores nothing and weighs nothing. */
  lemma EmptyAggregated(r: Rect)
    ensures Aggregated(Empty(r))
  {
    EmptyHoldsNothing(r);
    assert BagMass(multiset{}) == 0.0;
    assert BagMoment(multiset{}) == Zero;
  }

  /** A node that stores one body more and folded in that body alone still sums its subtree. */
  lemma AggregateGrows(t: Tree, after: Tree, b: BodyState)
    requires NodeAggregated(t) && Grew(t, after, b)
    requires after.totalMass == t.totalMass + b.mass
    requires Moment(after) == Add(Moment(t), Scale(b.position, b.mass))
    ensures NodeAggregated(after)
  {
    BagAdd(Stored(t), b);
  }

  /**
   * With the displaced body re-inserted into the children, an accepted
   * insertion keeps every node's `totalMass` and moment equal to the sums over
   * the bodies its subtree stores.
   */
  lemma {:induction false} InsertAggregates(t: Tree, b: BodyState, depth: nat)
    requires 0.0 < b.mass && Massive(t) && Placed(t) && ChildrenOccupancy(t) && ChildrenAggregated(t)
    ensures
      var r := Insert(t, b, depth, IntoChildren);
      r.outcome == Inserted ==> ChildrenAggregated(r.tree) && (NodeAggregated(t) ==> NodeAggregated(r.tree))
    decreases depth, if t.children.Undivided? then 3 else 1
  {
    var r := Insert(t, b, depth, IntoChildren);
    InsertSettles(t, b, depth, IntoChildren);
    InsertStores(t, b, depth, IntoChildren);
    if t.boundary.Contains(b.position) {
      InsertFoldsOnce(t, b, depth, IntoChildren);
      var folded := Fold(t, b);
      if folded.children.Undivided? && |folded.bodies| >= Capacity {
        var split := Subdivide(folded);
        var f := t.bodies[0];
        SplitChildrenAggregated(folded);
        ReinsertedSettles(split, depth, IntoChildren);
        ReinsertedStores(split, depth, IntoChildren);
        var again := Reinserted(split, depth, IntoChildren);
        assert again == InsertIntoChildren(split, f, depth, IntoChildren);
        InsertIntoChildrenAggregates(split, f, depth);
        var popped := again.tree.(bodies := again.tree.bodies[..|again.tree.bodies| - 1]);
        if again.outcome != OutOfDepth {
          assert ChildrenAggregated(popped);
          InsertIntoChildrenSettles(popped, b, depth, IntoChildren);
          InsertIntoChildrenAggregates(popped, b, depth);
        }
      } else if folded.children.Divided? {
        assert ChildrenAggregated(folded);
        InsertIntoChildrenAggregates(folded, b, depth);
      }
      if r.outcome == Inserted && NodeAggregated(t) {
        AggregateGrows(t, r.tree, b);
      }
    }
  }

  lemma SplitChildrenAggregated(t: Tree)
    ensures ChildrenAggregated(Subdivide(t))
  {
    EmptyAggregated(t.boundary.TopLeft());
    EmptyAggregated(t.boundary.TopRight());
    EmptyAggregated(t.boundary.BottomLeft());
    EmptyAggregated(t.boundary.BottomRight());
  }

  lemma {:induction false} InsertIntoChildrenAggregates(t: Tree, b: BodyState, depth: nat)
    requires t.children.Divided? && 0.0 < b.mass && Massive(t) && Placed(t) && ChildrenOccupancy(t)
    requires ChildrenAggregated(t)
    ensures
      var r := InsertIntoChildren(t, b, depth, IntoChildren);
      r.outcome == Inserted ==> ChildrenAggregated(r.tree)
    decreases depth, 0, 0
  {
    if depth > 0 {
      IntoChildrenTries(t, b, depth, IntoChildren);
      TryChildrenAggregates(t, b, depth - 1, 0);
    }
  }

  lemma {:induction false} TryChildrenAggregates(t: Tree, b: BodyState, depth: nat, k: nat)
    requires t.children.Divided? && 0.0 < b.mass && Massive(t) && Placed(t) && ChildrenOccupancy(t) && k <= 4
    requires ChildrenAggregated(t)
    ensures
      var r := TryChildren(t, b, depth, IntoChildren, k);
      r.outcome == Inserted ==> ChildrenAggregated(r.tree)
    decreases depth, 4, 4 - k, 1
  {
    if k < 4 {
      var r := Insert(Child(t.children, k), b, depth, IntoChildren);
      ChildAggregates(t, b, depth, k);
      TryStep(t, b, depth, IntoChildren, k);
      if !Settled(r.outcome) {
        ChildRefuses(t, b, depth, IntoChildren, k);
        TryChildrenAggregates(t, b, depth, k + 1);
      }
    }
  }

  /** Child `k` accepting the body leaves every child of the node summing what it stores. */
  lemma {:induction false} ChildAggregates(t: Tree, b: BodyState, depth: nat, k: nat)
    requires t.children.Divided? && 0.0 < b.mass && Massive(t) && Placed(t) && ChildrenOccupancy(t) && k < 4
    requires ChildrenAggregated(t)
    ensures
      var r := Insert(Child(t.children, k), b, depth, IntoChildren);
      r.outcome == Inserted ==> ChildrenAggregated(t.(children := WithChild(t.children, k, r.tree)))
    decreases depth, 4, 4 - k, 0
  {
    var child := Child(t.children, k);
    PlacedChild(t, k);
    OccupiedChild(t, k);
    AggregatedChild(t, k);
    var r := Insert(child, b, depth, IntoChildren);
    InsertAggregates(child, b, depth);
    if r.outcome == Inserted {
      AggregatedWithChild(t, k, r.tree);
    }
  }

  lemma AggregatedChild(t: Tree, k: nat)
    requires t.children.Divided? && k < 4 && ChildrenAggregated(t)
    ensures NodeAggregated(Child(t.children, k)) && ChildrenAggregated(Child(t.children, k))
  {
    match k
    case 0 =>
    case 1 =>
    case 2 =>
    case 3 =>
  }

  lemma AggregatedWithChild(t: Tree, k: nat, x: Tree)
    requires t.children.Divided? && k < 4 && ChildrenAggregated(t) && Aggregated(x)
    ensures ChildrenAggregated(t.(children := WithChild(t.children, k, x)))
  {
    match k
    case 0 =>
    case 1 =>
    case 2 =>
    case 3 =>
  }

  /** Every insertion the tree accepts keeps the whole tree summing what it stores. */
  lemma InsertKeepsAggregated(t: Tree, b: BodyState, depth: nat)
    requires 0.0 < b.mass && Massive(t) && Placed(t) && Occupancy(t) && Aggregated(t)
    ensures
      var r := Insert(t, b, depth, IntoChildren);
      r.outcome == Inserted ==> Aggregated(r.tree) && Stored(r.tree) == Stored(t) + multiset{b}
  {
    InsertAggregates(t, b, depth);
    InsertStores(t, b, depth, IntoChildren);
  }

  /**
   * The corrected counterpart of `TreeModel.SecondInsertDoubleFolds`: two
   * accepted insertions from a new node leave a root weighing `a.mass + c.mass`
   * with the moment of the two bodies.
   */
  lemma SecondInsertCountsOnce(r: Rect, a: BodyState, c: BodyState, depth: nat)
    requires 0.0 < a.mass && 0.0 < c.mass
    ensures
      var first := Insert(Empty(r), a, depth, IntoChildren);
      var second := Insert(first.tree, c, depth, IntoChildren);
      first.outcome == Inserted && second.outcome == Inserted ==>
        && second.tree.totalMass == a.mass + c.mass
        && Moment(second.tree) == Add(Scale(a.position, a.mass), Scale(c.position, c.mass))
  {
    var first := Insert(Empty(r), a, depth, IntoChildren);
    FirstInsert(r, a, depth);
    if first.outcome == Inserted {
      JoinsOne(first.tree, a, c, depth);
    }
  }

  /** An aggregated tree storing `a` alone that accepts `c` weighs the two and carries their moment. */
  lemma JoinsOne(t: Tree, a: BodyState, c: BodyState, depth: nat)
    requires 0.0 < c.mass && Massive(t) && Placed(t) && Occupancy(t) && Aggregated(t) && Stored(t) == multiset{a}
    ensures
      var second := Insert(t, c, depth, IntoChildren);
      second.outcome == Inserted ==>
        && second.tree.totalMass == a.mass + c.mass
        && Moment(second.tree) == Add(Scale(a.position, a.mass), Scale(c.position, c.mass))
  {
    InsertKeepsAggregated(t, c, depth);
    var second := Insert(t, c, depth, IntoChildren);
    if second.outcome == Inserted {
      assert multiset{a} + multiset{c} == multiset{a, c};
      PairMass(a, c);
    }
  }

  /** A new node that accepts a body stores it alone and weighs what it weighs. */
  lemma FirstInsert(r: Rect, a: BodyState, depth: nat)
    requires 0.0 < a.mass
    ensures
      var first := Insert(Empty(r), a, depth, IntoChildren);
      first.outcome == Inserted ==>
        Massive(first.tree) && Placed(first.tree) && Occupancy(first.tree) &&
        Aggregated(first.tree) && Stored(first.tree) == multiset{a}
  {
    var e := Empty(r);
    EmptyAggregated(r);
    EmptyHoldsNothing(r);
    assert Massive(e);
    InsertKeepsAggregated(e, a, depth);
    InsertSettles(e, a, depth, IntoChildren);
    InsertStores(e, a, depth, IntoChildren);
    assert multiset{} + multiset{a} == multiset{a};
  }
}
