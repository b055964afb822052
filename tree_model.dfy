/**
 * The quadtree of quadTree.cpp as a value: what a `QuadTree` node and the
 * nodes it owns hold, and what `insert`, `query` and `calculateForces` compute
 * on it. The class in module `QuadTrees` is proved to follow these functions.
 *
 * `insert` has no termination measure over the reals (two bodies at one
 * position subdivide forever), so `Insert` takes a `depth`: the number of
 * levels it may still descend. Running out of it is the outcome `OutOfDepth`,
 * which the source does not have.
 */
module TreeModel {
  import opened Vectors
  import opened Bodies
  import opened Regions

  /** `QuadTree::CAPACITY`, quadTree.h:22. */
  const Capacity: nat := 1

  /** A node's four owned children, or none before `subdivide` (`divided == false`). */
  datatype Children =
    | Undivided
    | Divided(topLeft: Tree, topRight: Tree, bottomLeft: Tree, bottomRight: Tree)

  /** A node: quadTree.h:23-33. */
  datatype Tree = Tree(boundary: Rect, bodies: seq<BodyState>, totalMass: real, centerOfMass: Vec, children: Children)

  /**
   * What an insertion ended in. `insert` returns true for `Inserted` and false
   * for `Outside` (line 36) and `FellThrough` (line 59).
   */
  datatype Outcome = Inserted | Outside | OutOfDepth | FellThrough

  datatype Insertion = Insertion(tree: Tree, outcome: Outcome)

  /**
   * Where a full leaf that subdivides sends the body it held. The source calls
   * `insert(bodies[0])` on the node itself (`ThroughNode`), which folds that
   * body into the node's aggregate a second time; `IntoChildren` hands it to
   * the children directly, as the aggregate's meaning requires.
   */
  datatype Reinsert = ThroughNode | IntoChildren

  /** A freshly constructed node, quadTree.h:25-28 and 39. */
  function Empty(boundary: Rect): (e: Tree)
    ensures Placed(e) && Occupancy(e)
  {
    Tree(boundary, [], 0.0, Zero, Undivided)
  }

  /** `totalMass * centerOfMass`, the mass-weighted position the aggregate stands for. */
  function Moment(t: Tree): Vec {
    Scale(t.centerOfMass, t.totalMass)
  }

  /** quadTree.cpp:38-39: the new centre of mass, then the new total mass. */
  function Fold(t: Tree, b: BodyState): Tree
    requires t.totalMass + b.mass != 0.0
  {
    t.(centerOfMass := Div(Add(Scale(t.centerOfMass, t.totalMass), Scale(b.position, b.mass)), t.totalMass + b.mass),
       totalMass := t.totalMass + b.mass)
  }

  /** `QuadTree::subdivide`, quadTree.cpp:18-31. */
  function Subdivide(t: Tree): (s: Tree)
    ensures Massive(t) ==> Massive(s)
  {
    var r := t.boundary;
    t.(children := Divided(Empty(r.TopLeft()), Empty(r.TopRight()), Empty(r.BottomLeft()), Empty(r.BottomRight())))
  }

  /** Non-negative aggregates and positive stored masses: what keeps the fold's divisor non-zero. */
  ghost predicate Massive(t: Tree) {
    0.0 <= t.totalMass &&
    (forall b <- t.bodies :: 0.0 < b.mass) &&
    match t.children
    case Undivided => true
    case Divided(a, b, c, d) => Massive(a) && Massive(b) && Massive(c) && Massive(d)
  }

  /** Every stored body lies in its node, and every child's boundary is its quadrant of the parent. */
  ghost predicate Placed(t: Tree) {
    (forall i :: 0 <= i < |t.bodies| ==> t.boundary.Contains(t.bodies[i].position)) &&
    match t.children
    case Undivided => true
    case Divided(a, b, c, d) =>
      a.boundary == t.boundary.TopLeft() && b.boundary == t.boundary.TopRight() &&
      c.boundary == t.boundary.BottomLeft() && d.boundary == t.boundary.BottomRight() &&
      Placed(a) && Placed(b) && Placed(c) && Placed(d)
  }

  /** Leaves hold at most `Capacity` bodies and divided nodes hold none of their own. */
  ghost predicate Occupancy(t: Tree)
    decreases t, 1
  {
    (t.children.Divided? ==> t.bodies == []) && ChildrenOccupancy(t)
  }

  /** `Occupancy` below the node, and the capacity bound when it is a leaf. */
  ghost predicate ChildrenOccupancy(t: Tree)
    decreases t, 0
  {
    match t.children
    case Undivided => |t.bodies| <= Capacity
    case Divided(a, b, c, d) => Occupancy(a) && Occupancy(b) && Occupancy(c) && Occupancy(d)
  }

  /** The bodies stored anywhere in the tree. */
  function Stored(t: Tree): multiset<BodyState> {
    multiset(t.bodies) +
    match t.children
    case Undivided => multiset{}
    case Divided(a, b, c, d) => Stored(a) + Stored(b) + Stored(c) + Stored(d)
  }

  /** `QuadTree::insert`, quadTree.cpp:33-60, with `how` choosing the re-insertion of line 50. */
  function Insert(t: Tree, b: BodyState, depth: nat, how: Reinsert): (r: Insertion)
    requires 0.0 < b.mass && Massive(t)
    ensures Massive(r.tree) && r.tree.boundary == t.boundary
    ensures t.children.Divided? ==> r.tree.children.Divided? && r.tree.bodies == t.bodies
    decreases depth, if t.children.Undivided? then 3 else 1
  {
    if !t.boundary.Contains(b.position) then Insertion(t, Outside)
    else
      var folded := Fold(t, b);
      if folded.children.Undivided? && |folded.bodies| < Capacity then
        Insertion(folded.(bodies := folded.bodies + [b]), Inserted)
      else if folded.children.Undivided? then
        var split := Subdivide(folded);
        var again := Reinserted(split, depth, how);
        var popped := again.tree.(bodies := again.tree.bodies[..|again.tree.bodies| - 1]);
        if again.outcome == OutOfDepth then Insertion(popped, OutOfDepth)
        else InsertIntoChildren(popped, b, depth, how)
      else
        InsertIntoChildren(folded, b, depth, how)
  }

  /** Line 50: the body a subdividing leaf held, sent back down; its outcome is not used by the source. */
  function Reinserted(split: Tree, depth: nat, how: Reinsert): (r: Insertion)
    requires split.children.Divided? && |split.bodies| >= 1 && Massive(split)
    ensures Massive(r.tree) && r.tree.boundary == split.boundary
    ensures r.tree.children.Divided? && r.tree.bodies == split.bodies
    decreases depth, 2
  {
    if how == ThroughNode then Insert(split, split.bodies[0], depth, how)
    else InsertIntoChildren(split, split.bodies[0], depth, how)
  }

  /** quadTree.cpp:54-59, reached only with the node divided; `depth` bounds the descent. */
  function InsertIntoChildren(t: Tree, b: BodyState, depth: nat, how: Reinsert): (r: Insertion)
    requires t.children.Divided? && 0.0 < b.mass && Massive(t)
    ensures Massive(r.tree) && r.tree.children.Divided?
    ensures r.tree == t.(children := r.tree.children)
    decreases depth, 0, 0
  {
    if depth == 0 then Insertion(t, OutOfDepth)
    else TryChildren(t, b, depth - 1, how, 0)
  }

  /**
   * Lines 54-59: offers the body to child `k` and on, in the fixed order
   * topLeft, topRight, bottomLeft, bottomRight, stopping at the first that
   * takes it; line 59 when none does.
   */
  function TryChildren(t: Tree, b: BodyState, depth: nat, how: Reinsert, k: nat): (r: Insertion)
    requires t.children.Divided? && 0.0 < b.mass && Massive(t) && k <= 4
    ensures Massive(r.tree) && r.tree.children.Divided?
    ensures r.tree == t.(children := r.tree.children)
    decreases depth, 4, 4 - k
  {
    if k == 4 then Insertion(t, FellThrough)
    else
      var r := Insert(Child(t.children, k), b, depth, how);
      var next := t.(children := WithChild(t.children, k, r.tree));
      MassiveWithChild(t, k, r.tree);
      if Settled(r.outcome) then Insertion(next, r.outcome)
      else TryChildren(next, b, depth, how, k + 1)
  }

  /** An outcome that ends the search through the children. */
  predicate Settled(o: Outcome) {
    o == Inserted || o == OutOfDepth
  }

  /** Child `k` in the order of lines 54-57. */
  function Child(c: Children, k: nat): Tree
    requires c.Divided? && k < 4
  {
    match k
    case 0 => c.topLeft
    case 1 => c.topRight
    case 2 => c.bottomLeft
    case _ => c.bottomRight
  }

  /** The children with child `k` replaced. */
  function WithChild(c: Children, k: nat, x: Tree): (r: Children)
    requires c.Divided? && k < 4
    ensures r.Divided? && Child(r, k) == x
    ensures forall j :: 0 <= j < 4 && j != k ==> Child(r, j) == Child(c, j)
  {
    match k
    case 0 => c.(topLeft := x)
    case 1 => c.(topRight := x)
    case 2 => c.(bottomLeft := x)
    case _ => c.(bottomRight := x)
  }

  /** Quadrant `k` of a boundary, in the same order. */
  function Quadrant(r: Rect, k: nat): Rect
    requires k < 4
  {
    match k
    case 0 => r.TopLeft()
    case 1 => r.TopRight()
    case 2 => r.BottomLeft()
    case _ => r.BottomRight()
  }

  lemma MassiveWithChild(t: Tree, k: nat, x: Tree)
    requires t.children.Divided? && k < 4 && Massive(t) && Massive(x)
    ensures Massive(t.(children := WithChild(t.children, k, x)))
  {
  }

  lemma PlacedWithChild(t: Tree, k: nat, x: Tree)
    requires t.children.Divided? && k < 4 && Placed(t) && Placed(x) && x.boundary == Child(t.children, k).boundary
    ensures Placed(t.(children := WithChild(t.children, k, x)))
  {
  }

  /** What `Placed` says of child `k`. */
  lemma PlacedChild(t: Tree, k: nat)
    requires t.children.Divided? && k < 4 && Placed(t)
    ensures Child(t.children, k).boundary == Quadrant(t.boundary, k) && Placed(Child(t.children, k))
  {
  }

  /**
   * `insert` refuses exactly the bodies outside the node and then leaves it
   * unchanged; a body inside is never dropped at line 59, because the children's
   * boxes cover the parent. Every stored body stays inside its node and every
   * child keeps its quadrant.
   */
  lemma {:induction false} InsertSettles(t: Tree, b: BodyState, depth: nat, how: Reinsert)
    requires 0.0 < b.mass && Massive(t) && Placed(t)
    ensures
      var r := Insert(t, b, depth, how);
      && Placed(r.tree)
      && (r.outcome == Outside <==> !t.boundary.Contains(b.position))
      && (r.outcome == Outside ==> r.tree == t)
      && r.outcome != FellThrough
    decreases depth, if t.children.Undivided? then 3 else 1
  {
    if t.boundary.Contains(b.position) {
      var folded := Fold(t, b);
      if folded.children.Undivided? && |folded.bodies| < Capacity {
      } else if folded.children.Undivided? {
        var split := Subdivide(folded);
        ReinsertedSettles(split, depth, how);
        var again := Reinserted(split, depth, how);
        if again.outcome != OutOfDepth {
          var popped := again.tree.(bodies := again.tree.bodies[..|again.tree.bodies| - 1]);
          InsertIntoChildrenSettles(popped, b, depth, how);
        }
      } else {
        InsertIntoChildrenSettles(folded, b, depth, how);
      }
    }
  }

  /** The body a subdividing leaf held always finds a place again, or the depth runs out. */
  lemma {:induction false} ReinsertedSettles(split: Tree, depth: nat, how: Reinsert)
    requires split.children.Divided? && |split.bodies| >= 1 && Massive(split) && Placed(split)
    ensures
      var r := Reinserted(split, depth, how);
      Placed(r.tree) && Settled(r.outcome)
    decreases depth, 2
  {
    assert split.boundary.Contains(split.bodies[0].position);
    if how == ThroughNode {
      InsertSettles(split, split.bodies[0], depth, how);
    } else {
      InsertIntoChildrenSettles(split, split.bodies[0], depth, how);
    }
  }

  lemma {:induction false} InsertIntoChildrenSettles(t: Tree, b: BodyState, depth: nat, how: Reinsert)
    requires t.children.Divided? && 0.0 < b.mass && Massive(t) && Placed(t)
    ensures
      var r := InsertIntoChildren(t, b, depth, how);
      && Placed(r.tree)
      && r.outcome != Outside
      && (t.boundary.Contains(b.position) ==> r.outcome != FellThrough)
    decreases depth, 0, 0
  {
    if depth > 0 {
      QuadrantsCover(t.boundary, b.position);
      var p := b.position;
      if t.boundary.TopLeft().Contains(p) {
        assert Quadrant(t.boundary, 0).Contains(p);
      } else if t.boundary.TopRight().Contains(p) {
        assert Quadrant(t.boundary, 1).Contains(p);
      } else if t.boundary.BottomLeft().Contains(p) {
        assert Quadrant(t.boundary, 2).Contains(p);
      } else if t.boundary.BottomRight().Contains(p) {
        assert Quadrant(t.boundary, 3).Contains(p);
      }
      IntoChildrenTries(t, b, depth, how);
      TryChildrenSettles(t, b, depth - 1, how, 0);
    }
  }

  lemma {:induction false} TryChildrenSettles(t: Tree, b: BodyState, depth: nat, how: Reinsert, k: nat)
    requires t.children.Divided? && 0.0 < b.mass && Massive(t) && Placed(t) && k <= 4
    ensures
      var r := TryChildren(t, b, depth, how, k);
      && Placed(r.tree)
      && r.outcome != Outside
      && ((exists j :: k <= j < 4 && Quadrant(t.boundary, j).Contains(b.position)) ==> r.outcome != FellThrough)
    decreases depth, 4, 4 - k
  {
    if k < 4 {
      PlacedChild(t, k);
      var r := Insert(Child(t.children, k), b, depth, how);
      InsertSettles(Child(t.children, k), b, depth, how);
      PlacedWithChild(t, k, r.tree);
      TryStep(t, b, depth, how, k);
      if !Settled(r.outcome) {
        var next := t.(children := WithChild(t.children, k, r.tree));
        TryChildrenSettles(next, b, depth, how, k + 1);
      }
    }
  }


  /**
   * An accepted insertion stores exactly the new body: the multiset of stored
   * bodies grows by that body alone (the displaced body of a subdividing leaf
   * moves down, it is neither lost nor duplicated). Leaves keep at most
   * `Capacity` bodies, and a node that subdivided keeps none of its own.
   */
  lemma {:induction false} InsertStores(t: Tree, b: BodyState, depth: nat, how: Reinsert)
    requires 0.0 < b.mass && Massive(t) && Placed(t) && ChildrenOccupancy(t)
    ensures
      var r := Insert(t, b, depth, how);
      && ChildrenOccupancy(r.tree)
      && (Occupancy(t) ==> Occupancy(r.tree))
      && (r.outcome == Inserted ==> Grew(t, r.tree, b))
    decreases depth, if t.children.Undivided? then 3 else 1
  {
    InsertSettles(t, b, depth, how);
    if t.boundary.Contains(b.position) {
      var folded := Fold(t, b);
      if folded.children.Undivided? && |folded.bodies| < Capacity {
        LeafGrows(t, folded.(bodies := folded.bodies + [b]), b);
      } else if folded.children.Undivided? {
        var split := Subdivide(folded);
        var f := t.bodies[0];
        assert t.bodies == [f];
        SubdivideKeepsContents(t, b);
        ReinsertedSettles(split, depth, how);
        ReinsertedStores(split, depth, how);
        var again := Reinserted(split, depth, how);
        var popped := again.tree.(bodies := again.tree.bodies[..|again.tree.bodies| - 1]);
        assert popped == again.tree.(bodies := []);
        if again.outcome != OutOfDepth {
          PopDisplaced(again.tree, f);
          CancelOne(Stored(split), Stored(popped), f);
          InsertIntoChildrenSettles(popped, b, depth, how);
          InsertIntoChildrenStores(popped, b, depth, how);
        }
      } else {
        InsertIntoChildrenSettles(folded, b, depth, how);
        InsertIntoChildrenStores(folded, b, depth, how);
      }
    }
  }

  /** `after` stores what `before` stored and `b` besides. */
  ghost predicate Grew(before: Tree, after: Tree, b: BodyState) {
    Stored(after) == Stored(before) + multiset{b}
  }

  lemma LeafGrows(t: Tree, after: Tree, b: BodyState)
    requires t.children.Undivided? && t.bodies == [] && after.children.Undivided? && after.bodies == [b]
    ensures Grew(t, after, b)
  {
    assert after.bodies[1..] == [];
  }

  /** A new node stores nothing. */
  lemma EmptyHoldsNothing(r: Rect)
    ensures Stored(Empty(r)) == multiset{}
  {
  }

  /** Folding into a leaf and subdividing it moves nothing: its bodies stay where they are. */
  lemma SubdivideKeepsContents(t: Tree, b: BodyState)
    requires t.children.Undivided? && t.totalMass + b.mass != 0.0
    ensures Stored(Subdivide(Fold(t, b))) == Stored(t)
  {
    var split := Subdivide(Fold(t, b));
    var r := t.boundary;
    EmptyHoldsNothing(r.TopLeft());
    EmptyHoldsNothing(r.TopRight());
    EmptyHoldsNothing(r.BottomLeft());
    EmptyHoldsNothing(r.BottomRight());
    assert Stored(split) == multiset(t.bodies) + multiset{};
  }

  /** Removing the displaced body from the node's own list after it was stored below. */
  lemma PopDisplaced(again: Tree, f: BodyState)
    requires again.children.Divided? && again.bodies == [f]
    ensures Grew(again.(bodies := []), again, f)
  {
    assert again.bodies[1..] == [];
  }

  lemma CancelOne<T>(a: multiset<T>, c: multiset<T>, f: T)
    requires a + multiset{f} == c + multiset{f}
    ensures a == c
  {
    forall x ensures a[x] == c[x] {
      assert (a + multiset{f})[x] == a[x] + multiset{f}[x];
      assert (c + multiset{f})[x] == c[x] + multiset{f}[x];
    }
  }

  lemma {:induction false} ReinsertedStores(split: Tree, depth: nat, how: Reinsert)
    requires split.children.Divided? && |split.bodies| >= 1 && Massive(split) && Placed(split)
    requires ChildrenOccupancy(split)
    ensures
      var r := Reinserted(split, depth, how);
      ChildrenOccupancy(r.tree) && (r.outcome == Inserted ==> Grew(split, r.tree, split.bodies[0]))
    decreases depth, 2
  {
    if how == ThroughNode {
      InsertStores(split, split.bodies[0], depth, how);
    } else {
      InsertIntoChildrenStores(split, split.bodies[0], depth, how);
    }
  }

  lemma {:induction false} InsertIntoChildrenStores(t: Tree, b: BodyState, depth: nat, how: Reinsert)
    requires t.children.Divided? && 0.0 < b.mass && Massive(t) && Placed(t) && ChildrenOccupancy(t)
    ensures
      var r := InsertIntoChildren(t, b, depth, how);
      ChildrenOccupancy(r.tree) && (r.outcome == Inserted ==> Grew(t, r.tree, b))
    decreases depth, 0, 0
  {
    if depth > 0 {
      IntoChildrenTries(t, b, depth, how);
      TryChildrenStores(t, b, depth - 1, how, 0);
    }
  }

  /** With depth left, the search through the children starts at child 0 one level down. */
  lemma IntoChildrenTries(t: Tree, b: BodyState, depth: nat, how: Reinsert)
    requires t.children.Divided? && 0.0 < b.mass && Massive(t) && 0 < depth
    ensures InsertIntoChildren(t, b, depth, how) == TryChildren(t, b, depth - 1, how, 0)
  {
  }

  lemma {:induction false} TryChildrenStores(t: Tree, b: BodyState, depth: nat, how: Reinsert, k: nat)
    requires t.children.Divided? && 0.0 < b.mass && Massive(t) && Placed(t) && ChildrenOccupancy(t) && k <= 4
    ensures
      var r := TryChildren(t, b, depth, how, k);
      ChildrenOccupancy(r.tree) && (r.outcome == Inserted ==> Grew(t, r.tree, b))
    decreases depth, 4, 4 - k, 2
  {
    if k < 4 {
      if Settled(Insert(Child(t.children, k), b, depth, how).outcome) {
        SettledStores(t, b, depth, how, k);
      } else {
        ChildRefuses(t, b, depth, how, k);
        TryChildrenStores(t, b, depth, how, k + 1);
      }
    } else {
      assert TryChildren(t, b, depth, how, k) == Insertion(t, FellThrough);
    }
  }

  /** The search ending at child `k`: what child `k` stores is what the node stores. */
  lemma SettledStores(t: Tree, b: BodyState, depth: nat, how: Reinsert, k: nat)
    requires t.children.Divided? && 0.0 < b.mass && Massive(t) && Placed(t) && ChildrenOccupancy(t) && k < 4
    requires Settled(Insert(Child(t.children, k), b, depth, how).outcome)
    ensures
      var r := TryChildren(t, b, depth, how, k);
      ChildrenOccupancy(r.tree) && (r.outcome == Inserted ==> Grew(t, r.tree, b))
    decreases depth, 4, 4 - k, 1
  {
    ChildStores(t, b, depth, how, k);
    TryStep(t, b, depth, how, k);
  }

  /** Child `k` taking the body makes the node store it once more, and keeps every leaf within capacity. */
  lemma {:induction false} ChildStores(t: Tree, b: BodyState, depth: nat, how: Reinsert, k: nat)
    requires t.children.Divided? && 0.0 < b.mass && Massive(t) && Placed(t) && ChildrenOccupancy(t) && k < 4
    ensures
      var r := Insert(Child(t.children, k), b, depth, how);
      var next := t.(children := WithChild(t.children, k, r.tree));
      ChildrenOccupancy(next) && (r.outcome == Inserted ==> Grew(t, next, b))
    decreases depth, 4, 4 - k, 0
  {
    var child := Child(t.children, k);
    PlacedChild(t, k);
    OccupiedChild(t, k);
    var r := Insert(child, b, depth, how);
    InsertStores(child, b, depth, how);
    OccupancyWithChild(t, k, r.tree);
    if r.outcome == Inserted {
      StoredWithChild(t, k, r.tree, multiset{b});
    }
  }

  /** A child that refuses the body is left as it was, and the search moves on to the next. */
  lemma SkipChild(t: Tree, b: BodyState, depth: nat, how: Reinsert, k: nat)
    requires t.children.Divided? && 0.0 < b.mass && Massive(t) && k < 4
    requires !Child(t.children, k).boundary.Contains(b.position)
    ensures TryChildren(t, b, depth, how, k) == TryChildren(t, b, depth, how, k + 1)
  {
    var c := t.children;
    assert Insert(Child(c, k), b, depth, how) == Insertion(Child(c, k), Outside);
    assert WithChild(c, k, Child(c, k)) == c;
  }

  /** One step of the search: child `k` settles it, or the search goes on with child `k` replaced. */
  lemma TryStep(t: Tree, b: BodyState, depth: nat, how: Reinsert, k: nat)
    requires t.children.Divided? && 0.0 < b.mass && Massive(t) && k < 4
    ensures
      var r := Insert(Child(t.children, k), b, depth, how);
      var next := t.(children := WithChild(t.children, k, r.tree));
      TryChildren(t, b, depth, how, k) ==
        if Settled(r.outcome) then Insertion(next, r.outcome) else TryChildren(next, b, depth, how, k + 1)
  {
  }

  /** A child that does not settle the search has refused the body, so the search moves on unchanged. */
  lemma ChildRefuses(t: Tree, b: BodyState, depth: nat, how: Reinsert, k: nat)
    requires t.children.Divided? && 0.0 < b.mass && Massive(t) && Placed(t) && k < 4
    ensures !Settled(Insert(Child(t.children, k), b, depth, how).outcome) ==>
      TryChildren(t, b, depth, how, k) == TryChildren(t, b, depth, how, k + 1)
  {
    PlacedChild(t, k);
    InsertSettles(Child(t.children, k), b, depth, how);
    if !Child(t.children, k).boundary.Contains(b.position) {
      SkipChild(t, b, depth, how, k);
    }
  }

  lemma OccupiedChild(t: Tree, k: nat)
    requires t.children.Divided? && k < 4 && ChildrenOccupancy(t)
    ensures Occupancy(Child(t.children, k)) && ChildrenOccupancy(Child(t.children, k))
  {
  }

  lemma OccupancyWithChild(t: Tree, k: nat, x: Tree)
    requires t.children.Divided? && k < 4 && ChildrenOccupancy(t) && Occupancy(x)
    ensures ChildrenOccupancy(t.(children := WithChild(t.children, k, x)))
  {
  }

  /** Replacing child `k` by one storing `extra` more makes the node store `extra` more. */
  lemma StoredWithChild(t: Tree, k: nat, x: Tree, extra: multiset<BodyState>)
    requires t.children.Divided? && k < 4
    requires Stored(x) == Stored(Child(t.children, k)) + extra
    ensures Stored(t.(children := WithChild(t.children, k, x))) == Stored(t) + extra
  {
    match k
    case 0 =>
    case 1 =>
    case 2 =>
    case 3 =>
  }

  /** One fold adds the body's mass to `totalMass` and its `mass * position` to the moment. */
  lemma FoldAccumulates(t: Tree, b: BodyState)
    requires t.totalMass + b.mass != 0.0
    ensures Fold(t, b).totalMass == t.totalMass + b.mass
    ensures Moment(Fold(t, b)) == Add(Moment(t), Scale(b.position, b.mass))
  {
    var k := t.totalMass + b.mass;
    var v := Add(Scale(t.centerOfMass, t.totalMass), Scale(b.position, b.mass));
    assert Fold(t, b).centerOfMass == Div(v, k);
    assert (v.x / k) * k == v.x && (v.y / k) * k == v.y;
  }

  /**
   * An insertion the node accepts folds the body into the node's aggregate
   * once, and changes it in no other way, unless the node is a full leaf
   * that re-inserts its displaced body through itself (`SubdivisionFoldsTwice`).
   */
  lemma InsertFoldsOnce(t: Tree, b: BodyState, depth: nat, how: Reinsert)
    requires 0.0 < b.mass && Massive(t) && t.boundary.Contains(b.position)
    requires how == IntoChildren || t.children.Divided? || |t.bodies| < Capacity
    ensures
      var r := Insert(t, b, depth, how).tree;
      r.totalMass == t.totalMass + b.mass && Moment(r) == Add(Moment(t), Scale(b.position, b.mass))
  {
    FoldAccumulates(t, b);
    var folded := Fold(t, b);
    if folded.children.Undivided? && |folded.bodies| >= Capacity {
      var split := Subdivide(folded);
      var again := Reinserted(split, depth, how);
      assert again.tree.totalMass == split.totalMass && again.tree.centerOfMass == split.centerOfMass;
    }
  }

  /**
   * As written, a full leaf that subdivides folds the new body into its
   * aggregate and then, re-inserting its displaced body through itself
   * (quadTree.cpp:50), folds that body in a second time.
   */
  lemma SubdivisionFoldsTwice(t: Tree, b: BodyState, depth: nat)
    requires 0.0 < b.mass && Massive(t) && Placed(t) && t.boundary.Contains(b.position)
    requires t.children.Undivided? && |t.bodies| >= Capacity
    ensures
      var f := t.bodies[0];
      var r := Insert(t, b, depth, ThroughNode).tree;
      && r.totalMass == t.totalMass + b.mass + f.mass
      && Moment(r) == Add(Add(Moment(t), Scale(b.position, b.mass)), Scale(f.position, f.mass))
  {
    var f := t.bodies[0];
    FoldAccumulates(t, b);
    var split := Subdivide(Fold(t, b));
    assert split.boundary.Contains(f.position);
    InsertFoldsOnce(split, f, depth, ThroughNode);
  }

  /**
   * From a new node, two accepted insertions leave a root whose `totalMass`
   * counts the first body twice: `2 * a.mass + c.mass`, where the two bodies
   * weigh `a.mass + c.mass`; its moment counts the first body twice as well.
   */
  lemma SecondInsertDoubleFolds(r: Rect, a: BodyState, c: BodyState, depth: nat)
    requires 0.0 < a.mass && 0.0 < c.mass && r.Contains(a.position) && r.Contains(c.position)
    ensures
      var first := Insert(Empty(r), a, depth, ThroughNode);
      var second := Insert(first.tree, c, depth, ThroughNode);
      && first.outcome == Inserted
      && second.tree.totalMass == 2.0 * a.mass + c.mass
      && Moment(second.tree) == Add(Scale(a.position, 2.0 * a.mass), Scale(c.position, c.mass))
  {
    var e := Empty(r);
    assert Massive(e);
    FoldAccumulates(e, a);
    var first := Insert(e, a, depth, ThroughNode);
    assert first.tree == Fold(e, a).(bodies := [a]);
    assert Moment(e) == Zero;
    SubdivisionFoldsTwice(first.tree, c, depth);
  }

  /** A new node that accepts a body becomes a leaf holding it, weighing its mass and centred on it. */
  lemma InsertIntoEmpty(r: Rect, a: BodyState, depth: nat, how: Reinsert)
    requires 0.0 < a.mass && r.Contains(a.position)
    ensures Insert(Empty(r), a, depth, how) == Insertion(Tree(r, [a], a.mass, a.position, Undivided), Inserted)
  {
    var e := Empty(r);
    assert Massive(e);
    FoldAccumulates(e, a);
    var p := a.position;
    assert (p.x * a.mass) / a.mass == p.x && (p.y * a.mass) / a.mass == p.y;
    assert Fold(e, a).centerOfMass == Div(Scale(p, a.mass), a.mass);
  }

  /** The leaf a new node over `r` becomes when it accepts `a` (`InsertIntoEmpty`). */
  function Leaf(r: Rect, a: BodyState): Tree {
    Tree(r, [a], a.mass, a.position, Undivided)
  }

  /** The four empty children `subdivide` gives a node over `r`. */
  function FreshChildren(r: Rect): Children {
    Divided(Empty(r.TopLeft()), Empty(r.TopRight()), Empty(r.BottomLeft()), Empty(r.BottomRight()))
  }

  /** Child `k` of the children `subdivide` gives a node over `r` is a new node over quadrant `k`. */
  lemma FreshChild(r: Rect, k: nat)
    requires k < 4
    ensures Child(FreshChildren(r), k) == Empty(Quadrant(r, k))
  {
  }

  /**
   * The first quadrant, in the order of lines 54-57, whose box holds `p`, or 4
   * when none does: the child a divided node with fresh children hands a body
   * at `p` to. Some quadrant holds `p` exactly when the box does.
   */
  function FirstQuadrant(r: Rect, p: Vec): (k: nat)
    ensures k <= 4 && (k < 4 <==> r.Contains(p))
    ensures k < 4 ==> Quadrant(r, k).Contains(p)
    ensures forall j :: 0 <= j < k ==> !Quadrant(r, j).Contains(p)
  {
    QuadrantsCover(r, p);
    if r.TopLeft().Contains(p) then 0
    else if r.TopRight().Contains(p) then 1
    else if r.BottomLeft().Contains(p) then 2
    else if r.BottomRight().Contains(p) then 3
    else 4
  }

  /**
   * With depth to spare, a body that the children before `k` refuse, and that
   * lies in quadrant `k` where child `k` is still a new node, becomes the only
   * body of child `k`; nothing else changes.
   */
  lemma ChildTakes(t: Tree, x: BodyState, depth: nat, how: Reinsert, k: nat)
    requires 0.0 < x.mass && Massive(t) && 0 < depth && t.children.Divided? && k < 4
    requires forall j :: 0 <= j < k ==> !Child(t.children, j).boundary.Contains(x.position)
    requires Child(t.children, k) == Empty(Quadrant(t.boundary, k)) && Quadrant(t.boundary, k).Contains(x.position)
    ensures InsertIntoChildren(t, x, depth, how) ==
      Insertion(t.(children := WithChild(t.children, k, Leaf(Quadrant(t.boundary, k), x))), Inserted)
  {
    IntoChildrenTries(t, x, depth, how);
    if 0 < k {
      SkipChild(t, x, depth - 1, how, 0);
    }
    if 1 < k {
      SkipChild(t, x, depth - 1, how, 1);
    }
    if 2 < k {
      SkipChild(t, x, depth - 1, how, 2);
    }
    TryStep(t, x, depth - 1, how, k);
    InsertIntoEmpty(Quadrant(t.boundary, k), x, depth - 1, how);
  }

  /**
   * A leaf holding `a`, subdivided: with depth to spare the re-insertion of
   * line 50 puts `a` into the child of its first quadrant, by either route
   * (through the node it also folds `a` in a second time).
   */
  lemma ReinsertedIntoQuadrant(split: Tree, a: BodyState, depth: nat, how: Reinsert)
    requires 0.0 < a.mass && 0 < depth && Massive(split) && split.bodies == [a]
    requires split.children == FreshChildren(split.boundary) && split.boundary.Contains(a.position)
    ensures
      var k := FirstQuadrant(split.boundary, a.position);
      var again := Reinserted(split, depth, how);
      && again.outcome == Inserted && again.tree.bodies == [a]
      && again.tree.children == WithChild(split.children, k, Leaf(Quadrant(split.boundary, k), a))
  {
    var r, k := split.boundary, FirstQuadrant(split.boundary, a.position);
    forall j | 0 <= j < 4 ensures Child(split.children, j) == Empty(Quadrant(r, j)) {
      FreshChild(r, j);
    }
    if how == ThroughNode {
      ChildTakes(Fold(split, a), a, depth, how, k);
    } else {
      ChildTakes(split, a, depth, how, k);
    }
  }

  /**
   * The second insertion into a leaf holding `a` subdivides it, re-inserts
   * `a` into the child of its first quadrant, and sends `c` into the
   * children of the node with `a` popped from its own list.
   */
  lemma SecondInsertSubdivides(r: Rect, a: BodyState, c: BodyState, depth: nat, how: Reinsert)
    requires 0.0 < a.mass && 0.0 < c.mass && 0 < depth && r.Contains(a.position) && r.Contains(c.position)
    ensures
      var ka := FirstQuadrant(r, a.position);
      var again := Reinserted(Subdivide(Fold(Leaf(r, a), c)), depth, how);
      var popped := again.tree.(bodies := []);
      && Massive(popped) && popped.boundary == r
      && popped.children == WithChild(FreshChildren(r), ka, Leaf(Quadrant(r, ka), a))
      && Insert(Leaf(r, a), c, depth, how) == InsertIntoChildren(popped, c, depth, how)
  {
    var leaf := Leaf(r, a);
    assert Massive(leaf);
    var split := Subdivide(Fold(leaf, c));
    ReinsertedIntoQuadrant(split, a, depth, how);
  }

  /**
   * Two bodies of a new node whose first quadrants differ are both accepted
   * with one level of depth, whichever way the displaced body is re-inserted:
   * each ends as the only body of the child of its first quadrant, and the
   * node stores both and nothing of its own.
   */
  lemma SeparatedPairInserted(r: Rect, a: BodyState, c: BodyState, depth: nat, how: Reinsert)
    requires 0.0 < a.mass && 0.0 < c.mass && 0 < depth && r.Contains(a.position) && r.Contains(c.position)
    requires FirstQuadrant(r, a.position) != FirstQuadrant(r, c.position)
    ensures
      var ka, kc := FirstQuadrant(r, a.position), FirstQuadrant(r, c.position);
      var first := Insert(Empty(r), a, depth, how);
      var second := Insert(first.tree, c, depth, how);
      && first.outcome == Inserted && second.outcome == Inserted
      && second.tree.bodies == []
      && second.tree.children ==
           WithChild(WithChild(FreshChildren(r), ka, Leaf(Quadrant(r, ka), a)), kc, Leaf(Quadrant(r, kc), c))
      && Stored(second.tree) == multiset{a, c}
  {
    var ka, kc := FirstQuadrant(r, a.position), FirstQuadrant(r, c.position);
    InsertIntoEmpty(r, a, depth, how);
    SecondInsertSubdivides(r, a, c, depth, how);
    var popped := Reinserted(Subdivide(Fold(Leaf(r, a), c)), depth, how).tree.(bodies := []);
    forall j | 0 <= j < 4 ensures Child(popped.children, j).boundary == Quadrant(r, j) {
      FreshChild(r, j);
    }
    FreshChild(r, kc);
    ChildTakes(popped, c, depth, how, kc);
    PairStores(r, a, c, depth, how);
  }

  /** Two accepted insertions into a new node make it store exactly the two bodies (`InsertStores`). */
  lemma PairStores(r: Rect, a: BodyState, c: BodyState, depth: nat, how: Reinsert)
    requires 0.0 < a.mass && 0.0 < c.mass
    ensures
      var first := Insert(Empty(r), a, depth, how);
      var second := Insert(first.tree, c, depth, how);
      first.outcome == Inserted && second.outcome == Inserted ==> Stored(second.tree) == multiset{a, c}
  {
    var e := Empty(r);
    assert Massive(e) && Placed(e) && ChildrenOccupancy(e);
    EmptyHoldsNothing(r);
    InsertStores(e, a, depth, how);
    var first := Insert(e, a, depth, how);
    InsertSettles(e, a, depth, how);
    InsertStores(first.tree, c, depth, how);
  }

  /**
   * With no depth left, a divided node folds a body inside it into its
   * aggregate and refuses it with `OutOfDepth`: it stores no more than before.
   * So a bound smaller than the height of the tree loses the body, as in
   * `Insert(Subdivide(Empty(r)), b, 0, how)`.
   */
  lemma DividedNodeOutOfDepth(t: Tree, b: BodyState, how: Reinsert)
    requires 0.0 < b.mass && Massive(t) && t.children.Divided? && t.boundary.Contains(b.position)
    ensures
      var r := Insert(t, b, 0, how);
      r.outcome == OutOfDepth && r.tree == Fold(t, b) && Stored(r.tree) == Stored(t)
  {
  }

  /**
   * With no depth left, a second body anywhere in a leaf's box, distinct from
   * the first or not, ends the insertion with `OutOfDepth`, and the node then
   * stores neither body: the displaced one was refused by the children and
   * popped from the node's own list.
   */
  lemma DepthExhaustedDropsBoth(r: Rect, a: BodyState, c: BodyState, how: Reinsert)
    requires 0.0 < a.mass && 0.0 < c.mass && r.Contains(a.position) && r.Contains(c.position)
    ensures
      var second := Insert(Leaf(r, a), c, 0, how);
      second.outcome == OutOfDepth && Stored(second.tree) == multiset{}
  {
    var leaf := Leaf(r, a);
    assert Massive(leaf);
    var split := Subdivide(Fold(leaf, c));
    var again := Reinserted(split, 0, how);
    if how == ThroughNode {
      assert Insert(split, a, 0, how) == InsertIntoChildren(Fold(split, a), a, 0, how);
    }
    assert again.outcome == OutOfDepth && again.tree.children == split.children;
    var popped := again.tree.(bodies := []);
    EmptyHoldsNothing(r.TopLeft());
    EmptyHoldsNothing(r.TopRight());
    EmptyHoldsNothing(r.BottomLeft());
    EmptyHoldsNothing(r.BottomRight());
    assert Stored(popped) == multiset{};
  }

  /**
   * A worked instance: over the box centred at the origin with side 10, bodies
   * at (-2, -2) and (2, 2) are both accepted with depth 1.
   */
  lemma OppositeCornersInserted(how: Reinsert)
    ensures
      var r := Rect(0.0, 0.0, 10.0, 10.0);
      var a := BodyState(1.0, 1.0, Vec(-2.0, -2.0), Zero, Zero);
      var c := BodyState(1.0, 1.0, Vec(2.0, 2.0), Zero, Zero);
      var first := Insert(Empty(r), a, 1, how);
      first.outcome == Inserted && Insert(first.tree, c, 1, how).outcome == Inserted
  {
    SeparatedPairInserted(Rect(0.0, 0.0, 10.0, 10.0), BodyState(1.0, 1.0, Vec(-2.0, -2.0), Zero, Zero),
      BodyState(1.0, 1.0, Vec(2.0, 2.0), Zero, Zero), 1, how);
  }
}
