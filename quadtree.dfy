/**
 * The `QuadTree` class of quadTree.h / quadTree.cpp: nodes that own four
 * children, updated in place by `insert`. Each node's ghost `Model` is the
 * value of module `TreeModel` it stands for, and every operation is proved to
 * do what the functions of `TreeModel`, `TreeQuery` and `TreeForces` say,
 * with the displaced body re-inserted through the node as the code does.
 */
module QuadTrees {
  import opened Vectors
  import opened Bodies
  import opened Regions
  import opened TreeModel
  import TreeQuery
  import TreeForces

  class QuadTree {
    const boundary: Rect
    var bodies: seq<BodyState>
    var divided: bool
    var totalMass: real
    var centerOfMass: Vec
    var topLeft: QuadTree?
    var topRight: QuadTree?
    var bottomLeft: QuadTree?
    var bottomRight: QuadTree?

    ghost var Model: Tree
    ghost var Repr: set<object>

    /**
     * The fields are the model's, the children exist exactly when the node is
     * divided, the four children own separate parts of the heap (no sharing,
     * no cycles), and the model's children are the children's models.
     */
    ghost predicate Valid()
      reads this, Repr
      decreases Repr, 1
    {
      this in Repr &&
      Model == Tree(boundary, bodies, totalMass, centerOfMass, Model.children) &&
      (divided <==> Model.children.Divided?) &&
      if !divided then topLeft == null && topRight == null && bottomLeft == null && bottomRight == null
      else
        && topLeft != null && topRight != null && bottomLeft != null && bottomRight != null
        && Owns(topLeft) && Owns(topRight) && Owns(bottomLeft) && Owns(bottomRight)
        && topLeft.Repr !! topRight.Repr && topLeft.Repr !! bottomLeft.Repr && topLeft.Repr !! bottomRight.Repr
        && topRight.Repr !! bottomLeft.Repr && topRight.Repr !! bottomRight.Repr && bottomLeft.Repr !! bottomRight.Repr
        && Model.children == Divided(topLeft.Model, topRight.Model, bottomLeft.Model, bottomRight.Model)
    }

    /** `child` is valid and its part of the heap lies inside this node's, without this node. */
    ghost predicate Owns(child: QuadTree)
      reads this, Repr
      decreases Repr, 0
    {
      this in Repr && child in Repr && child.Repr <= Repr && this !in child.Repr && child.Valid()
    }

    /** The four children of a valid divided node are valid and own parts of its heap. */
    lemma ChildrenValid()
      requires Valid() && divided
      ensures topLeft != null && topRight != null && bottomLeft != null && bottomRight != null
      ensures topLeft.Valid() && topRight.Valid() && bottomLeft.Valid() && bottomRight.Valid()
      ensures topLeft.Repr < Repr && topRight.Repr < Repr && bottomLeft.Repr < Repr && bottomRight.Repr < Repr
      ensures Model.children == Divided(topLeft.Model, topRight.Model, bottomLeft.Model, bottomRight.Model)
    {
    }

    /** `QuadTree(boundary)`, quadTree.h:23-28, 39: undivided, no bodies, zero mass at the origin. */
    constructor (boundary: Rect)
      ensures Valid() && fresh(Repr)
      ensures Model == Empty(boundary)
    {
      this.boundary := boundary;
      bodies := [];
      divided := false;
      totalMass := 0.0;
      centerOfMass := Vec(0.0, 0.0);
      topLeft, topRight, bottomLeft, bottomRight := null, null, null, null;
      Model := Empty(boundary);
      Repr := {this};
    }

    /** `subdivide()`, quadTree.cpp:18-31: four new empty children over the quadrants. */
    method Subdivide()
      requires Valid() && !divided
      modifies this
      ensures Valid() && fresh(Repr - old(Repr))
      ensures Model == TreeModel.Subdivide(old(Model))
    {
      var a := new QuadTree(boundary.TopLeft());
      var b := new QuadTree(boundary.TopRight());
      var c := new QuadTree(boundary.BottomLeft());
      var d := new QuadTree(boundary.BottomRight());
      Adopt(a, b, c, d);
    }

    /** Makes four separate trees the children of this undivided node. */
    method Adopt(a: QuadTree, b: QuadTree, c: QuadTree, d: QuadTree)
      requires Valid() && !divided
      requires a.Valid() && b.Valid() && c.Valid() && d.Valid()
      requires this !in a.Repr && this !in b.Repr && this !in c.Repr && this !in d.Repr
      requires a.Repr !! b.Repr && a.Repr !! c.Repr && a.Repr !! d.Repr && b.Repr !! c.Repr && b.Repr !! d.Repr && c.Repr !! d.Repr
      modifies this
      ensures Valid() && Repr == old(Repr) + a.Repr + b.Repr + c.Repr + d.Repr
      ensures Model == old(Model).(children := Divided(a.Model, b.Model, c.Model, d.Model))
    {
      Model := Tree(boundary, bodies, totalMass, centerOfMass, Divided(a.Model, b.Model, c.Model, d.Model));
      topLeft, topRight, bottomLeft, bottomRight, divided := a, b, c, d, true;
      Repr := Repr + a.Repr + b.Repr + c.Repr + d.Repr;
      Kept(a);
      Kept(b);
      Kept(c);
      Kept(d);
    }

    /**
     * `insert(body)`, quadTree.cpp:33-60. A full leaf subdivides and re-inserts
     * its body through this very node (line 50) before passing the new body on
     * to the children. `depth` bounds the recursion.
     */
    method Insert(body: BodyState, depth: nat) returns (outcome: Outcome)
      requires Valid() && 0.0 < body.mass && Massive(Model)
      modifies Repr
      ensures Valid() && fresh(Repr - old(Repr))
      ensures Insertion(Model, outcome) == TreeModel.Insert(old(Model), body, depth, ThroughNode)
      decreases depth, if divided then 1 else 2
    {
      if !boundary.Contains(body.position) {
        return Outside;
      }
      FoldIn(body);
      if !divided && |bodies| < Capacity {
        Push(body);
        return Inserted;
      }
      if !divided {
        ghost var folded := Model;
        Subdivide();
        ghost var split := Model;
        var again := Insert(bodies[0], depth);
        assert Insertion(Model, again) == Reinserted(split, depth, ThroughNode);
        PopBack();
        if again == OutOfDepth {
          return OutOfDepth;
        }
      }
      outcome := InsertIntoChildren(body, depth);
    }

    /** Lines 38-39: fold the body into `centerOfMass` and `totalMass`. */
    method FoldIn(body: BodyState)
      requires Valid() && 0.0 < body.mass && Massive(Model)
      modifies this
      ensures Valid() && Repr == old(Repr) && divided == old(divided)
      ensures Model == Fold(old(Model), body) && Massive(Model)
    {
      centerOfMass := Div(Add(Scale(centerOfMass, totalMass), Scale(body.position, body.mass)), totalMass + body.mass);
      totalMass := totalMass + body.mass;
      Model := Fold(Model, body);
      if divided {
        Kept(topLeft);
        Kept(topRight);
        Kept(bottomLeft);
        Kept(bottomRight);
      }
    }

    /** Line 43: `bodies.push_back(body)` on a leaf. */
    method Push(body: BodyState)
      requires Valid() && !divided
      modifies this
      ensures Valid() && Repr == old(Repr)
      ensures Model == old(Model).(bodies := old(Model).bodies + [body])
    {
      bodies := bodies + [body];
      Model := Model.(bodies := bodies);
    }

    /** Line 51: `bodies.pop_back()` once the displaced body has gone down. */
    method PopBack()
      requires Valid() && divided && |bodies| >= 1
      modifies this
      ensures Valid() && Repr == old(Repr) && divided
      ensures Model == old(Model).(bodies := old(Model).bodies[..|old(Model).bodies| - 1])
    {
      bodies := bodies[..|bodies| - 1];
      Model := Model.(bodies := bodies);
      Kept(topLeft);
      Kept(topRight);
      Kept(bottomLeft);
      Kept(bottomRight);
    }

    /** Lines 54-59: offer the body to the four children in order; the first that takes it ends the search. */
    method InsertIntoChildren(body: BodyState, depth: nat) returns (outcome: Outcome)
      requires Valid() && divided && 0.0 < body.mass && Massive(Model)
      modifies Repr
      ensures Valid() && fresh(Repr - old(Repr))
      ensures Insertion(Model, outcome) == TreeModel.InsertIntoChildren(old(Model), body, depth, ThroughNode)
      decreases depth, 0
    {
      if depth == 0 {
        return OutOfDepth;
      }
      outcome := InsertFrom(0, body, depth - 1);
    }

    /** The tail of lines 54-59 from child `k` on: the children before `k` have declined the body. */
    method InsertFrom(k: nat, body: BodyState, depth: nat) returns (outcome: Outcome)
      requires Valid() && divided && 0.0 < body.mass && Massive(Model) && k <= 4
      modifies Repr
      ensures Valid() && fresh(Repr - old(Repr))
      ensures Insertion(Model, outcome) == TryChildren(old(Model), body, depth, ThroughNode, k)
      decreases depth, 8 - k
    {
      if k == 4 {
        return FellThrough;
      }
      ghost var before := Model;
      outcome := InsertIntoChild(k, body, depth);
      MassiveWithChild(before, k, Child(Model.children, k));
      if !Settled(outcome) {
        outcome := InsertFrom(k + 1, body, depth);
      }
    }

    /**
     * A divided node is valid again once one of its children has changed
     * within its own and fresh objects and the node has taken in its new part
     * of the heap and its new model.
     */
    twostate lemma Rejoined(child: QuadTree)
      requires old(Valid()) && old(divided) && divided
      requires bodies == old(bodies) && totalMass == old(totalMass) && centerOfMass == old(centerOfMass)
      requires topLeft == old(topLeft) && topRight == old(topRight) && bottomLeft == old(bottomLeft) && bottomRight == old(bottomRight)
      requires child == topLeft || child == topRight || child == bottomLeft || child == bottomRight
      requires child.Valid() && fresh(child.Repr - old(child.Repr)) && Repr == old(Repr) + child.Repr
      requires child != topLeft ==> unchanged(old(topLeft.Repr))
      requires child != topRight ==> unchanged(old(topRight.Repr))
      requires child != bottomLeft ==> unchanged(old(bottomLeft.Repr))
      requires child != bottomRight ==> unchanged(old(bottomRight.Repr))
      requires Model == old(Model).(children := Divided(
        if child == topLeft then child.Model else old(topLeft.Model), if child == topRight then child.Model else old(topRight.Model),
        if child == bottomLeft then child.Model else old(bottomLeft.Model), if child == bottomRight then child.Model else old(bottomRight.Model)))
      ensures Valid()
    {
      if child != topLeft { Kept(topLeft); }
      if child != topRight { Kept(topRight); }
      if child != bottomLeft { Kept(bottomLeft); }
      if child != bottomRight { Kept(bottomRight); }
    }

    /** One `child->insert(body)` of lines 54-57, as one step of `TreeModel.TryChildren`. */
    method InsertIntoChild(k: nat, body: BodyState, depth: nat) returns (outcome: Outcome)
      requires Valid() && divided && 0.0 < body.mass && Massive(Model) && k < 4
      modifies Repr
      ensures Valid() && fresh(Repr - old(Repr)) && divided
      ensures
        var r := TreeModel.Insert(Child(old(Model).children, k), body, depth, ThroughNode);
        outcome == r.outcome && Model == old(Model).(children := WithChild(old(Model).children, k, r.tree))
      decreases depth, 3
    {
      var child := if k == 0 then topLeft else if k == 1 then topRight else if k == 2 then bottomLeft else bottomRight;
      outcome := child.Insert(body, depth);
      Repr := Repr + child.Repr;
      Model := Model.(children := WithChild(Model.children, k, child.Model));
      Rejoined(child);
    }

    /**
     * `query(range, found)`, quadTree.cpp:62-80: `found` with the bodies the
     * node and its subtree report appended, in order; the tree is not changed.
     */
    method Query(range: Rect, found: seq<BodyState>) returns (result: seq<BodyState>)
      requires Valid()
      ensures result == found + TreeQuery.Query(Model, range, TreeQuery.ByIntersects)
      decreases Repr
    {
      result := found;
      if !boundary.Intersects(range) {
        return;
      }
      result := Collect(range, found);
      if divided {
        result := topLeft.Query(range, result);
        result := topRight.Query(range, result);
        result := bottomLeft.Query(range, result);
        result := bottomRight.Query(range, result);
      }
    }

    /** Lines 67-71: `found` with the node's own bodies that lie in `range` appended, in order. */
    method Collect(range: Rect, found: seq<BodyState>) returns (result: seq<BodyState>)
      ensures result == found + TreeQuery.InRange(bodies, range)
    {
      result := found;
      var i := 0;
      while i < |bodies|
        invariant 0 <= i <= |bodies|
        invariant result == found + TreeQuery.InRange(bodies[..i], range)
      {
        assert bodies[..i + 1][..i] == bodies[..i];
        if range.Contains(bodies[i].position) {
          result := result + [bodies[i]];
        }
        i := i + 1;
      }
      assert bodies[..i] == bodies;
    }

    /** `calculateForces(body, deltaT)`, quadTree.cpp:108-124, with the pseudo-body pull from `body.calcForce`. */
    function CalculateForces(body: Body, deltaT: real, sqrt: real -> real): (force: Vec)
      requires Valid() && IsSqrt(sqrt) && TreeForces.ForceDefined(Model, body.position)
      reads this, Repr, body
      ensures force == TreeForces.CalculateForces(Model, body.State(), sqrt)
      decreases Repr
    {
      if !boundary.Contains(body.position) then
        body.CalcForce(centerOfMass, totalMass, deltaT, sqrt)
      else if divided then
        ChildrenValid();
        Add(Add(Add(Add(Zero, topLeft.CalculateForces(body, deltaT, sqrt)), topRight.CalculateForces(body, deltaT, sqrt)),
          bottomLeft.CalculateForces(body, deltaT, sqrt)), bottomRight.CalculateForces(body, deltaT, sqrt))
      else
        Zero
    }
  }

  /** A valid node whose part of the heap nothing touched is still valid, with the same model. */
  twostate lemma Kept(n: QuadTree)
    requires old(n.Valid()) && unchanged(old(n.Repr))
    ensures n.Valid() && n.Model == old(n.Model) && n.Repr == old(n.Repr)
  {
  }
}
