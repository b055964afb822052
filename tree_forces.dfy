/**
 * `QuadTree::calculateForces`, quadTree.cpp:108-124: the pull on a body from
 * the bodies a tree stores, region by region. A node the body lies outside
 * acts as a single pseudo-body of mass `totalMass` at `centerOfMass`; a leaf
 * the body lies inside contributes nothing; a divided node the body lies
 * inside adds up its four children.
 */
module TreeForces {
  import opened Vectors
  import opened Bodies
  import opened Regions
  import opened TreeModel
  import opened TreeMass

  /**
   * `calcForce` needs a non-zero distance: every node the body lies outside of
   * has its centre of mass somewhere other than the body's position.
   */
  predicate ForceDefined(t: Tree, p: Vec) {
    if !t.boundary.Contains(p) then t.centerOfMass != p
    else
      match t.children
      case Undivided => true
      case Divided(a, b, c, d) => ForceDefined(a, p) && ForceDefined(b, p) && ForceDefined(c, p) && ForceDefined(d, p)
  }

  /** `calculateForces(body, deltaT)`; `deltaT` only passes through to `calcForce`, which ignores it. */
  function CalculateForces(t: Tree, body: BodyState, sqrt: real -> real): Vec
    requires IsSqrt(sqrt) && ForceDefined(t, body.position)
  {
    if !t.boundary.Contains(body.position) then
      Attraction(body.position, body.mass, t.centerOfMass, t.totalMass, sqrt)
    else
      match t.children
      case Undivided => Zero
      case Divided(a, b, c, d) =>
        Add(Add(Add(Add(Zero, CalculateForces(a, body, sqrt)), CalculateForces(b, body, sqrt)),
          CalculateForces(c, body, sqrt)), CalculateForces(d, body, sqrt))
  }

  /** A mass of zero pulls with no force. */
  lemma NoMassNoPull(p: Vec, m: real, q: Vec, sqrt: real -> real)
    requires IsSqrt(sqrt) && p != q
    ensures Attraction(p, m, q, 0.0, sqrt) == Zero
  {
    Apart(p, q, sqrt);
    var delta := Sub(q, p);
    assert G * 0.0 * m / Dot(delta, delta) == 0.0;
    assert Scale(delta, 0.0) == Zero;
  }

  /** A new node exerts no force on any body, inside or outside it. */
  lemma EmptyExertsNothing(r: Rect, body: BodyState, sqrt: real -> real)
    requires IsSqrt(sqrt) && ForceDefined(Empty(r), body.position)
    ensures CalculateForces(Empty(r), body, sqrt) == Zero
  {
    if !r.Contains(body.position) {
      NoMassNoPull(body.position, body.mass, Zero, sqrt);
    }
  }

  /**
   * A tree holding one body pulls a body outside it exactly as that body does
   * in the pairwise sum of `update(bodies, dt)`, and a body inside it not at all.
   */
  lemma LoneBodyForce(r: Rect, a: BodyState, body: BodyState, depth: nat, how: Reinsert, sqrt: real -> real)
    requires IsSqrt(sqrt) && 0.0 < a.mass && r.Contains(a.position) && body.position != a.position
    ensures
      var t := Insert(Empty(r), a, depth, how).tree;
      && ForceDefined(t, body.position)
      && CalculateForces(t, body, sqrt) ==
           if r.Contains(body.position) then Zero
           else Attraction(body.position, body.mass, a.position, a.mass, sqrt)
  {
    InsertIntoEmpty(r, a, depth, how);
  }

  /**
   * When the node's aggregate sums what it stores (as the corrected insertion
   * keeps it, `TreeMass.InsertKeepsAggregated`), a body outside the node is
   * pulled as by one body carrying the total stored mass at the stored bodies'
   * centre of mass.
   */
  lemma PseudoBody(t: Tree, body: BodyState, sqrt: real -> real)
    requires IsSqrt(sqrt) && NodeAggregated(t) && t.totalMass != 0.0
    requires !t.boundary.Contains(body.position) && ForceDefined(t, body.position)
    ensures BagMass(Stored(t)) != 0.0
    ensures CalculateForces(t, body, sqrt) ==
      Attraction(body.position, body.mass, Div(BagMoment(Stored(t)), BagMass(Stored(t))), BagMass(Stored(t)), sqrt)
  {
    var c := t.centerOfMass;
    var m := t.totalMass;
    UnscaleCentre(c, m);
    var q := Div(BagMoment(Stored(t)), BagMass(Stored(t)));
    assert q == c;
    SameAttraction(body.position, body.mass, c, m, q, BagMass(Stored(t)), sqrt);
  }

  lemma UnscaleCentre(c: Vec, m: real)
    requires m != 0.0
    ensures Div(Scale(c, m), m) == c
  {
    assert (c.x * m) / m == c.x && (c.y * m) / m == c.y;
  }

  lemma SameAttraction(p: Vec, m: real, q: Vec, M: real, q': Vec, M': real, sqrt: real -> real)
    requires IsSqrt(sqrt) && p != q && q == q' && M == M'
    ensures Attraction(p, m, q, M, sqrt) == Attraction(p, m, q', M', sqrt)
  {
  }
}
