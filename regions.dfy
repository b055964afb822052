/**
 * `Rect` of quadTree.h and its two tests from quadTree.cpp, with the four
 * quadrants `QuadTree::subdivide` cuts a boundary into.
 *
 * A `Rect` is centre-based: (x, y) is its centre and width, height its full
 * extents. `Contains` and the quadrants use it that way; `Intersects`, as
 * written, compares (x, y) as if it were a corner (see `IntersectsMissesOverlap`).
 */
module Regions {
  import opened Vectors

  /** `Rect{x, y, width, height}`, quadTree.h:6-15; the constructor stores its four arguments. */
  datatype Rect = Rect(x: real, y: real, width: real, height: real)
  {
    /** `Rect::contains(body)`, quadTree.cpp:5-10, applied to the body's position: a closed box. */
    predicate Contains(p: Vec) {
      p.x >= x - width / 2.0 && p.x <= x + width / 2.0 &&
      p.y >= y - height / 2.0 && p.y <= y + height / 2.0
    }

    /** `Rect::intersects(range)`, quadTree.cpp:12-16, as written: corner-style comparisons. */
    predicate Intersects(range: Rect) {
      !(range.x > x + width || range.x + range.width < x ||
        range.y > y + height || range.y + range.height < y)
    }

    /** The closed box `Intersects` compares against: (x, y) taken as its top-left corner. */
    predicate AnchoredContains(p: Vec) {
      x <= p.x <= x + width && y <= p.y <= y + height
    }

    /** The overlap test for two centre-based boxes that `Intersects` stands for. */
    predicate Overlaps(range: Rect) {
      range.x - range.width / 2.0 <= x + width / 2.0 && x - width / 2.0 <= range.x + range.width / 2.0 &&
      range.y - range.height / 2.0 <= y + height / 2.0 && y - height / 2.0 <= range.y + range.height / 2.0
    }

    /** The four children of `QuadTree::subdivide`, quadTree.cpp:18-31: half the size, centres offset by a quarter. */
    function TopLeft(): Rect {
      Rect(x - (width / 2.0) / 2.0, y - (height / 2.0) / 2.0, width / 2.0, height / 2.0)
    }

    function TopRight(): Rect {
      Rect(x + (width / 2.0) / 2.0, y - (height / 2.0) / 2.0, width / 2.0, height / 2.0)
    }

    function BottomLeft(): Rect {
      Rect(x - (width / 2.0) / 2.0, y + (height / 2.0) / 2.0, width / 2.0, height / 2.0)
    }

    function BottomRight(): Rect {
      Rect(x + (width / 2.0) / 2.0, y + (height / 2.0) / 2.0, width / 2.0, height / 2.0)
    }
  }

  /**
   * The quadrants tile their parent: a point is in the parent exactly when it
   * is in one of the four children (edges shared between children belong to both).
   */
  lemma QuadrantsCover(r: Rect, p: Vec)
    ensures r.Contains(p) <==>
      r.TopLeft().Contains(p) || r.TopRight().Contains(p) ||
      r.BottomLeft().Contains(p) || r.BottomRight().Contains(p)
  {
    if r.Contains(p) {
      if p.x <= r.x && p.y <= r.y {
        assert r.TopLeft().Contains(p);
      } else if p.y <= r.y {
        assert r.TopRight().Contains(p);
      } else if p.x <= r.x {
        assert r.BottomLeft().Contains(p);
      } else {
        assert r.BottomRight().Contains(p);
      }
    }
  }

  /** The boxes are closed: every corner of a box of non-negative size is in it. */
  lemma CornersContained(r: Rect)
    requires 0.0 <= r.width && 0.0 <= r.height
    ensures r.Contains(Vec(r.x - r.width / 2.0, r.y - r.height / 2.0))
    ensures r.Contains(Vec(r.x + r.width / 2.0, r.y - r.height / 2.0))
    ensures r.Contains(Vec(r.x - r.width / 2.0, r.y + r.height / 2.0))
    ensures r.Contains(Vec(r.x + r.width / 2.0, r.y + r.height / 2.0))
  {
  }

  /** A point on the vertical centre line of an upper half lies in both top quadrants. */
  lemma SharedEdgeInBothQuadrants(r: Rect, p: Vec)
    requires r.Contains(p) && p.x == r.x && p.y <= r.y
    ensures r.TopLeft().Contains(p) && r.TopRight().Contains(p)
  {
  }

  /** `Overlaps` holds exactly when the two boxes have a point in common. */
  lemma OverlapsIsCommonPoint(r: Rect, range: Rect)
    requires 0.0 <= r.width && 0.0 <= r.height && 0.0 <= range.width && 0.0 <= range.height
    ensures r.Overlaps(range) <==> exists p :: r.Contains(p) && range.Contains(p)
  {
    if r.Overlaps(range) {
      var px := if r.x - r.width / 2.0 <= range.x - range.width / 2.0 then range.x - range.width / 2.0 else r.x - r.width / 2.0;
      var py := if r.y - r.height / 2.0 <= range.y - range.height / 2.0 then range.y - range.height / 2.0 else r.y - r.height / 2.0;
      assert r.Contains(Vec(px, py)) && range.Contains(Vec(px, py));
    }
  }

  /**
   * What `Intersects` as written does decide: whether the two boxes anchored at
   * their (x, y) corners share a point.
   */
  lemma IntersectsIsAnchoredCommonPoint(r: Rect, range: Rect)
    requires 0.0 <= r.width && 0.0 <= r.height && 0.0 <= range.width && 0.0 <= range.height
    ensures r.Intersects(range) <==> exists p :: r.AnchoredContains(p) && range.AnchoredContains(p)
  {
    if r.Intersects(range) {
      var px := if r.x <= range.x then range.x else r.x;
      var py := if r.y <= range.y then range.y else r.y;
      assert r.AnchoredContains(Vec(px, py)) && range.AnchoredContains(Vec(px, py));
    }
  }

  /**
   * `Intersects` as written can reject a range that shares points with the
   * node: the node centred at the origin with side 10 and the range centred at
   * (-6, 0) with side 4 both contain (-4.5, 0).
   */
  lemma IntersectsMissesOverlap()
    ensures
      var node := Rect(0.0, 0.0, 10.0, 10.0);
      var range := Rect(-6.0, 0.0, 4.0, 4.0);
      var p := Vec(-4.5, 0.0);
      node.Contains(p) && range.Contains(p) && node.Overlaps(range) && !node.Intersects(range)
  {
  }
}
