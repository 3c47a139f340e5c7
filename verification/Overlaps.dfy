/**
 * How much two boxes overlap: exactly the share the formula promises, all of it for a box and
 * itself -- if its corners go round counter-clockwise -- and the share left by a shift.
 */
module Overlaps {
  import opened Wrappers
  import opened Clipping
  import opened ConvexArea
  import opened LineClipping
  import opened Containment
  import opened Ordering
  import Enclosing
  import Suppression

  /** A subject on the inner side of all clip edges keeps its whole area. */
  lemma InnerAreaIsKept(a: seq<Point>, b: seq<Point>)
    requires a != [] && a[0] == Last(a) && b != []
    requires forall i: nat, p :: i + 1 < |b| && p in Open(a) ==> Side(b[i], b[i + 1], p) >= 0.0
    ensures IntersectionArea(a, b) == Shoelace(a)
  {
    InnerSubjectIsKept(Open(a), b, |b| - 1);
    if |a| > 3 { assert a == Open(a) + [Open(a)[0]]; }
  }

  lemma ShareOf(inter: real, union: real)
    requires union != 0.0
    ensures inter / union * union == inter
  {
  }

  lemma ShareIs(a: seq<Point>, b: seq<Point>, inter: real)
    requires Shoelace(BoxPolygon(a)) >= EPSILON && Shoelace(BoxPolygon(b)) >= EPSILON
    requires inter == IntersectionArea(BoxPolygon(a), BoxPolygon(b)) <= Shoelace(BoxPolygon(b))
    ensures RotatedIou(a, b) * (Shoelace(BoxPolygon(a)) + Shoelace(BoxPolygon(b)) - inter) == inter
  {
    hide Shoelace;
    hide IntersectionArea;
    ShareOf(inter, Shoelace(BoxPolygon(a)) + Shoelace(BoxPolygon(b)) - inter);
  }

  /** The overlap of two convex boxes with areas: the intersection's share of what they cover together. */
  lemma OverlapExactly(ccwA: bool, ccwB: bool, a: seq<Point>, b: seq<Point>)
    requires Convex(ccwA, Open(BoxPolygon(a))) && Convex(ccwB, Open(BoxPolygon(b)))
    ensures var p, q := BoxPolygon(a), BoxPolygon(b);
            var inter := IntersectionArea(p, q);
            if Shoelace(p) >= EPSILON && Shoelace(q) >= EPSILON
            then RotatedIou(a, b) * (Shoelace(p) + Shoelace(q) - inter) == inter
            else RotatedIou(a, b) == 0.0
  {
    var p, q := BoxPolygon(a), BoxPolygon(b);
    if Shoelace(p) >= EPSILON && Shoelace(q) >= EPSILON {
      BoxIsClosed(a);
      BoxIsClosed(b);
      IntersectionWithin(ccwA, p, q);
      IntersectionWithinClip(ccwA, ccwB, p, q);
      hide *;
      ShareIs(a, b, IntersectionArea(p, q));
    }
  }

  // ------------------------------------------------------------ the way round counts

  lemma PointHasNoRing(b: seq<Point>)
    requires |b| == 1
    ensures Ring(Open(b)) == 0.0
  {
  }

  lemma NothingLeftClockwise(a: seq<Point>, b: seq<Point>)
    requires b != [] && b[0] == Last(b) && Ring(Open(b)) < 0.0
    ensures IntersectionArea(a, b) == 0.0
  {
    var c := Clipped(a, b);
    if |b| == 1 { PointHasNoRing(b); }
    if c != [] {
      ClippedIsInside(Open(a), b, c[0]);
      assert Open(b) != [];
      NothingInsideClockwise(Open(b), c[0]);
    }
  }

  /** Whatever the kept box: with the other's corners clockwise nothing is left, and the overlap is 0. */
  lemma ClockwiseNeverOverlaps(a: seq<Point>, b: seq<Point>)
    requires Ring(Open(BoxPolygon(b))) < 0.0
    ensures RotatedIou(a, b) == 0.0
  {
    var p, q := BoxPolygon(a), BoxPolygon(b);
    BoxIsClosed(b);
    NothingLeftClockwise(p, q);
    var union := Shoelace(p) + Shoelace(q) - IntersectionArea(p, q);
    if union != 0.0 { ZeroShare(union); }
  }

  lemma ZeroShare(union: real)
    requires union != 0.0
    ensures 0.0 / union == 0.0
  {
  }

  /** So no detection with such a box is ever suppressed by another one. */
  lemma ClockwiseIsNeverSuppressed<D>(boxes: Suppression.Boxes<D>, corners: D -> seq<Point>, kept: D, other: D)
    requires boxes.iou(kept, other) == RotatedIou(corners(kept), corners(other))
    requires Ring(Open(BoxPolygon(corners(other)))) < 0.0
    ensures !Suppression.Overlaps(boxes, kept, other)
  {
    ClockwiseNeverOverlaps(corners(kept), corners(other));
  }

  lemma VertexInside(ring: seq<Point>, i: nat, k: nat)
    requires Convex(true, ring) && i < |ring| && k < |ring|
    ensures Side(ring[i], Following(ring, i), ring[k]) >= 0.0
  {
    if i + 1 < |ring| {
      WithinModulus(i + 1, |ring|);
      if k <= i {
        TurnsInOrder(true, ring, k, i, i + 1);
        TurnsAround(true, ring[k], ring[i], ring[i + 1]);
      } else {
        TurnsInOrder(true, ring, i, i + 1, k);
      }
    } else {
      TurnsInOrder(true, ring, 0, k, i);
      TurnsAround(true, ring[i], ring[0], ring[k]);
    }
  }

  lemma SelfIsInside(ring: seq<Point>)
    requires Convex(true, ring) && ring != []
    ensures var b := ring + [ring[0]];
            forall i: nat, p :: i + 1 < |b| && p in ring ==> Side(b[i], b[i + 1], p) >= 0.0
  {
    var b := ring + [ring[0]];
    forall i: nat, p | i + 1 < |b| && p in ring ensures Side(b[i], b[i + 1], p) >= 0.0 {
      var k :| 0 <= k < |ring| && ring[k] == p;
      ClosedFollows(ring, i);
      VertexInside(ring, i, k);
    }
  }

  lemma SelfIntersection(p: seq<Point>)
    requires |p| > 3 && p[0] == Last(p) && Convex(true, Open(p))
    ensures IntersectionArea(p, p) == Shoelace(p)
  {
    SelfIsInside(Open(p));
    assert p == Open(p) + [Open(p)[0]];
    InnerAreaIsKept(p, p);
  }

  /** A convex box with an area overlaps itself by 1, if its corners go round counter-clockwise, and else by 0. */
  lemma SelfOverlapExactly(ccw: bool, a: seq<Point>)
    requires Convex(ccw, Open(BoxPolygon(a))) && Shoelace(BoxPolygon(a)) >= EPSILON
    ensures RotatedIou(a, a) == if Ring(Open(BoxPolygon(a))) > 0.0 then 1.0 else 0.0
  {
    var p := BoxPolygon(a);
    BoxIsClosed(a);
    EnclosesSome(p);
    if Ring(Open(p)) > 0.0 {
      SenseOf(ccw, Open(p));
      SelfIntersection(p);
      WholeShare(Shoelace(p));
    } else {
      ClockwiseNeverOverlaps(a, a);
    }
  }

  lemma WholeShare(area: real)
    requires area > 0.0
    ensures area / (area + area - area) == 1.0
  {
  }

  /**
   * Two detections of one vessel with the same convex box: deduplication keeps one of them exactly if
   * the corners go round counter-clockwise, and otherwise both.
   */
  lemma CopiesDeduplicatedExactly<D>(boxes: Suppression.Boxes<D>, corners: D -> seq<Point>, ccw: bool, x: D, y: D)
    requires boxes.iou(x, y) == RotatedIou(corners(x), corners(y)) && corners(x) == corners(y)
    requires boxes.hasBox(x) && boxes.hasBox(y) && boxes.confidence(x) >= boxes.confidence(y)
    requires Convex(ccw, Open(BoxPolygon(corners(x)))) && Shoelace(BoxPolygon(corners(x))) >= EPSILON
    ensures Suppression.KeptList(boxes, StableSort(Suppression.MoreConfident(boxes), [x, y])) ==
            if Ring(Open(BoxPolygon(corners(x)))) > 0.0 then [x] else [x, y]
  {
    SelfOverlapExactly(ccw, corners(x));
    hide RotatedIou;
    Suppression.KeptOfTwo(boxes, x, y);
  }

  // -------------------------------------------------------------- shifted copies

  /** An axis-parallel box, counter-clockwise from its lower left corner. */
  function Box(o: Point, w: real, h: real): seq<Point> {
    [o, Point(o.x + w, o.y), Point(o.x + w, o.y + h), Point(o.x, o.y + h)]
  }

  lemma FourRing(l: Point, r: Point, x: Point, z: Point)
    ensures Ring([l, r, x, z]) == Side(l, r, x) + Side(l, x, z)
  {
    hide Side;
    NoTurn(true, l, r);
    NoTurn(true, l, z);
    RingIsFan(l, [l, r, x, z]);
    var closed := [l, r, x, z] + [l];
    assert Fan(l, closed[3..]) == Side(l, z, l) + Fan(l, closed[4..]);
    assert Fan(l, closed[2..]) == Side(l, x, z) + Fan(l, closed[3..]);
    assert Fan(l, closed[1..]) == Side(l, r, x) + Fan(l, closed[2..]);
    assert Fan(l, closed) == Side(l, l, r) + Fan(l, closed[1..]);
  }

  lemma SpanProduct(w: real, h: real)
    requires w > 0.0 && h > 0.0
    ensures w * h > 0.0
  {
    Positive(w, h);
  }

  lemma BoxSides(o: Point, w: real, h: real)
    requires w > 0.0 && h > 0.0
    ensures var p := Box(o, w, h);
            && Side(p[0], p[1], p[2]) == w * h && Side(p[0], p[2], p[3]) == w * h
            && Side(p[0], p[1], p[3]) == w * h && Side(p[1], p[2], p[3]) == w * h
  {
    assert (o.x + w - o.x) * (o.y + h - o.y) == w * h;
  }

  /** Its area is its width times its height, and it goes round counter-clockwise. */
  lemma BoxArea(o: Point, w: real, h: real)
    requires w > 0.0 && h > 0.0
    ensures var p := BoxPolygon(Box(o, w, h));
            && p == Enclosing.Closed(Box(o, w, h)) && Open(p) == Box(o, w, h)
            && Convex(true, Open(p)) && Ring(Open(p)) == 2.0 * (w * h) && Shoelace(p) == w * h
  {
    var b := Box(o, w, h);
    BoxSides(o, w, h);
    SpanProduct(w, h);
    hide Side;
    FourRing(b[0], b[1], b[2], b[3]);
    assert b == [b[0], b[1], b[2], b[3]];
    assert BoxPolygon(b) == b + [b[0]];
    ClosedArea(b);
  }

  lemma PassKeeps(s: Point, e: Point, p: seq<Point>)
    requires forall q <- p :: Side(s, e, q) >= 0.0
    ensures ClipEdge(s, e, p) == p
  {
    AllKept(s, e, p, |p|, (cur, next) => Emit(s, e, cur, next));
  }

  lemma AroundFour<T>(p: seq<T>, f: (T, T) -> seq<T>)
    requires |p| == 4
    ensures Around(p, 4, f) == f(p[0], p[1]) + f(p[1], p[2]) + f(p[2], p[3]) + f(p[3], p[0])
  {
    assert Around(p, 0, f) == [];
    assert Around(p, 1, f) == f(p[0], p[1]);
    assert Around(p, 2, f) == f(p[0], p[1]) + f(p[1], p[2]);
    assert Around(p, 3, f) == f(p[0], p[1]) + f(p[1], p[2]) + f(p[2], p[3]);
  }

  /** Only the first and the last of four vertices are outside; both edges that leave are crossed. */
  lemma OuterPairCut(s: Point, e: Point, p: seq<Point>, x: Point, y: Point)
    requires |p| == 4 && Side(s, e, p[0]) < 0.0 && Side(s, e, p[3]) < 0.0
    requires Side(s, e, p[1]) >= 0.0 && Side(s, e, p[2]) >= 0.0
    requires LineIntersection(p[0], p[1], s, e) == Some(x) && LineIntersection(p[2], p[3], s, e) == Some(y)
    ensures ClipEdge(s, e, p) == [x, p[1], p[2], y]
  {
    hide Side;
    hide LineIntersection;
    AroundFour(p, (cur, next) => Emit(s, e, cur, next));
    assert Emit(s, e, p[0], p[1]) == [x] && Emit(s, e, p[1], p[2]) == [p[1]];
    assert Emit(s, e, p[2], p[3]) == [p[2], y] && Emit(s, e, p[3], p[0]) == [];
  }

  /** A copy of the box `s` to the right has the first one on the inner side of its first three edges. */
  lemma InsideThree(o: Point, w: real, h: real, s: real, q: Point)
    requires w > 0.0 && h > 0.0 && s >= 0.0 && q in Box(o, w, h)
    ensures var c := Box(Point(o.x + s, o.y), w, h);
            && Side(c[0], c[1], q) >= 0.0 && Side(c[1], c[2], q) >= 0.0 && Side(c[2], c[3], q) >= 0.0
            && Side(c[3], c[0], q) == h * (q.x - (o.x + s))
  {
    NonNegative(w, q.y - o.y);
    NonNegative(h, o.x + s + w - q.x);
    NonNegative(w, o.y + h - q.y);
  }

  lemma ShareOfWidth(w: real, s: real)
    requires 0.0 < s < w
    ensures var t := s / w; 0.0 <= t <= 1.0 && t * w == s
  {
    UnitFactor(s / w, w, s);
  }

  /** Its left edge is found to cross the lower and the upper edge of the first one. */
  lemma LeftEdgeCrosses(o: Point, w: real, h: real, s: real)
    requires 0.0 < s < w && h > 0.0 && w * h >= EPSILON
    ensures var p, c := Box(o, w, h), Box(Point(o.x + s, o.y), w, h);
            && LineIntersection(p[0], p[1], c[3], c[0]) == Some(Point(o.x + s, o.y))
            && LineIntersection(p[2], p[3], c[3], c[0]) == Some(Point(o.x + s, o.y + h))
  {
    var p, c, t := Box(o, w, h), Box(Point(o.x + s, o.y), w, h), s / w;
    ShareOfWidth(w, s);
    CrossesLower(o, w, h, s, t);
    CrossesUpper(o, w, h, s, 1.0 - t);
  }

  lemma CrossesLower(o: Point, w: real, h: real, s: real, t: real)
    requires 0.0 <= t <= 1.0 && t * w == s && w * h >= EPSILON
    ensures LineIntersection(o, Point(o.x + w, o.y), Point(o.x + s, o.y + h), Point(o.x + s, o.y))
         == Some(Point(o.x + s, o.y))
  {
    var b, u, v := Point(o.x + w, o.y), Point(o.x + s, o.y + h), Point(o.x + s, o.y);
    assert t * (o.x + w - o.x) == s;
    assert Along(o, b, t) == v && Along(u, v, 1.0) == v;
    assert Minus(b, o) == Point(w, 0.0) && Minus(v, u) == Point(0.0, -h);
    assert Cross(Point(w, 0.0), Point(0.0, -h)) == -(w * h);
    hide LineIntersection;
    hide Along;
    hide Cross;
    Enclosing.FoundAt(o, b, u, v, t, 1.0);
  }

  lemma CrossesUpper(o: Point, w: real, h: real, s: real, t: real)
    requires 0.0 <= t <= 1.0 && t * w == w - s && w * h >= EPSILON
    ensures LineIntersection(Point(o.x + w, o.y + h), Point(o.x, o.y + h), Point(o.x + s, o.y + h), Point(o.x + s, o.y))
         == Some(Point(o.x + s, o.y + h))
  {
    var a, b, u, v := Point(o.x + w, o.y + h), Point(o.x, o.y + h), Point(o.x + s, o.y + h), Point(o.x + s, o.y);
    assert t * (o.x - (o.x + w)) == -(t * w) == s - w;
    assert Along(a, b, t) == u && Along(u, v, 0.0) == u;
    assert Minus(b, a) == Point(-w, 0.0) && Minus(v, u) == Point(0.0, -h);
    assert Cross(Point(-w, 0.0), Point(0.0, -h)) == w * h;
    hide LineIntersection;
    hide Along;
    hide Cross;
    Enclosing.FoundAt(a, b, u, v, t, 0.0);
  }

  lemma CutByLastEdge(p: seq<Point>, c: seq<Point>, lo: Point, hi: Point)
    requires |p| == 4 && |c| == 4
    requires forall q <- p :: Side(c[0], c[1], q) >= 0.0 && Side(c[1], c[2], q) >= 0.0 && Side(c[2], c[3], q) >= 0.0
    requires Side(c[3], c[0], p[0]) < 0.0 && Side(c[3], c[0], p[3]) < 0.0
    requires Side(c[3], c[0], p[1]) >= 0.0 && Side(c[3], c[0], p[2]) >= 0.0
    requires LineIntersection(p[0], p[1], c[3], c[0]) == Some(lo)
    requires LineIntersection(p[2], p[3], c[3], c[0]) == Some(hi)
    ensures ClipAll(p, Enclosing.Closed(c), 4) == [lo, p[1], p[2], hi]
  {
    hide Side;
    hide LineIntersection;
    hide ClipEdge;
    PassKeeps(c[0], c[1], p);
    PassKeeps(c[1], c[2], p);
    PassKeeps(c[2], c[3], p);
    OuterPairCut(c[3], c[0], p, lo, hi);
    Enclosing.FourPasses(p, Enclosing.Closed(c), p, p, p, [lo, p[1], p[2], hi]);
  }

  lemma ShiftedSides(o: Point, w: real, h: real, s: real)
    requires 0.0 < s < w && h > 0.0
    ensures var p, c := Box(o, w, h), Box(Point(o.x + s, o.y), w, h);
            && Side(c[3], c[0], p[0]) < 0.0 && Side(c[3], c[0], p[3]) < 0.0
            && Side(c[3], c[0], p[1]) >= 0.0 && Side(c[3], c[0], p[2]) >= 0.0
  {
    var p := Box(o, w, h);
    hide Side;
    InsideThree(o, w, h, s, p[0]);
    InsideThree(o, w, h, s, p[1]);
    InsideThree(o, w, h, s, p[2]);
    InsideThree(o, w, h, s, p[3]);
    OuterSides(o, w, h, s);
  }

  /** What is left of a box clipped by its shifted copy is the box they share. */
  lemma ShiftedClip(o: Point, w: real, h: real, s: real)
    requires 0.0 < s < w && h > 0.0 && w * h >= EPSILON
    ensures ClipAll(Box(o, w, h), Enclosing.Closed(Box(Point(o.x + s, o.y), w, h)), 4)
         == [Point(o.x + s, o.y), Point(o.x + w, o.y), Point(o.x + w, o.y + h), Point(o.x + s, o.y + h)]
  {
    var p, c := Box(o, w, h), Box(Point(o.x + s, o.y), w, h);
    hide Side;
    hide LineIntersection;
    forall q <- p
      ensures Side(c[0], c[1], q) >= 0.0 && Side(c[1], c[2], q) >= 0.0 && Side(c[2], c[3], q) >= 0.0
    {
      InsideThree(o, w, h, s, q);
    }
    ShiftedSides(o, w, h, s);
    LeftEdgeCrosses(o, w, h, s);
    CutByLastEdge(p, c, Point(o.x + s, o.y), Point(o.x + s, o.y + h));
  }

  lemma SharedBox(o: Point, w: real, h: real, s: real)
    ensures Box(Point(o.x + s, o.y), w - s, h)
         == [Point(o.x + s, o.y), Point(o.x + w, o.y), Point(o.x + w, o.y + h), Point(o.x + s, o.y + h)]
  {
  }

  lemma AreaLeft(a: seq<Point>, b: seq<Point>, c: seq<Point>, area: real)
    requires Clipped(a, b) == c && |c| >= 3 && Shoelace(c + [c[0]]) == area
    ensures IntersectionArea(a, b) == area
  {
    hide Shoelace;
    hide Clipped;
  }

  lemma ClippedBoxes(p: seq<Point>, c: seq<Point>)
    requires |p| == 4 && |c| == 4
    ensures Clipped(Enclosing.Closed(p), Enclosing.Closed(c)) == ClipAll(p, Enclosing.Closed(c), 4)
  {
    assert Open(Enclosing.Closed(p)) == p;
    hide ClipAll;
  }

  lemma AreaOfShared(a: seq<Point>, b: seq<Point>, shared: seq<Point>, area: real)
    requires |a| == 4 && |b| == 4 && |shared| == 4
    requires ClipAll(a, Enclosing.Closed(b), 4) == shared && Shoelace(Enclosing.Closed(shared)) == area
    ensures IntersectionArea(Enclosing.Closed(a), Enclosing.Closed(b)) == area
  {
    hide *;
    ClippedBoxes(a, b);
    ClosedBox(shared);
    AreaLeft(Enclosing.Closed(a), Enclosing.Closed(b), shared, area);
  }

  lemma SharedArea(o: Point, w: real, h: real, s: real)
    requires 0.0 < s < w && h > 0.0 && w * h >= EPSILON
    ensures IntersectionArea(BoxPolygon(Box(o, w, h)), BoxPolygon(Box(Point(o.x + s, o.y), w, h))) == (w - s) * h
  {
    hide *;
    var o2 := Point(o.x + s, o.y);
    var a, b, shared := Box(o, w, h), Box(o2, w, h), Box(o2, w - s, h);
    BoxArea(o, w, h);
    BoxArea(o2, w, h);
    BoxArea(o2, w - s, h);
    ShiftedClip(o, w, h, s);
    SharedBox(o, w, h, s);
    FourCorners(o, w, h);
    FourCorners(o2, w, h);
    FourCorners(o2, w - s, h);
    AreaOfShared(a, b, shared, (w - s) * h);
  }

  lemma FourCorners(o: Point, w: real, h: real)
    ensures |Box(o, w, h)| == 4
  {
  }

  lemma ClosedBox(p: seq<Point>)
    requires p != []
    ensures Enclosing.Closed(p) == p + [p[0]]
  {
  }

  lemma OuterSides(o: Point, w: real, h: real, s: real)
    requires 0.0 < s < w && h > 0.0
    ensures h * (o.x - (o.x + s)) < 0.0 && h * (o.x + w - (o.x + s)) >= 0.0
  {
    Positive(h, s);
    Positive(h, w - s);
    assert h * (o.x - (o.x + s)) == -(h * s);
    assert h * (o.x + w - (o.x + s)) == h * (w - s);
  }

  lemma ShareOfShift(w: real, h: real, s: real)
    requires 0.0 <= s < w && h > 0.0
    ensures var inter := (w - s) * h;
            w * h + w * h - inter > 0.0 && inter / (w * h + w * h - inter) == (w - s) / (w + s)
  {
    var inter, union := (w - s) * h, w * h + w * h - (w - s) * h;
    assert union == (w + s) * h;
    Positive(w + s, h);
    var r := (w - s) / (w + s);
    assert r * (w + s) == w - s;
    assert r * union == (r * (w + s)) * h == inter;
    Solves(r, union, inter);
  }

  /** A box and its copy shifted by `s` along its side overlap by what they share over what they cover. */
  lemma ShiftedOverlap(o: Point, w: real, h: real, s: real)
    requires 0.0 <= s < w && h > 0.0 && w * h >= EPSILON
    ensures RotatedIou(Box(o, w, h), Box(Point(o.x + s, o.y), w, h)) == (w - s) / (w + s)
  {
    var a, b := Box(o, w, h), Box(Point(o.x + s, o.y), w, h);
    BoxArea(o, w, h);
    BoxArea(Point(o.x + s, o.y), w, h);
    hide *;
    if s == 0.0 {
      SpanProduct(w, h);
      SameBox(o, w, h, s);
      SelfOverlapExactly(true, a);
      WholeQuotient(w, s);
    } else {
      SharedArea(o, w, h, s);
      SmallerShare(w, h, s);
      IouOf(a, b, w * h, (w - s) * h);
      ShareOfShift(w, h, s);
    }
  }

  lemma SameBox(o: Point, w: real, h: real, s: real)
    requires s == 0.0
    ensures Box(Point(o.x + s, o.y), w, h) == Box(o, w, h)
  {
  }

  lemma WholeQuotient(w: real, s: real)
    requires w > 0.0 && s == 0.0
    ensures (w - s) / (w + s) == 1.0
  {
  }

  lemma SmallerShare(w: real, h: real, s: real)
    requires s >= 0.0 && h > 0.0
    ensures (w - s) * h <= w * h
  {
    NonNegative(s, h);
    assert (w - s) * h == w * h - s * h;
  }

  lemma IouOf(a: seq<Point>, b: seq<Point>, area: real, inter: real)
    requires Shoelace(BoxPolygon(a)) == Shoelace(BoxPolygon(b)) == area && area >= EPSILON && inter <= area
    requires inter == IntersectionArea(BoxPolygon(a), BoxPolygon(b))
    ensures RotatedIou(a, b) == inter / (area + area - inter)
  {
    hide Shoelace;
    hide IntersectionArea;
  }

  /** Deduplication takes a copy shifted along its side for the same vessel exactly up to a third of that side. */
  lemma ShiftedCopySuppressedExactly<D>(boxes: Suppression.Boxes<D>, corners: D -> seq<Point>, x: D, y: D,
                                        o: Point, w: real, h: real, s: real)
    requires boxes.iou(x, y) == RotatedIou(corners(x), corners(y))
    requires boxes.hasBox(x) && boxes.hasBox(y) && boxes.confidence(x) >= boxes.confidence(y)
    requires 0.0 <= s < w && h > 0.0 && w * h >= 0.000000000001
    requires corners(x) == Box(o, w, h) && corners(y) == Box(Point(o.x + s, o.y), w, h)
    ensures Suppression.KeptList(boxes, StableSort(Suppression.MoreConfident(boxes), [x, y])) ==
            if 3.0 * s <= w then [x] else [x, y]
  {
    hide RotatedIou;
    ShiftedOverlap(o, w, h, s);
    HalfExactly(w, s);
    Suppression.KeptOfTwo(boxes, x, y);
  }

  lemma HalfExactly(w: real, s: real)
    requires 0.0 <= s < w
    ensures (w - s) / (w + s) >= 0.5 <==> 3.0 * s <= w
  {
    var r := (w - s) / (w + s);
    assert r * (w + s) == w - s;
    assert (r - 0.5) * (w + s) == r * (w + s) - 0.5 * w - 0.5 * s;
    if r >= 0.5 { NonNegative(r - 0.5, w + s); } else { Positive(0.5 - r, w + s); }
  }
}
