/**
 * Subjects that lie around the clip polygon. None of their edges meets a clip edge, so
 * clipping finds no crossing with them: how much of the intersection is then left.
 */
module Enclosing {
  import opened Wrappers
  import opened Clipping
  import opened ConvexArea
  import opened LineClipping

  // -------------------------------------------------------------- flat polygons

  ghost predicate OnLine(f: Affine, poly: seq<Point>) { forall p <- poly :: Value(f, p) == 0.0 }

  predicate IsLine(f: Affine) { f.a != 0.0 || f.b != 0.0 }

  lemma Proportional(a: real, b: real, ux: real, uy: real, vx: real, vy: real)
    requires (a != 0.0 || b != 0.0) && a * ux + b * uy == 0.0 && a * vx + b * vy == 0.0
    ensures ux * vy - uy * vx == 0.0
  {
    var c := ux * vy - uy * vx;
    assert a * c == vy * (a * ux) - uy * (a * vx);
    assert a * c == vy * -(b * uy) - uy * -(b * vy) == 0.0;
    assert b * c == ux * (b * vy) - vx * (b * uy);
    assert b * c == ux * -(a * vx) - vx * -(a * ux) == 0.0;
    if a != 0.0 { CancelFactor(a, c, 0.0); } else { CancelFactor(b, c, 0.0); }
  }

  lemma ThreeOnLine(f: Affine, x: Point, y: Point, z: Point)
    requires IsLine(f) && Value(f, x) == 0.0 && Value(f, y) == 0.0 && Value(f, z) == 0.0
    ensures Side(x, y, z) == 0.0
  {
    assert f.a * (y.x - x.x) + f.b * (y.y - x.y) == Value(f, y) - Value(f, x);
    assert f.a * (z.x - x.x) + f.b * (z.y - x.y) == Value(f, z) - Value(f, x);
    Proportional(f.a, f.b, y.x - x.x, y.y - x.y, z.x - x.x, z.y - x.y);
  }

  lemma {:induction false} FlatFan(f: Affine, o: Point, path: seq<Point>)
    requires IsLine(f) && Value(f, o) == 0.0 && OnLine(f, path)
    ensures Fan(o, path) == 0.0
  {
    if |path| > 1 {
      FlatFan(f, o, path[1..]);
      ThreeOnLine(f, o, path[0], path[1]);
    }
  }

  lemma FlatRingIsEmpty(f: Affine, ring: seq<Point>)
    requires IsLine(f) && OnLine(f, ring)
    ensures Ring(ring) == 0.0
  {
    if ring != [] {
      RingIsFan(ring[0], ring);
      FlatFan(f, ring[0], ring + [ring[0]]);
    }
  }

  function Negated(f: Affine): Affine { Affine(-f.a, -f.b, -f.c) }

  lemma FlatPass(s: Point, e: Point, poly: seq<Point>, f: Affine)
    requires OnLine(f, poly)
    ensures OnLine(f, ClipEdge(s, e, poly))
  {
    forall p <- poly ensures Value(Negated(f), p) == 0.0 { NegatedValue(f, p); }
    assert NonNegativeOn(f, poly) && NonNegativeOn(Negated(f), poly);
    forall p <- ClipEdge(s, e, poly) ensures Value(f, p) == 0.0 {
      hide Value;
      ClipEdgeContained(s, e, poly, f, p);
      ClipEdgeContained(s, e, poly, Negated(f), p);
      NegatedValue(f, p);
    }
  }

  lemma NegatedValue(f: Affine, p: Point)
    ensures Value(Negated(f), p) == -Value(f, p)
  {
  }

  /** What lies on a line stays on it in every later pass. */
  lemma {:induction false} FlatStays(poly: seq<Point>, clip: seq<Point>, k: nat, n: nat, f: Affine)
    requires k <= n && (n < |clip| || n == 0)
    requires OnLine(f, ClipAll(poly, clip, k))
    ensures OnLine(f, ClipAll(poly, clip, n))
    decreases n
  {
    if k < n {
      FlatStays(poly, clip, k, n - 1, f);
      FlatPass(clip[n - 1], clip[n], ClipAll(poly, clip, n - 1), f);
    }
  }

  lemma LineThrough(p: seq<Point>) returns (f: Affine)
    requires |p| <= 2
    ensures IsLine(f) && OnLine(f, p)
  {
    if |p| < 2 || p[0] == p[1] {
      f := Affine(1.0, 0.0, if p == [] then 0.0 else -p[0].x);
    } else {
      f := SideOf(p[0], p[1]);
      SideIsAffine(p[0], p[1], p[0]);
      SideIsAffine(p[0], p[1], p[1]);
      NoTurn(true, p[0], p[1]);
    }
  }

  function Closed(poly: seq<Point>): seq<Point>
    requires poly != []
  {
    poly + [poly[0]]
  }

  /** Once the vertices left lie on a line, nothing of the area is left. */
  lemma FlatLeftIsLost(poly: seq<Point>, clip: seq<Point>, k: nat, f: Affine)
    requires poly != [] && k < |clip| && IsLine(f) && OnLine(f, ClipAll(poly, clip, k))
    ensures IntersectionArea(Closed(poly), clip) == 0.0
  {
    FlatStays(poly, clip, k, |clip| - 1, f);
    assert Open(Closed(poly)) == poly;
    var c := Clipped(Closed(poly), clip);
    if |c| >= 3 {
      ClosedArea(c);
      FlatRingIsEmpty(f, c);
    }
  }

  /** So it is once no more than two are left. */
  lemma FewLeftAreLost(poly: seq<Point>, clip: seq<Point>, k: nat)
    requires poly != [] && k < |clip| && |ClipAll(poly, clip, k)| <= 2
    ensures IntersectionArea(Closed(poly), clip) == 0.0
  {
    var f := LineThrough(ClipAll(poly, clip, k));
    FlatLeftIsLost(poly, clip, k, f);
  }

  // ------------------------------------------------------------- the first pass

  /** The vertices on the inner side of a clip edge, in order. */
  function Inner(s: Point, e: Point, poly: seq<Point>): seq<Point> {
    Around(poly, |poly|, (cur, next) => InnerOnly(s, e, cur))
  }

  function InnerOnly(s: Point, e: Point, cur: Point): seq<Point> { if Side(s, e, cur) >= 0.0 then [cur] else [] }

  /** No edge of the polygon is found to cross the clip edge. */
  ghost predicate NoCrossing(s: Point, e: Point, poly: seq<Point>) {
    forall k: nat :: k < |poly| ==> LineIntersection(poly[k], Following(poly, k), s, e).None?
  }

  lemma MissedPassFilters(s: Point, e: Point, poly: seq<Point>)
    requires NoCrossing(s, e, poly)
    ensures ClipEdge(s, e, poly) == Inner(s, e, poly)
  {
    var f, g := (cur, next) => Emit(s, e, cur, next), (cur, next) => InnerOnly(s, e, cur);
    forall k: nat | k < |poly| ensures f(poly[k], Following(poly, k)) == g(poly[k], Following(poly, k)) {
      assert LineIntersection(poly[k], Following(poly, k), s, e).None?;
    }
    AroundAgrees(poly, |poly|, f, g);
  }

  /**
   * A subject whose edges miss the first clip edge, with at most two vertices on the inner
   * side of it, loses the whole intersection: any subject, any clip polygon.
   */
  lemma FewInnerAreLost(poly: seq<Point>, clip: seq<Point>)
    requires poly != [] && |clip| > 1 && NoCrossing(clip[0], clip[1], poly)
    requires |Inner(clip[0], clip[1], poly)| <= 2
    ensures IntersectionArea(Closed(poly), clip) == 0.0
  {
    MissedPassFilters(clip[0], clip[1], poly);
    assert ClipAll(poly, clip, 0) == poly;
    assert ClipAll(poly, clip, 1) == ClipEdge(clip[0], clip[1], poly);
    FewLeftAreLost(poly, clip, 1);
  }

  // ------------------------------------------------------------ enclosing subjects

  predicate TurnsIn(ccw: bool, p: Point, q: Point, c: Point) {
    if ccw then Side(p, q, c) > 0.0 else Side(p, q, c) < 0.0
  }

  /** Every clip vertex lies strictly on the inner side of every edge of the subject, which goes round either way. */
  ghost predicate Encloses(ccw: bool, poly: seq<Point>, clip: seq<Point>) {
    forall k: nat, c :: k < |poly| && c in clip ==> TurnsIn(ccw, poly[k], Following(poly, k), c)
  }

  lemma EnclosedEdgeIsMissed(ccw: bool, p: Point, q: Point, s: Point, e: Point)
    requires TurnsIn(ccw, p, q, s) && TurnsIn(ccw, p, q, e)
    ensures LineIntersection(p, q, s, e).None?
  {
    CrossingIsSharedPoint(p, q, s, e);
    if t, u :| MeetAt(p, q, s, e, t, u) {
      NoTurn(true, p, q);
      SideAlong(p, q, p, q, t);
      SideAlong(p, q, s, e, u);
      Between(u, Side(p, q, s), Side(p, q, e));
    }
  }

  lemma Between(u: real, x: real, y: real)
    requires 0.0 <= u <= 1.0
    ensures x > 0.0 && y > 0.0 ==> x - u * (x - y) > 0.0
    ensures x < 0.0 && y < 0.0 ==> x - u * (x - y) < 0.0
  {
    var v := 1.0 - u;
    assert x - u * (x - y) == v * x + u * y;
    if x > 0.0 && y > 0.0 { Blend(u, v, x, y); }
    if x < 0.0 && y < 0.0 { Blend(u, v, -x, -y); }
  }

  lemma Blend(u: real, v: real, x: real, y: real)
    requires u >= 0.0 && v >= 0.0 && u + v == 1.0 && x > 0.0 && y > 0.0
    ensures v * x + u * y > 0.0
  {
    if u > 0.0 { Positive(u, y); }
    if v > 0.0 { Positive(v, x); }
  }

  lemma EnclosingMisses(ccw: bool, poly: seq<Point>, clip: seq<Point>, i: nat)
    requires Encloses(ccw, poly, clip) && i + 1 < |clip|
    ensures NoCrossing(clip[i], clip[i + 1], poly)
  {
    forall k: nat | k < |poly| ensures LineIntersection(poly[k], Following(poly, k), clip[i], clip[i + 1]).None? {
      assert clip[i] in clip && clip[i + 1] in clip;
      EnclosedEdgeIsMissed(ccw, poly[k], Following(poly, k), clip[i], clip[i + 1]);
    }
  }

  // -------------------------------------------------------------------- triangles

  /** The value at `q` is the weighted mean of the values at the corners. */
  lemma Barycentric(f: Affine, a: Point, b: Point, c: Point, q: Point)
    ensures Side(b, c, q) * Value(f, a) + Side(c, a, q) * Value(f, b) + Side(a, b, q) * Value(f, c)
         == Side(a, b, c) * Value(f, q)
  {
  }

  lemma WeightedZero(x: real, y: real, z: real, a: real, b: real, c: real)
    requires x > 0.0 && y > 0.0 && z > 0.0 && a >= 0.0 && b >= 0.0 && c >= 0.0
    requires x * a + y * b + z * c == 0.0
    ensures a == 0.0 && b == 0.0 && c == 0.0
  {
    assert x * a >= 0.0 && y * b >= 0.0 && z * c >= 0.0;
    if a > 0.0 { Positive(x, a); }
    if b > 0.0 { Positive(y, b); }
    if c > 0.0 { Positive(z, c); }
  }

  lemma LineIsLine(s: Point, e: Point)
    requires s != e
    ensures IsLine(SideOf(s, e))
  {
  }

  /** A triangle around two different points has a corner strictly behind the line through them. */
  lemma TriangleReachesBehind(a: Point, b: Point, c: Point, s: Point, e: Point)
    requires s != e && Side(a, b, s) > 0.0 && Side(b, c, s) > 0.0 && Side(c, a, s) > 0.0
    ensures Side(s, e, a) < 0.0 || Side(s, e, b) < 0.0 || Side(s, e, c) < 0.0
  {
    var f := SideOf(s, e);
    hide Side;
    hide Value;
    hide SideOf;
    SideIsAffine(s, e, a);
    SideIsAffine(s, e, b);
    SideIsAffine(s, e, c);
    SideIsAffine(s, e, s);
    NoTurn(true, s, e);
    Barycentric(f, a, b, c, s);
    if Value(f, a) >= 0.0 && Value(f, b) >= 0.0 && Value(f, c) >= 0.0 {
      WeightedZero(Side(b, c, s), Side(c, a, s), Side(a, b, s), Value(f, a), Value(f, b), Value(f, c));
      LineIsLine(s, e);
      ThreeOnLine(f, a, b, s);
    }
  }

  lemma SideFlips(p: Point, q: Point, c: Point)
    ensures Side(q, p, c) == -Side(p, q, c)
  {
  }

  /** At most the first `n` vertices, and fewer for each one known to be behind. */
  lemma {:induction false} InnerIsFewer(s: Point, e: Point, poly: seq<Point>, n: nat, behind: set<nat>,
                                        g: (Point, Point) -> seq<Point>)
    requires n <= |poly| && forall x, y :: g(x, y) == InnerOnly(s, e, x)
    requires forall k <- behind :: k < n && Side(s, e, poly[k]) < 0.0
    ensures |Around(poly, n, g)| <= n - |behind|
    decreases n
  {
    if n == 0 {
      assert behind == {};
    } else {
      InnerIsFewer(s, e, poly, n - 1, behind - {n - 1}, g);
      if n - 1 !in behind { assert behind - {n - 1} == behind; }
    }
  }

  lemma SomeInnerAreFew(s: Point, e: Point, poly: seq<Point>, behind: set<nat>)
    requires forall k <- behind :: k < |poly| && Side(s, e, poly[k]) < 0.0
    ensures |Inner(s, e, poly)| <= |poly| - |behind|
  {
    InnerIsFewer(s, e, poly, |poly|, behind, (cur, next) => InnerOnly(s, e, cur));
  }

  lemma BehindAreLost(poly: seq<Point>, clip: seq<Point>, behind: set<nat>)
    requires |clip| > 1 && poly != [] && NoCrossing(clip[0], clip[1], poly) && |poly| <= |behind| + 2
    requires forall k <- behind :: k < |poly| && Side(clip[0], clip[1], poly[k]) < 0.0
    ensures IntersectionArea(Closed(poly), clip) == 0.0
  {
    SomeInnerAreFew(clip[0], clip[1], poly, behind);
    FewInnerAreLost(poly, clip);
  }

  lemma EnclosingReachesBehind(ccw: bool, tri: seq<Point>, clip: seq<Point>)
    requires |tri| == 3 && Encloses(ccw, tri, clip) && |clip| > 1 && clip[0] != clip[1]
    ensures exists k: nat :: k < 3 && Side(clip[0], clip[1], tri[k]) < 0.0
  {
    var s, e := clip[0], clip[1];
    assert s in clip;
    assert Following(tri, 0) == tri[1] && Following(tri, 1) == tri[2] && Following(tri, 2) == tri[0];
    assert TurnsIn(ccw, tri[0], tri[1], s) && TurnsIn(ccw, tri[1], tri[2], s) && TurnsIn(ccw, tri[2], tri[0], s);
    if ccw {
      TriangleReachesBehind(tri[0], tri[1], tri[2], s, e);
    } else {
      SideFlips(tri[0], tri[1], s);
      SideFlips(tri[1], tri[2], s);
      SideFlips(tri[2], tri[0], s);
      TriangleReachesBehind(tri[1], tri[0], tri[2], s, e);
    }
  }

  /** Every triangle around any clip polygon is clipped away by it: no area is left of the whole intersection. */
  lemma EnclosingTriangleIsLost(ccw: bool, tri: seq<Point>, clip: seq<Point>)
    requires |tri| == 3 && Encloses(ccw, tri, clip) && |clip| > 1 && clip[0] != clip[1]
    ensures IntersectionArea(Closed(tri), clip) == 0.0
  {
    hide *;
    EnclosingMisses(ccw, tri, clip, 0);
    EnclosingReachesBehind(ccw, tri, clip);
    var k: nat :| k < 3 && Side(clip[0], clip[1], tri[k]) < 0.0;
    BehindAreLost(tri, clip, {k});
  }

  // ------------------------------------------------------- around the unit square

  function UnitSquare(): seq<Point> {
    [Point(0.0, 0.0), Point(1.0, 0.0), Point(1.0, 1.0), Point(0.0, 1.0), Point(0.0, 0.0)]
  }

  predicate InUnitSquare(p: Point) { 0.0 <= p.x <= 1.0 && 0.0 <= p.y <= 1.0 }

  lemma BottomSide(p: Point)
    ensures Side(Point(0.0, 0.0), Point(1.0, 0.0), p) == p.y
  {
  }

  /** An axis-parallel rectangle. */
  datatype Rect = Rect(x0: real, y0: real, x1: real, y1: real)

  predicate AroundUnit(r: Rect) { r.x0 < 0.0 && r.y0 < 0.0 && r.x1 > 1.0 && r.y1 > 1.0 }

  /** The corners counter-clockwise from the lower left. */
  function Corner(r: Rect, k: nat): Point
    requires k < 4
  {
    Point(if k == 0 || k == 3 then r.x0 else r.x1, if k < 2 then r.y0 else r.y1)
  }

  /** The corners from any of them, either way round. */
  function Corners(r: Rect, start: nat, ccw: bool): seq<Point> {
    seq(4, (i: nat) => Corner(r, (start + if ccw then i else 3 * i) % 4))
  }

  lemma EdgeTurnsIn(r: Rect, k: nat, c: Point)
    requires AroundUnit(r) && k < 4 && InUnitSquare(c)
    ensures Side(Corner(r, k), Corner(r, (k + 1) % 4), c) > 0.0
  {
    if k == 0 {
      Positive(r.x1 - r.x0, c.y - r.y0);
    } else if k == 1 {
      Positive(r.y1 - r.y0, r.x1 - c.x);
    } else if k == 2 {
      Positive(r.x1 - r.x0, r.y1 - c.y);
    } else {
      Positive(r.y1 - r.y0, c.x - r.x0);
    }
  }

  lemma CornerTurns(r: Rect, start: nat, ccw: bool, k: nat, c: Point)
    requires AroundUnit(r) && k < 4 && InUnitSquare(c)
    ensures TurnsIn(ccw, Corners(r, start, ccw)[k], Corners(r, start, ccw)[(k + 1) % 4], c)
  {
    hide Side;
    hide Corner;
    hide AroundUnit;
    hide InUnitSquare;
    var at := (start + if ccw then k else 3 * k) % 4;
    var after := (start + if ccw then (k + 1) % 4 else 3 * ((k + 1) % 4)) % 4;
    if ccw {
      assert after == (at + 1) % 4;
      EdgeTurnsIn(r, at, c);
    } else {
      assert at == (after + 1) % 4;
      EdgeTurnsIn(r, after, c);
      SideFlips(Corner(r, at), Corner(r, after), c);
    }
  }

  lemma CornersEnclose(r: Rect, start: nat, ccw: bool)
    requires AroundUnit(r)
    ensures Encloses(ccw, Corners(r, start, ccw), UnitSquare())
  {
    hide TurnsIn;
    hide AroundUnit;
    forall k: nat, c | k < 4 && c in UnitSquare()
      ensures TurnsIn(ccw, Corners(r, start, ccw)[k], Following(Corners(r, start, ccw), k), c)
    {
      CornerTurns(r, start, ccw, k, c);
    }
  }

  lemma LowerCorners(start: nat, ccw: bool) returns (i: nat, j: nat)
    ensures i < 4 && j < 4 && i != j
    ensures (start + if ccw then i else 3 * i) % 4 == 0 && (start + if ccw then j else 3 * j) % 4 == 1
  {
    var m := start % 4;
    i := if ccw then (4 - m) % 4 else m;
    j := if ccw then (5 - m) % 4 else (m + 3) % 4;
  }

  lemma LowerIsBehind(r: Rect, start: nat, ccw: bool, i: nat)
    requires AroundUnit(r) && i < 4 && (start + if ccw then i else 3 * i) % 4 < 2
    ensures Side(UnitSquare()[0], UnitSquare()[1], Corners(r, start, ccw)[i]) < 0.0
  {
    BottomSide(Corners(r, start, ccw)[i]);
  }

  lemma TwoBehind(r: Rect, start: nat, ccw: bool) returns (i: nat, j: nat)
    requires AroundUnit(r)
    ensures var p, s, e := Corners(r, start, ccw), UnitSquare()[0], UnitSquare()[1];
            i < 4 && j < 4 && i != j && Side(s, e, p[i]) < 0.0 && Side(s, e, p[j]) < 0.0
  {
    i, j := LowerCorners(start, ccw);
    LowerIsBehind(r, start, ccw, i);
    LowerIsBehind(r, start, ccw, j);
  }

  lemma TwoOfFourAreLost(ccw: bool, p: seq<Point>, clip: seq<Point>, i: nat, j: nat)
    requires |p| == 4 && |clip| > 1 && Encloses(ccw, p, clip) && i < 4 && j < 4 && i != j
    requires Side(clip[0], clip[1], p[i]) < 0.0 && Side(clip[0], clip[1], p[j]) < 0.0
    ensures IntersectionArea(Closed(p), clip) == 0.0
  {
    hide *;
    EnclosingMisses(ccw, p, clip, 0);
    BehindAreLost(p, clip, {i, j});
  }

  /** Every axis-parallel rectangle around the unit square is clipped away by it, whichever corner comes first. */
  lemma EnclosingRectangleIsLost(r: Rect, start: nat, ccw: bool)
    requires AroundUnit(r)
    ensures IntersectionArea(Closed(Corners(r, start, ccw)), UnitSquare()) == 0.0
  {
    CornersEnclose(r, start, ccw);
    var i, j := TwoBehind(r, start, ccw);
    hide Side;
    hide Corner;
    hide Encloses;
    hide IntersectionArea;
    TwoOfFourAreLost(ccw, Corners(r, start, ccw), UnitSquare(), i, j);
  }

  // ------------------------------------------------------- a square that is kept

  /** Where two segments meet is what is found, unless they are nearly parallel. */
  lemma FoundAt(p1: Point, p2: Point, p3: Point, p4: Point, t: real, u: real)
    requires MeetAt(p1, p2, p3, p4, t, u) && Abs(Cross(Minus(p2, p1), Minus(p4, p3))) >= EPSILON
    ensures LineIntersection(p1, p2, p3, p4) == Some(Along(p1, p2, t))
  {
    var cross := Cross(Minus(p2, p1), Minus(p4, p3));
    MeetingGivesCrosses(p1, p2, p3, p4, t, u);
    Solves(t, cross, Cross(Minus(p3, p1), Minus(p4, p3)));
    Solves(u, cross, Cross(Minus(p3, p1), Minus(p2, p1)));
  }

  /** The square standing on its corner `(0, -h)`. */
  function Diamond(h: real): seq<Point> { [Point(0.0, -h), Point(h, 0.0), Point(0.0, h), Point(-h, 0.0)] }

  lemma Ratio(h: real)
    requires h > 2.0
    ensures var t := (1.0 + h) / (2.0 * h); 0.0 <= t <= 1.0 && t * (2.0 * h) == 1.0 + h
    ensures var t := h / (1.0 + h); 0.0 <= t <= 1.0 && t * (1.0 + h) == h
    ensures var t := 1.0 / h; 0.0 <= t <= 1.0 && t * h == 1.0
  {
    var a, b, c := (1.0 + h) / (2.0 * h), h / (1.0 + h), 1.0 / h;
    assert a * (2.0 * h) == 1.0 + h && b * (1.0 + h) == h && c * h == 1.0;
    UnitFactor(a, 2.0 * h, 1.0 + h);
    UnitFactor(b, 1.0 + h, h);
    UnitFactor(c, h, 1.0);
  }

  lemma RightAt(h: real, t: real)
    requires t * (2.0 * h) == 1.0 + h
    ensures Along(Point(-h, 0.0), Point(h, 0.0), t) == Point(1.0, 0.0)
  {
    assert t * (h - -h) == t * (2.0 * h);
  }

  lemma RightCross(h: real)
    ensures Cross(Minus(Point(h, 0.0), Point(-h, 0.0)), Minus(Point(1.0, 1.0), Point(1.0, 0.0))) == 2.0 * h
  {
    var u, v := Minus(Point(h, 0.0), Point(-h, 0.0)), Minus(Point(1.0, 1.0), Point(1.0, 0.0));
    assert u == Point(2.0 * h, 0.0);
    assert v == Point(0.0, 1.0);
    hide Minus;
  }

  /** The diagonal left by the first pass meets the right edge in its lower corner. */
  lemma DiagonalMeetsRight(h: real)
    requires h > 2.0
    ensures LineIntersection(Point(-h, 0.0), Point(h, 0.0), Point(1.0, 0.0), Point(1.0, 1.0)) == Some(Point(1.0, 0.0))
  {
    var t := (1.0 + h) / (2.0 * h);
    Ratio(h);
    RightAt(h, t);
    RightCross(h);
    assert Along(Point(1.0, 0.0), Point(1.0, 1.0), 0.0) == Point(1.0, 0.0);
    hide Along;
    hide Cross;
    hide LineIntersection;
    FoundAt(Point(-h, 0.0), Point(h, 0.0), Point(1.0, 0.0), Point(1.0, 1.0), t, 0.0);
  }

  lemma TopAt(h: real, t: real)
    requires t * h == 1.0
    ensures Along(Point(1.0, 0.0), Point(0.0, h), t) == Point(1.0 - t, 1.0)
    ensures Along(Point(1.0, 1.0), Point(0.0, 1.0), t) == Point(1.0 - t, 1.0)
  {
    assert t * (h - 0.0) == t * h;
  }

  lemma TopCross(h: real)
    ensures Cross(Minus(Point(0.0, h), Point(1.0, 0.0)), Minus(Point(0.0, 1.0), Point(1.0, 1.0))) == h
  {
  }

  /** The edge from that corner to the top meets the top edge. */
  lemma NewEdgeMeetsTop(h: real, t: real)
    requires h > 2.0 && 0.0 <= t <= 1.0 && t * h == 1.0
    ensures LineIntersection(Point(1.0, 0.0), Point(0.0, h), Point(1.0, 1.0), Point(0.0, 1.0))
         == Some(Point(1.0 - t, 1.0))
  {
    TopAt(h, t);
    TopCross(h);
    hide Along;
    hide Cross;
    hide LineIntersection;
    FoundAt(Point(1.0, 0.0), Point(0.0, h), Point(1.0, 1.0), Point(0.0, 1.0), t, t);
  }

  /** The diagonal meets the left edge in its lower corner. */
  lemma DiagonalMeetsLeft(h: real)
    requires h > 2.0
    ensures LineIntersection(Point(-h, 0.0), Point(1.0, 0.0), Point(0.0, 1.0), Point(0.0, 0.0)) == Some(Point(0.0, 0.0))
  {
    Ratio(h);
    FoundAt(Point(-h, 0.0), Point(1.0, 0.0), Point(0.0, 1.0), Point(0.0, 0.0), h / (1.0 + h), 1.0);
  }

  // its passes, one after the other

  lemma RightSide(p: Point)
    ensures Side(Point(1.0, 0.0), Point(1.0, 1.0), p) == 1.0 - p.x
  {
  }

  lemma TopSide(p: Point)
    ensures Side(Point(1.0, 1.0), Point(0.0, 1.0), p) == 1.0 - p.y
  {
  }

  lemma LeftSide(p: Point)
    ensures Side(Point(0.0, 1.0), Point(0.0, 0.0), p) == p.x
  {
  }

  lemma AroundThree<T>(p: seq<T>, f: (T, T) -> seq<T>)
    requires |p| == 3
    ensures Around(p, 3, f) == f(p[0], p[1]) + f(p[1], p[2]) + f(p[2], p[0])
  {
    assert Around(p, 0, f) == [];
    assert Around(p, 1, f) == f(p[0], p[1]);
    assert Around(p, 2, f) == f(p[0], p[1]) + f(p[1], p[2]);
  }

  /** The first vertex is outside, its edge is missed, and the edge back to it is crossed at `x`. */
  lemma FirstReplaced(s: Point, e: Point, p: seq<Point>, x: Point)
    requires |p| == 3 && Side(s, e, p[0]) < 0.0 && Side(s, e, p[1]) >= 0.0 && Side(s, e, p[2]) >= 0.0
    requires LineIntersection(p[0], p[1], s, e).None? && LineIntersection(p[2], p[0], s, e) == Some(x)
    ensures ClipEdge(s, e, p) == [p[1], p[2], x]
  {
    AroundThree(p, (cur, next) => Emit(s, e, cur, next));
    assert Emit(s, e, p[0], p[1]) == [] && Emit(s, e, p[1], p[2]) == [p[1]] && Emit(s, e, p[2], p[0]) == [p[2], x];
  }

  /** The same when both edges are crossed, or only the one forth. */
  lemma FirstCut(s: Point, e: Point, p: seq<Point>, x: Point)
    requires |p| == 3 && Side(s, e, p[0]) < 0.0 && Side(s, e, p[1]) >= 0.0 && Side(s, e, p[2]) >= 0.0
    requires LineIntersection(p[0], p[1], s, e) == Some(x)
    ensures exists more :: ClipEdge(s, e, p) == [x, p[1], p[2]] + more && |more| <= 1
  {
    AroundThree(p, (cur, next) => Emit(s, e, cur, next));
    var more := Emit(s, e, p[2], p[0])[1..];
    assert Emit(s, e, p[0], p[1]) == [x] && Emit(s, e, p[1], p[2]) == [p[1]] && Emit(s, e, p[2], p[0]) == [p[2]] + more;
    assert ClipEdge(s, e, p) == [x, p[1], p[2]] + more;
  }

  lemma DiamondEdge(h: real, p: Point, q: Point, c: Point, i: real, j: real)
    requires h > 2.0 && InUnitSquare(c) && (i == 1.0 || i == -1.0) && (j == 1.0 || j == -1.0)
    requires q.x - p.x == i * h && q.y - p.y == j * h
    requires i * (p.y - c.y) - j * (p.x - c.x) < 0.0
    ensures Side(p, q, c) > 0.0
  {
    Positive(h, i * (c.y - p.y) - j * (c.x - p.x));
    assert (q.x - p.x) * (c.y - p.y) == h * (i * (c.y - p.y));
    assert (q.y - p.y) * (c.x - p.x) == h * (j * (c.x - p.x));
  }

  lemma DiamondEncloses(h: real)
    requires h > 2.0
    ensures Encloses(true, Diamond(h), UnitSquare())
  {
    var p := Diamond(h);
    forall k: nat, c | k < 4 && c in UnitSquare() ensures TurnsIn(true, p[k], Following(p, k), c) {
      assert InUnitSquare(c);
      if k == 0 {
        DiamondEdge(h, p[0], p[1], c, 1.0, 1.0);
      } else if k == 1 {
        DiamondEdge(h, p[1], p[2], c, -1.0, 1.0);
      } else if k == 2 {
        DiamondEdge(h, p[2], p[3], c, -1.0, -1.0);
      } else {
        DiamondEdge(h, p[3], p[0], c, 1.0, -1.0);
      }
    }
  }

  lemma FirstPass(h: real)
    requires h > 2.0
    ensures var p := Diamond(h);
            ClipEdge(UnitSquare()[0], UnitSquare()[1], p) == [p[1], p[2], p[3]]
  {
    hide Side;
    hide Encloses;
    hide NoCrossing;
    hide Inner;
    hide ClipEdge;
    var p, s, e := Diamond(h), UnitSquare()[0], UnitSquare()[1];
    DiamondEncloses(h);
    EnclosingMisses(true, p, UnitSquare(), 0);
    MissedPassFilters(s, e, p);
    BottomSide(p[0]);
    BottomSide(p[1]);
    BottomSide(p[2]);
    BottomSide(p[3]);
    InnerOfFour(s, e, p);
  }

  lemma InnerOfFour(s: Point, e: Point, p: seq<Point>)
    requires |p| == 4 && Side(s, e, p[0]) < 0.0
    requires Side(s, e, p[1]) >= 0.0 && Side(s, e, p[2]) >= 0.0 && Side(s, e, p[3]) >= 0.0
    ensures Inner(s, e, p) == [p[1], p[2], p[3]]
  {
    hide Side;
    var g := (cur: Point, next: Point) => InnerOnly(s, e, cur);
    assert Around(p, 0, g) == [] && Around(p, 1, g) == [];
    assert Around(p, 2, g) == [p[1]];
    assert Around(p, 3, g) == [p[1], p[2]];
    assert Around(p, 4, g) == [p[1], p[2], p[3]];
  }

  lemma EdgeMissed(h: real, k: nat, i: nat)
    requires h > 2.0 && k < 4 && i < 4
    ensures LineIntersection(Diamond(h)[k], Following(Diamond(h), k), UnitSquare()[i], UnitSquare()[i + 1]).None?
  {
    hide Encloses;
    DiamondEncloses(h);
    EnclosingMisses(true, Diamond(h), UnitSquare(), i);
  }

  lemma SecondPass(h: real)
    requires h > 2.0
    ensures var p := Diamond(h);
            ClipEdge(UnitSquare()[1], UnitSquare()[2], [p[1], p[2], p[3]]) == [p[2], p[3], Point(1.0, 0.0)]
  {
    hide Side;
    hide LineIntersection;
    hide ClipEdge;
    var p := Diamond(h);
    RightSide(p[1]);
    RightSide(p[2]);
    RightSide(p[3]);
    EdgeMissed(h, 1, 1);
    DiagonalMeetsRight(h);
    FirstReplaced(UnitSquare()[1], UnitSquare()[2], [p[1], p[2], p[3]], Point(1.0, 0.0));
  }

  lemma ThirdPass(h: real, t: real)
    requires h > 2.0 && 0.0 <= t <= 1.0 && t * h == 1.0
    ensures var p := Diamond(h);
            ClipEdge(UnitSquare()[2], UnitSquare()[3], [p[2], p[3], Point(1.0, 0.0)])
            == [p[3], Point(1.0, 0.0), Point(1.0 - t, 1.0)]
  {
    hide Side;
    hide LineIntersection;
    hide ClipEdge;
    var p, r := Diamond(h), Point(1.0, 0.0);
    TopSide(p[2]);
    TopSide(p[3]);
    TopSide(r);
    EdgeMissed(h, 2, 2);
    NewEdgeMeetsTop(h, t);
    FirstReplaced(UnitSquare()[2], UnitSquare()[3], [p[2], p[3], r], Point(1.0 - t, 1.0));
  }

  lemma FourthPass(h: real, t: real)
    requires h > 2.0 && 0.0 <= t <= 1.0
    ensures var r, x := Point(1.0, 0.0), Point(1.0 - t, 1.0);
            exists more ::
              |more| <= 1
              && ClipEdge(UnitSquare()[3], UnitSquare()[4], [Diamond(h)[3], r, x]) == [Point(0.0, 0.0), r, x] + more
  {
    hide Side;
    hide LineIntersection;
    hide ClipEdge;
    var p, r, x := Diamond(h), Point(1.0, 0.0), Point(1.0 - t, 1.0);
    LeftSide(p[3]);
    LeftSide(r);
    LeftSide(x);
    DiagonalMeetsLeft(h);
    FirstCut(UnitSquare()[3], UnitSquare()[4], [p[3], r, x], Point(0.0, 0.0));
  }

  lemma FourPasses(p: seq<Point>, clip: seq<Point>, p1: seq<Point>, p2: seq<Point>, p3: seq<Point>, p4: seq<Point>)
    requires |clip| == 5 && ClipEdge(clip[0], clip[1], p) == p1 && ClipEdge(clip[1], clip[2], p1) == p2
    requires ClipEdge(clip[2], clip[3], p2) == p3 && ClipEdge(clip[3], clip[4], p3) == p4
    ensures ClipAll(p, clip, 4) == p4
  {
    hide ClipEdge;
    assert ClipAll(p, clip, 0) == p;
    assert ClipAll(p, clip, 1) == p1;
    assert ClipAll(p, clip, 2) == p2;
    assert ClipAll(p, clip, 3) == p3;
  }

  lemma TriangleArea(l: Point, r: Point, x: Point)
    ensures Ring([l, r, x]) == Side(l, r, x)
  {
    NoTurn(true, l, r);
    NoTurn(true, l, x);
    RingIsFan(l, [l, r, x]);
    var closed := [l, r, x] + [l];
    assert Fan(l, closed[2..]) == Side(l, x, l) + Fan(l, closed[3..]);
    assert Fan(l, closed[1..]) == Side(l, r, x) + Fan(l, closed[2..]);
    assert Fan(l, closed) == Side(l, l, r) + Fan(l, closed[1..]);
  }

  /** A convex ring is at least as large as a triangle it begins with. */
  lemma AtLeastTriangle(l: Point, r: Point, x: Point, more: seq<Point>)
    requires Convex(true, [l, r, x] + more) && |more| <= 1
    ensures Ring([l, r, x] + more) >= Side(l, r, x)
  {
    TriangleArea(l, r, x);
    if |more| == 1 {
      assert [l, r, x] + more == [l, r, x] + [more[0]] + [] && [l, r, x] + [] == [l, r, x];
      WithoutShrinks(true, [l, r, x], more[0], []);
    } else {
      assert [l, r, x] + more == [l, r, x];
    }
  }

  lemma DiamondSides(h: real)
    requires h > 2.0
    ensures var p := Diamond(h);
            && Side(p[0], p[1], p[2]) > 0.0 && Side(p[0], p[1], p[3]) > 0.0
            && Side(p[0], p[2], p[3]) > 0.0 && Side(p[1], p[2], p[3]) > 0.0
  {
    Positive(h, h);
  }

  lemma DiamondConvex(h: real)
    requires h > 2.0
    ensures Convex(true, Diamond(h))
  {
    var p := Diamond(h);
    DiamondSides(h);
    hide Side;
    forall i, j, k | 0 <= i < j < k < 4 ensures Turns(true, p[i], p[j], p[k]) {
      assert (i == 0 && j == 1) || (i == 0 && j == 2 && k == 3) || (i == 1 && j == 2 && k == 3);
    }
  }

  lemma KeptTriangle(t: real)
    ensures Side(Point(0.0, 0.0), Point(1.0, 0.0), Point(1.0 - t, 1.0)) == 1.0
  {
  }

  lemma DiamondClipped(h: real, t: real) returns (more: seq<Point>, x: Point)
    requires h > 2.0 && 0.0 <= t <= 1.0 && t * h == 1.0
    ensures |more| <= 1 && x == Point(1.0 - t, 1.0)
    ensures ClipAll(Diamond(h), UnitSquare(), 4) == [Point(0.0, 0.0), Point(1.0, 0.0), x] + more
  {
    hide ClipEdge;
    hide ClipAll;
    var p, clip, r := Diamond(h), UnitSquare(), Point(1.0, 0.0);
    x := Point(1.0 - t, 1.0);
    FirstPass(h);
    SecondPass(h);
    ThirdPass(h, t);
    FourthPass(h, t);
    more :| |more| <= 1 && ClipEdge(clip[3], clip[4], [p[3], r, x]) == [Point(0.0, 0.0), r, x] + more;
    FourPasses(p, clip, [p[1], p[2], p[3]], [p[2], p[3], r], [p[3], r, x], [Point(0.0, 0.0), r, x] + more);
  }

  lemma LargeRing(p: seq<Point>, clip: seq<Point>, c: seq<Point>)
    requires p != [] && |clip| > 0 && c == ClipAll(p, clip, |clip| - 1) && |c| >= 3 && Ring(c) >= 1.0
    ensures IntersectionArea(Closed(p), clip) >= 0.5
  {
    assert Open(Closed(p)) == p;
    ClosedArea(c);
  }

  /** Not every square around the unit square is lost: one that stands on a corner keeps at least half of it. */
  lemma EnclosingDiamondKeepsArea(h: real, square: seq<Point>, unit: seq<Point>)
    requires h > 2.0 && square == Diamond(h) && unit == UnitSquare()
    ensures Encloses(true, square, unit) && IntersectionArea(Closed(square), unit) >= 0.5
  {
    DiamondEncloses(h);
    DiamondConvex(h);
    Ratio(h);
    var more, x := DiamondClipped(h, 1.0 / h);
    KeptTriangle(1.0 / h);
    hide Convex;
    hide Side;
    hide ClipAll;
    hide Ring;
    ClippingShrinks(true, square, unit, 4);
    AtLeastTriangle(Point(0.0, 0.0), Point(1.0, 0.0), x, more);
    LargeRing(square, unit, [Point(0.0, 0.0), Point(1.0, 0.0), x] + more);
  }
}
