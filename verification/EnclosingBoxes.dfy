/**
 * Which boxes around the unit square keep some of it: those with a corner beyond each side,
 * as every tilted rectangle around it has.
 */
module EnclosingBoxes {
  import opened Wrappers
  import opened Clipping
  import opened ConvexArea
  import opened LineClipping
  import opened Enclosing
  import Containment

  /** A convex quadrilateral around the unit square: `a` below it, `b` to the right, `c` above, `d` to the left. */
  ghost predicate BoxAround(a: Point, b: Point, c: Point, d: Point) {
    && Encloses(true, [a, b, c, d], UnitSquare()) && Convex(true, [a, b, c, d])
    && a.y < 0.0 && b.x > 1.0 && c.y > 1.0 && d.x < 0.0
  }

  function RightEdge(p: Point, q: Point): Option<Point> { LineIntersection(p, q, Point(1.0, 0.0), Point(1.0, 1.0)) }

  function TopEdge(p: Point, q: Point): Option<Point> { LineIntersection(p, q, Point(1.0, 1.0), Point(0.0, 1.0)) }

  function LeftEdge(p: Point, q: Point): Option<Point> { LineIntersection(p, q, Point(0.0, 1.0), Point(0.0, 0.0)) }

  /**
   * The diagonal from `d` to `b` leaves the square through its right edge, below the upper corner;
   * from there to `c` through the top edge; and `d` is no higher than the square, or the
   * diagonal also crosses the top edge.
   */
  predicate Spared(b: Point, c: Point, d: Point) {
    && b.y >= 0.0 && d.y >= 0.0 && c.x <= 1.0
    && match RightEdge(d, b)
       case None => false
       case Some(r) => r.y < 1.0 && TopEdge(r, c).Some? && (d.y <= 1.0 || TopEdge(d, r).Some?)
  }

  // ------------------------------------------------------------ crossings found

  lemma FoundOnBoth(p: Point, q: Point, s: Point, e: Point, x: Point) returns (t: real, u: real)
    requires LineIntersection(p, q, s, e) == Some(x)
    ensures 0.0 <= t <= 1.0 && 0.0 <= u <= 1.0 && x == Along(p, q, t) && x == Along(s, e, u)
  {
    hide Along;
    hide Cross;
    hide LineIntersection;
    CrossingIsSharedPoint(p, q, s, e);
    t, u :| MeetAt(p, q, s, e, t, u) && x == Along(p, q, t);
  }

  lemma EdgePoints(u: real)
    ensures Along(Point(1.0, 0.0), Point(1.0, 1.0), u) == Point(1.0, u)
    ensures Along(Point(1.0, 1.0), Point(0.0, 1.0), u) == Point(1.0 - u, 1.0)
    ensures Along(Point(0.0, 1.0), Point(0.0, 0.0), u) == Point(0.0, 1.0 - u)
  {
  }

  lemma OnRightEdge(p: Point, q: Point, x: Point) returns (t: real)
    requires RightEdge(p, q) == Some(x)
    ensures 0.0 <= t <= 1.0 && x == Along(p, q, t) && x.x == 1.0 && 0.0 <= x.y <= 1.0
  {
    hide Along;
    hide LineIntersection;
    var u;
    t, u := FoundOnBoth(p, q, Point(1.0, 0.0), Point(1.0, 1.0), x);
    EdgePoints(u);
  }

  lemma OnTopEdge(p: Point, q: Point, x: Point) returns (t: real)
    requires TopEdge(p, q) == Some(x)
    ensures 0.0 <= t <= 1.0 && x == Along(p, q, t) && x.y == 1.0 && 0.0 <= x.x <= 1.0
  {
    hide Along;
    hide LineIntersection;
    var u;
    t, u := FoundOnBoth(p, q, Point(1.0, 1.0), Point(0.0, 1.0), x);
    EdgePoints(u);
  }

  lemma OnLeftEdge(p: Point, q: Point, x: Point) returns (t: real)
    requires LeftEdge(p, q) == Some(x)
    ensures 0.0 <= t <= 1.0 && x == Along(p, q, t) && x.x == 0.0 && 0.0 <= x.y <= 1.0
  {
    hide Along;
    hide LineIntersection;
    var u;
    t, u := FoundOnBoth(p, q, Point(0.0, 1.0), Point(0.0, 0.0), x);
    EdgePoints(u);
  }

  // ------------------------------------------------------------------ the passes

  lemma ThreePass(s: Point, e: Point, x: Point, y: Point, z: Point)
    ensures ClipEdge(s, e, [x, y, z]) == Emit(s, e, x, y) + Emit(s, e, y, z) + Emit(s, e, z, x)
  {
    AroundThree([x, y, z], (cur, next) => Emit(s, e, cur, next));
  }

  /** What a pass emits after the vertex itself. */
  function Found(ix: Option<Point>): seq<Point> { if ix.Some? then [ix.value] else [] }

  lemma BottomPass(a: Point, b: Point, c: Point, d: Point)
    requires BoxAround(a, b, c, d) && b.y >= 0.0 && d.y >= 0.0
    ensures ClipEdge(Point(0.0, 0.0), Point(1.0, 0.0), [a, b, c, d]) == [b, c, d]
  {
    hide Side;
    hide Encloses;
    hide NoCrossing;
    hide Inner;
    hide ClipEdge;
    var p, s, e := [a, b, c, d], UnitSquare()[0], UnitSquare()[1];
    EnclosingMisses(true, p, UnitSquare(), 0);
    MissedPassFilters(s, e, p);
    BottomSide(a);
    BottomSide(b);
    BottomSide(c);
    BottomSide(d);
    InnerOfFour(s, e, p);
  }

  lemma BoxEdgeMissed(a: Point, b: Point, c: Point, d: Point, i: nat)
    requires BoxAround(a, b, c, d) && i < 4
    ensures var s, e := UnitSquare()[i], UnitSquare()[i + 1];
            LineIntersection(b, c, s, e).None? && LineIntersection(c, d, s, e).None?
  {
    hide Encloses;
    hide Convex;
    hide LineIntersection;
    var p := [a, b, c, d];
    EnclosingMisses(true, p, UnitSquare(), i);
    assert p[1] == b && Following(p, 1) == c && p[2] == c && Following(p, 2) == d;
  }

  /** The second pass: `b` goes, `c` if it is to the right, and the diagonal may be crossed. */
  lemma RightPass(a: Point, b: Point, c: Point, d: Point)
    requires BoxAround(a, b, c, d)
    ensures ClipEdge(Point(1.0, 0.0), Point(1.0, 1.0), [b, c, d])
         == (if c.x <= 1.0 then [c] else []) + [d] + Found(RightEdge(d, b))
  {
    var s, e := Point(1.0, 0.0), Point(1.0, 1.0);
    BoxEdgeMissed(a, b, c, d, 1);
    ThreePass(s, e, b, c, d);
    RightSide(b);
    RightSide(c);
    RightSide(d);
    hide Side;
    hide LineIntersection;
    hide Encloses;
    hide Convex;
    hide ClipEdge;
  }

  /** The third: `c` goes, and `d` if it is above. */
  lemma TopPass(a: Point, b: Point, c: Point, d: Point, r: Point)
    requires BoxAround(a, b, c, d) && 0.0 <= r.y <= 1.0
    ensures ClipEdge(Point(1.0, 1.0), Point(0.0, 1.0), [c, d, r])
         == (if d.y <= 1.0 then [d] else Found(TopEdge(d, r))) + [r] + Found(TopEdge(r, c))
  {
    var s, e := Point(1.0, 1.0), Point(0.0, 1.0);
    BoxEdgeMissed(a, b, c, d, 2);
    ThreePass(s, e, c, d, r);
    TopSide(c);
    TopSide(d);
    TopSide(r);
    hide Side;
    hide LineIntersection;
    hide Encloses;
    hide Convex;
    hide ClipEdge;
  }

  lemma LeftPass(d: Point, r: Point, x: Point)
    requires r.x >= 0.0 && x.x >= 0.0
    ensures ClipEdge(Point(0.0, 1.0), Point(0.0, 0.0), [d, r, x])
         == if d.x < 0.0 then Found(LeftEdge(d, r)) + [r, x] + Found(LeftEdge(x, d)) else [d, r, x]
  {
    var s, e := Point(0.0, 1.0), Point(0.0, 0.0);
    ThreePass(s, e, d, r, x);
    LeftSide(d);
    LeftSide(r);
    LeftSide(x);
    hide Side;
    hide LineIntersection;
    hide ClipEdge;
    assert Found(LeftEdge(d, r)) + [r] + ([x] + Found(LeftEdge(x, d)))
        == Found(LeftEdge(d, r)) + [r, x] + Found(LeftEdge(x, d));
  }

  // --------------------------------------------------------------- lost boxes

  /** The box after the first `k` passes. */
  function LeftAfter(p: seq<Point>, k: nat): seq<Point>
    requires k < 5
  {
    ClipAll(p, UnitSquare(), k)
  }

  lemma PassesOf(p: seq<Point>, i: nat)
    requires i < 4
    ensures LeftAfter(p, 0) == p
    ensures LeftAfter(p, i + 1) == ClipEdge(UnitSquare()[i], UnitSquare()[i + 1], LeftAfter(p, i))
  {
  }

  lemma LowBoxIsLost(a: Point, b: Point, c: Point, d: Point)
    requires BoxAround(a, b, c, d) && (b.y < 0.0 || d.y < 0.0)
    ensures IntersectionArea(Closed([a, b, c, d]), UnitSquare()) == 0.0
  {
    var p, unit := [a, b, c, d], UnitSquare();
    BottomSide(a);
    BottomSide(b);
    BottomSide(d);
    var j := if b.y < 0.0 then 1 else 3;
    assert Side(unit[0], unit[1], p[0]) < 0.0 && Side(unit[0], unit[1], p[j]) < 0.0;
    hide Side;
    hide Encloses;
    hide Convex;
    hide IntersectionArea;
    TwoOfFourAreLost(true, p, unit, 0, j);
  }

  lemma TwoPasses(a: Point, b: Point, c: Point, d: Point)
    requires BoxAround(a, b, c, d) && b.y >= 0.0 && d.y >= 0.0
    ensures LeftAfter([a, b, c, d], 2) == (if c.x <= 1.0 then [c] else []) + [d] + Found(RightEdge(d, b))
  {
    hide ClipEdge;
    hide Encloses;
    hide Convex;
    hide LeftAfter;
    hide LineIntersection;
    PassesOf([a, b, c, d], 0);
    PassesOf([a, b, c, d], 1);
    BottomPass(a, b, c, d);
    RightPass(a, b, c, d);
  }

  lemma ThreePasses(a: Point, b: Point, c: Point, d: Point, r: Point)
    requires BoxAround(a, b, c, d) && b.y >= 0.0 && d.y >= 0.0 && c.x <= 1.0 && RightEdge(d, b) == Some(r)
    ensures LeftAfter([a, b, c, d], 3)
         == (if d.y <= 1.0 then [d] else Found(TopEdge(d, r))) + [r] + Found(TopEdge(r, c))
  {
    hide ClipEdge;
    hide Encloses;
    hide Convex;
    hide LeftAfter;
    hide LineIntersection;
    TwoPasses(a, b, c, d);
    assert [c] + [d] + [r] == [c, d, r];
    PassesOf([a, b, c, d], 2);
    var t := OnRightEdge(d, b, r);
    TopPass(a, b, c, d, r);
  }

  lemma AlongFrom(p: Point, q: Point, t: real)
    ensures Along(p, q, t).x == p.x + t * (q.x - p.x) && Along(p, q, t).y == p.y + t * (q.y - p.y)
    ensures Along(p, q, 0.0) == p && Along(p, q, 1.0) == q
  {
  }

  lemma ZeroProduct(t: real, k: real)
    requires t * k == 0.0 && k != 0.0
    ensures t == 0.0
  {
    CancelFactor(k, t, 0.0);
  }

  /** From the upper corner up, the top edge is met in that corner. */
  lemma CornerMeetsTopThere(r: Point, c: Point, x: Point)
    requires r.y == 1.0 && TopEdge(r, c) == Some(x) && c.y > 1.0
    ensures x == r
  {
    hide Along;
    hide LineIntersection;
    var t := OnTopEdge(r, c, x);
    AlongFrom(r, c, t);
    ZeroProduct(t, c.y - r.y);
    AlongFrom(r, c, 0.0);
  }

  /** From above down to the corner, too. */
  lemma TopMeetsCornerThere(d: Point, r: Point, x: Point)
    requires r.y == 1.0 && TopEdge(d, r) == Some(x) && d.y > 1.0
    ensures x == r
  {
    hide Along;
    hide LineIntersection;
    var t := OnTopEdge(d, r, x);
    AlongFrom(d, r, t);
    LessOne(t, r.y - d.y);
    ZeroProduct(t - 1.0, r.y - d.y);
    AlongFrom(d, r, 1.0);
  }

  lemma LessOne(t: real, k: real)
    ensures (t - 1.0) * k == t * k - k
  {
  }

  /** Three points of which two coincide lie on a line. */
  lemma TwoCoincide(x: Point, y: Point, p: seq<Point>) returns (f: Affine)
    requires forall z <- p :: z == x || z == y
    ensures IsLine(f) && OnLine(f, p)
  {
    f := LineThrough([x, y]);
    assert [x, y][0] == x && [x, y][1] == y;
    assert x in [x, y] && y in [x, y];
  }

  lemma UnsparedIsLost(a: Point, b: Point, c: Point, d: Point)
    requires BoxAround(a, b, c, d) && !Spared(b, c, d)
    ensures IntersectionArea(Closed([a, b, c, d]), UnitSquare()) == 0.0
  {
    hide LineIntersection;
    hide LeftAfter;
    hide IntersectionArea;
    hide Encloses;
    hide Convex;
    if b.y < 0.0 || d.y < 0.0 {
      LowBoxIsLost(a, b, c, d);
    } else if c.x > 1.0 || RightEdge(d, b).None? {
      TwoPasses(a, b, c, d);
      FewAfter([a, b, c, d], 2);
    } else {
      LostOnTop(a, b, c, d, RightEdge(d, b).value);
    }
  }

  lemma FewAfter(p: seq<Point>, k: nat)
    requires p != [] && k < 5 && |LeftAfter(p, k)| <= 2
    ensures IntersectionArea(Closed(p), UnitSquare()) == 0.0
  {
    FewLeftAreLost(p, UnitSquare(), k);
  }

  lemma LostOnTop(a: Point, b: Point, c: Point, d: Point, r: Point)
    requires BoxAround(a, b, c, d) && b.y >= 0.0 && d.y >= 0.0 && c.x <= 1.0 && RightEdge(d, b) == Some(r)
    requires !(r.y < 1.0 && TopEdge(r, c).Some? && (d.y <= 1.0 || TopEdge(d, r).Some?))
    ensures IntersectionArea(Closed([a, b, c, d]), UnitSquare()) == 0.0
  {
    hide LineIntersection;
    hide LeftAfter;
    hide IntersectionArea;
    hide Encloses;
    hide Convex;
    var p := [a, b, c, d];
    ThreePasses(a, b, c, d, r);
    if TopEdge(r, c).None? || (d.y > 1.0 && TopEdge(d, r).None?) {
      FewAfter(p, 3);
    } else {
      var t := OnRightEdge(d, b, r);
      CornerMeetsTopThere(r, c, TopEdge(r, c).value);
      if d.y > 1.0 { TopMeetsCornerThere(d, r, TopEdge(d, r).value); }
      FlatAfterThree(p, d, r);
    }
  }

  lemma FlatAfterThree(p: seq<Point>, d: Point, r: Point)
    requires p != [] && forall z <- LeftAfter(p, 3) :: z == d || z == r
    ensures IntersectionArea(Closed(p), UnitSquare()) == 0.0
  {
    var f := TwoCoincide(d, r, LeftAfter(p, 3));
    FlatLeftIsLost(p, UnitSquare(), 3, f);
  }

  // --------------------------------------------------------------- kept boxes

  lemma BothPositive(x: real, y: real)
    requires x >= 0.0 && x * y > 0.0
    ensures x > 0.0 && y > 0.0
  {
    if y <= 0.0 { NonNegative(x, -y); }
    if x == 0.0 { NothingTimes(x, y); }
  }

  lemma NothingTimes(x: real, y: real)
    requires x == 0.0
    ensures x * y == 0.0
  {
  }

  lemma Complement(t: real, k: real)
    ensures k - t * k == (1.0 - t) * k
  {
  }

  /** The top corner is strictly to the left of the diagonal that meets the square. */
  lemma TopIsLeft(a: Point, b: Point, c: Point, d: Point, r: Point)
    requires BoxAround(a, b, c, d) && RightEdge(d, b) == Some(r)
    ensures Side(d, r, c) > 0.0
  {
    var t := OnRightEdge(d, b, r);
    InnerOfEdge(a, b, c, d, r);
    hide LineIntersection;
    hide BoxAround;
    SideAlong(b, c, d, b, t);
    NoTurn(true, b, c);
    Complement(t, Side(b, c, d));
    BothPositive(1.0 - t, Side(b, c, d));
    Containment.SideScaled(d, b, t, c);
    TurnsAround(true, b, c, d);
    TurnsAround(true, c, d, b);
    Reaches(d, b, t, r);
    Positive(t, Side(d, b, c));
    hide Side;
    hide Along;
  }

  lemma Reaches(d: Point, b: Point, t: real, r: Point)
    requires r == Along(d, b, t) && r.x > d.x && 0.0 <= t
    ensures t > 0.0
  {
    AlongFrom(d, b, 0.0);
  }

  lemma EnclosedCorner(a: Point, b: Point, c: Point, d: Point, q: Point)
    requires Encloses(true, [a, b, c, d], UnitSquare()) && q in UnitSquare()
    ensures Side(a, b, q) > 0.0 && Side(b, c, q) > 0.0 && Side(c, d, q) > 0.0 && Side(d, a, q) > 0.0
  {
    hide Side;
    hide UnitSquare;
    var p := [a, b, c, d];
    assert TurnsIn(true, p[0], Following(p, 0), q) && TurnsIn(true, p[1], Following(p, 1), q);
    assert TurnsIn(true, p[2], Following(p, 2), q) && TurnsIn(true, p[3], Following(p, 3), q);
  }

  lemma SegmentInside(p: Point, q: Point, s: Point, e: Point, u: real)
    requires Side(p, q, s) > 0.0 && Side(p, q, e) > 0.0 && 0.0 <= u <= 1.0
    ensures Side(p, q, Along(s, e, u)) > 0.0
  {
    hide Side;
    hide Along;
    SideAlong(p, q, s, e, u);
    Between(u, Side(p, q, s), Side(p, q, e));
  }

  /** A point of the right edge is inside the edge from `b` to `c`. */
  lemma InnerOfEdge(a: Point, b: Point, c: Point, d: Point, r: Point)
    requires BoxAround(a, b, c, d) && r.x == 1.0 && 0.0 <= r.y <= 1.0
    ensures Side(b, c, r) > 0.0 && d.x < 0.0
  {
    var s, e := Point(1.0, 0.0), Point(1.0, 1.0);
    assert s == UnitSquare()[1] && e == UnitSquare()[2];
    EdgePoints(r.y);
    assert r == Along(s, e, r.y);
    hide Side;
    hide Along;
    hide Encloses;
    hide Convex;
    hide UnitSquare;
    EnclosedCorner(a, b, c, d, s);
    EnclosedCorner(a, b, c, d, e);
    SegmentInside(b, c, s, e, r.y);
  }

  /** A point of the diagonal before `r`, `r`, and a point of the edge from there to `c`: they turn left. */
  lemma LeftTurn(d: Point, r: Point, c: Point, q: Point, s: real, x: Point, t: real)
    requires Side(d, r, c) > 0.0 && q == Along(d, r, s) && s < 1.0 && x == Along(r, c, t) && t > 0.0
    ensures Side(q, r, x) > 0.0
  {
    hide Side;
    hide Along;
    hide Turns;
    SideAlong(r, c, d, r, s);
    NoTurn(true, r, c);
    TurnsAround(true, d, r, c);
    TurnsAround(true, q, r, c);
    Complement(s, Side(r, c, d));
    Positive(1.0 - s, Side(r, c, d));
    SideAlong(q, r, r, c, t);
    NoTurn(true, q, r);
    Positive(t, Side(q, r, c));
    Zeroed(t, Side(q, r, c));
  }

  lemma Zeroed(t: real, k: real)
    ensures 0.0 - t * (0.0 - k) == t * k
  {
  }

  /** On the way from `d` to `r` the left edge is found. */
  lemma LeftEdgeFound(d: Point, r: Point)
    requires d.x < 0.0 && r.x == 1.0 && 0.0 <= d.y <= 1.0 && 0.0 <= r.y <= 1.0
    ensures LeftEdge(d, r).Some?
  {
    hide Side;
    hide Cross;
    hide Minus;
    hide LineIntersection;
    hide InStrip;
    var s, e := Point(0.0, 1.0), Point(0.0, 0.0);
    LeftSide(d);
    LeftSide(r);
    LeftStrip(d);
    LeftStrip(r);
    LeftCross(d, r);
    FoundInStrip(s, e, d, r);
  }

  lemma Down(u: Point)
    ensures Cross(u, Point(0.0, -1.0)) == -u.x && Dot(u, Point(0.0, -1.0)) == -u.y
  {
  }

  lemma LeftDirection()
    ensures Minus(Point(0.0, 0.0), Point(0.0, 1.0)) == Point(0.0, -1.0)
  {
  }

  lemma Difference(p: Point, q: Point)
    ensures Minus(p, q).x == p.x - q.x && Minus(p, q).y == p.y - q.y
  {
  }

  lemma LeftStrip(p: Point)
    requires 0.0 <= p.y <= 1.0
    ensures InStrip(Point(0.0, 1.0), Point(0.0, 0.0), p)
  {
    hide Dot;
    hide Minus;
    var s, down := Point(0.0, 1.0), Point(0.0, -1.0);
    LeftDirection();
    Difference(p, s);
    Down(Minus(p, s));
    Down(down);
  }

  lemma LeftCross(d: Point, r: Point)
    ensures Cross(Minus(r, d), Minus(Point(0.0, 0.0), Point(0.0, 1.0))) == d.x - r.x
  {
    hide Cross;
    hide Minus;
    LeftDirection();
    Difference(r, d);
    Down(Minus(r, d));
  }

  lemma PositiveRing(p: seq<Point>, c: seq<Point>)
    requires p != [] && c == LeftAfter(p, 4) && |c| >= 3 && Ring(c) > 0.0
    ensures IntersectionArea(Closed(p), UnitSquare()) > 0.0
  {
    assert Open(Closed(p)) == p;
    ClosedArea(c);
  }

  lemma AtLeastPositive(p: seq<Point>, l: Point, r: Point, x: Point, more: seq<Point>)
    requires p != [] && Convex(true, p) && LeftAfter(p, 4) == [l, r, x] + more && |more| <= 1 && Side(l, r, x) > 0.0
    ensures IntersectionArea(Closed(p), UnitSquare()) > 0.0
  {
    hide Convex;
    hide Side;
    hide Ring;
    ClippingShrinks(true, p, UnitSquare(), 4);
    AtLeastTriangle(l, r, x, more);
    PositiveRing(p, [l, r, x] + more);
  }

  /** The start of the kept triangle: a point of the diagonal strictly before `r`. */
  lemma BeforeRight(d: Point, r: Point, q: Point, s: real)
    requires q == Along(d, r, s) && q != r && 0.0 <= s <= 1.0
    ensures s < 1.0
  {
    AlongFrom(d, r, 1.0);
  }

  lemma AfterRight(r: Point, c: Point, x: Point, t: real)
    requires x == Along(r, c, t) && x != r && 0.0 <= t <= 1.0
    ensures t > 0.0
  {
    AlongFrom(r, c, 0.0);
  }

  lemma FourPassesOf(a: Point, b: Point, c: Point, d: Point, r: Point, x: Point, q: Point)
    requires BoxAround(a, b, c, d) && b.y >= 0.0 && d.y >= 0.0 && c.x <= 1.0 && RightEdge(d, b) == Some(r)
    requires TopEdge(r, c) == Some(x) && (if d.y <= 1.0 then q == d else TopEdge(d, r) == Some(q))
    ensures LeftAfter([a, b, c, d], 4)
         == if q.x < 0.0 then Found(LeftEdge(q, r)) + [r, x] + Found(LeftEdge(x, q)) else [q, r, x]
  {
    hide ClipEdge;
    hide Encloses;
    hide Convex;
    hide LeftAfter;
    hide LineIntersection;
    ThreePasses(a, b, c, d, r);
    assert [q] + [r] + [x] == [q, r, x];
    PassesOf([a, b, c, d], 3);
    var t := OnRightEdge(d, b, r);
    var u := OnTopEdge(r, c, x);
    LeftPass(q, r, x);
  }

  lemma SparedIsKept(a: Point, b: Point, c: Point, d: Point)
    requires BoxAround(a, b, c, d) && Spared(b, c, d)
    ensures IntersectionArea(Closed([a, b, c, d]), UnitSquare()) > 0.0
  {
    hide LineIntersection;
    hide LeftAfter;
    hide IntersectionArea;
    hide Encloses;
    hide Convex;
    hide Side;
    hide Along;
    var r := RightEdge(d, b).value;
    var x := TopEdge(r, c).value;
    var q := if d.y <= 1.0 then d else TopEdge(d, r).value;
    var t := OnRightEdge(d, b, r);
    var u := OnTopEdge(r, c, x);
    AfterRight(r, c, x, u);
    TopIsLeft(a, b, c, d, r);
    FourPassesOf(a, b, c, d, r, x, q);
    if d.y <= 1.0 {
      KeptFromLeft(a, b, c, d, r, x, u);
    } else {
      var s := OnTopEdge(d, r, q);
      BeforeRight(d, r, q, s);
      LeftTurn(d, r, c, q, s, x, u);
      assert [q, r, x] + [] == [q, r, x];
      AtLeastPositive([a, b, c, d], q, r, x, []);
    }
  }

  lemma KeptFromLeft(a: Point, b: Point, c: Point, d: Point, r: Point, x: Point, u: real)
    requires BoxAround(a, b, c, d) && Side(d, r, c) > 0.0 && x == Along(r, c, u) && u > 0.0
    requires r.x == 1.0 && 0.0 <= r.y <= 1.0 && 0.0 <= d.y <= 1.0
    requires LeftAfter([a, b, c, d], 4) == Found(LeftEdge(d, r)) + [r, x] + Found(LeftEdge(x, d))
    ensures IntersectionArea(Closed([a, b, c, d]), UnitSquare()) > 0.0
  {
    hide LineIntersection;
    hide LeftAfter;
    hide IntersectionArea;
    hide Encloses;
    hide Convex;
    hide Side;
    hide Along;
    LeftEdgeFound(d, r);
    var l, more := LeftEdge(d, r).value, Found(LeftEdge(x, d));
    var s := OnLeftEdge(d, r, l);
    BeforeRight(d, r, l, s);
    LeftTurn(d, r, c, l, s, x, u);
    assert [l] + [r, x] + more == [l, r, x] + more;
    AtLeastPositive([a, b, c, d], l, r, x, more);
  }

  /** Of a box with a corner beyond each side something is left exactly if it is spared. */
  lemma BoxIsKeptExactly(a: Point, b: Point, c: Point, d: Point)
    requires BoxAround(a, b, c, d)
    ensures IntersectionArea(Closed([a, b, c, d]), UnitSquare()) > 0.0 <==> Spared(b, c, d)
  {
    if Spared(b, c, d) { SparedIsKept(a, b, c, d); } else { UnsparedIsLost(a, b, c, d); }
  }

  // --------------------------------------------------------- tilted rectangles

  /** The edge from `p` to `r` is `k` times the vector `(x, y)`. */
  predicate Leads(p: Point, r: Point, x: real, y: real, k: real) { r.x - p.x == k * x && r.y - p.y == k * y }

  /** A rectangle from its lowest corner, counter-clockwise, `l` along the rising direction `u` and `w` across it. */
  predicate TiltedRectangle(a: Point, b: Point, c: Point, d: Point, u: Point, l: real, w: real) {
    && u.x > 0.0 && u.y > 0.0 && l > 0.0 && w > 0.0
    && Leads(a, b, u.x, u.y, l) && Leads(b, c, -u.y, u.x, w)
    && Leads(c, d, -u.x, -u.y, l) && Leads(d, a, u.y, -u.x, w)
  }

  lemma Behind(x: real, y: real, i: real, j: real)
    requires x > 0.0 && y > 0.0 && x * j - y * i > 0.0 && -y * j - x * i > 0.0
    ensures i < 0.0
  {
    Positive(y, x * j - y * i);
    Positive(x, -y * j - x * i);
    assert y * (x * j - y * i) + x * (-y * j - x * i) == -(x * x + y * y) * i;
    LengthPositive(x, y, x * x, y * y, x * x + y * y);
    if i >= 0.0 { NonNegative(x * x + y * y, i); }
  }

  lemma ScaledSign(k: real, x: real)
    requires k > 0.0 && k * x > 0.0
    ensures x > 0.0
  {
    if x < 0.0 { Positive(k, -x); }
    if x == 0.0 { NothingTimes(x, k); }
  }

  /** `q` is on the inner side of the line through `p` in direction `(x, y)`. */
  predicate Beside(p: Point, x: real, y: real, q: Point) { x * (q.y - p.y) - y * (q.x - p.x) > 0.0 }

  /** On the inner side of an edge: the same seen from both of its ends. */
  lemma EdgeSign(p: Point, r: Point, x: real, y: real, k: real, q: Point)
    requires k > 0.0 && Leads(p, r, x, y, k) && Side(p, r, q) > 0.0
    ensures Beside(p, x, y, q) && Beside(r, x, y, q)
  {
    var i, j := q.x - p.x, q.y - p.y;
    assert (r.x - p.x) * j - (r.y - p.y) * i == k * (x * j - y * i);
    ScaledSign(k, x * j - y * i);
    assert x * (j - k * y) - y * (i - k * x) == x * j - y * i;
  }

  /** Inside the right angle at a corner, a point is on the corner's own side. */
  lemma LowestBelow(p: Point, x: real, y: real, q: Point)
    requires x > 0.0 && y > 0.0 && Beside(p, x, y, q) && Beside(p, y, -x, q)
    ensures q.y > p.y
  {
    var i, j := q.x - p.x, q.y - p.y;
    assert y * i == i * y;
    Behind(x, y, -j, i);
  }

  lemma RightmostRight(p: Point, x: real, y: real, q: Point)
    requires x > 0.0 && y > 0.0 && Beside(p, x, y, q) && Beside(p, -y, x, q)
    ensures q.x < p.x
  {
    Behind(x, y, q.x - p.x, q.y - p.y);
  }

  lemma HighestAbove(p: Point, x: real, y: real, q: Point)
    requires x > 0.0 && y > 0.0 && Beside(p, -x, -y, q) && Beside(p, -y, x, q)
    ensures q.y < p.y
  {
    Behind(x, y, q.y - p.y, -(q.x - p.x));
  }

  lemma LeftmostLeft(p: Point, x: real, y: real, q: Point)
    requires x > 0.0 && y > 0.0 && Beside(p, -x, -y, q) && Beside(p, y, -x, q)
    ensures q.x > p.x
  {
    Behind(x, y, -(q.x - p.x), -(q.y - p.y));
  }

  /** A point inside a tilted rectangle is above `a`, left of `b`, below `c` and right of `d`. */
  lemma CornersBeyond(a: Point, b: Point, c: Point, d: Point, u: Point, l: real, w: real, q: Point)
    requires TiltedRectangle(a, b, c, d, u, l, w)
    requires Side(a, b, q) > 0.0 && Side(b, c, q) > 0.0 && Side(c, d, q) > 0.0 && Side(d, a, q) > 0.0
    ensures q.y > a.y && q.x < b.x && q.y < c.y && q.x > d.x
  {
    hide Side;
    hide Leads;
    hide Beside;
    EdgeSign(a, b, u.x, u.y, l, q);
    EdgeSign(b, c, -u.y, u.x, w, q);
    EdgeSign(c, d, -u.x, -u.y, l, q);
    EdgeSign(d, a, u.y, -u.x, w, q);
    LowestBelow(a, u.x, u.y, q);
    RightmostRight(b, u.x, u.y, q);
    HighestAbove(c, u.x, u.y, q);
    LeftmostLeft(d, u.x, u.y, q);
  }

  lemma RightAngleTurns(p: Point, q: Point, r: Point, x: real, y: real, k: real, m: real)
    requires x != 0.0 && y != 0.0 && k > 0.0 && m > 0.0 && Leads(p, q, x, y, k) && Leads(q, r, -y, x, m)
    ensures Side(p, q, r) > 0.0
  {
    var n := x * x + y * y;
    LengthPositive(x, y, x * x, y * y, n);
    Positive(k, m);
    Positive(k * m, n);
    assert (q.x - p.x) * (r.y - q.y) - (q.y - p.y) * (r.x - q.x) == (k * x) * (m * x) - (k * y) * (m * -y) == k * m * n;
  }

  lemma Cyclic(p: Point, q: Point, r: Point)
    ensures Side(p, q, r) == Side(r, p, q)
  {
  }

  lemma TiltedConvex(a: Point, b: Point, c: Point, d: Point, u: Point, l: real, w: real)
    requires TiltedRectangle(a, b, c, d, u, l, w)
    ensures Convex(true, [a, b, c, d])
  {
    hide Side;
    hide Leads;
    RightAngleTurns(a, b, c, u.x, u.y, l, w);
    RightAngleTurns(b, c, d, -u.y, u.x, w, l);
    RightAngleTurns(c, d, a, -u.x, -u.y, l, w);
    RightAngleTurns(d, a, b, u.y, -u.x, w, l);
    Cyclic(c, d, a);
    Cyclic(d, a, b);
    Cyclic(b, d, a);
    Cyclic(a, b, d);
  }

  lemma TiltedIsBoxAround(a: Point, b: Point, c: Point, d: Point, u: Point, l: real, w: real)
    requires TiltedRectangle(a, b, c, d, u, l, w) && Encloses(true, [a, b, c, d], UnitSquare())
    ensures BoxAround(a, b, c, d)
  {
    var s, e := UnitSquare()[0], UnitSquare()[2];
    EnclosedCorner(a, b, c, d, s);
    EnclosedCorner(a, b, c, d, e);
    hide Side;
    hide Encloses;
    hide TiltedRectangle;
    CornersBeyond(a, b, c, d, u, l, w, s);
    CornersBeyond(a, b, c, d, u, l, w, e);
    TiltedConvex(a, b, c, d, u, l, w);
  }

  /** Of a tilted rectangle around the square something is left exactly if it is spared. */
  lemma TiltedIsKeptExactly(a: Point, b: Point, c: Point, d: Point, u: Point, l: real, w: real)
    requires TiltedRectangle(a, b, c, d, u, l, w) && Encloses(true, [a, b, c, d], UnitSquare())
    ensures IntersectionArea(Closed([a, b, c, d]), UnitSquare()) > 0.0 <==> Spared(b, c, d)
  {
    TiltedIsBoxAround(a, b, c, d, u, l, w);
    BoxIsKeptExactly(a, b, c, d);
  }
}
