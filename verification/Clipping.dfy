/**
 * Polygon clipping of the dark-vessel demo, in exact arithmetic: one polygon is
 * clipped by every edge of another.
 */
module Clipping {
  import opened Wrappers

  datatype Point = Point(x: real, y: real)

  /** Below this two directions count as parallel. */
  const EPSILON := 0.000000000001

  function Cross(a: Point, b: Point): real {
    a.x * b.y - a.y * b.x
  }

  function Minus(a: Point, b: Point): Point {
    Point(a.x - b.x, a.y - b.y)
  }

  function Abs(r: real): real {
    if r < 0.0 then -r else r
  }

  /** Positive on the left of the directed edge `s`-`e`, zero on its line. */
  function Side(s: Point, e: Point, p: Point): real {
    (e.x - s.x) * (p.y - s.y) - (e.y - s.y) * (p.x - s.x)
  }

  /** Crossing of the segments p1-p2 and p3-p4: it must lie inside both. */
  function LineIntersection(p1: Point, p2: Point, p3: Point, p4: Point): Option<Point> {
    var d1, d2 := Minus(p2, p1), Minus(p4, p3);
    var cross := Cross(d1, d2);
    if Abs(cross) < EPSILON then None
    else
      var t := Cross(Minus(p3, p1), d2) / cross;
      var u := Cross(Minus(p3, p1), d1) / cross;
      if 0.0 <= t <= 1.0 && 0.0 <= u <= 1.0 then Some(Along(p1, p2, t)) else None
  }

  function Along(p: Point, q: Point, t: real): Point {
    Point(p.x + t * (q.x - p.x), p.y + t * (q.y - p.y))
  }

  /** What one vertex and its successor contribute to the clipped polygon. */
  function Emit(s: Point, e: Point, cur: Point, next: Point): seq<Point> {
    var ix := LineIntersection(cur, next, s, e);
    var hit := if ix.Some? then [ix.value] else [];
    if Side(s, e, cur) >= 0.0 then [cur] + (if Side(s, e, next) < 0.0 then hit else [])
    else if Side(s, e, next) >= 0.0 then hit
    else []
  }

  /** Goes once around a polygon, `n` vertices far, collecting what each pair of neighbours emits. */
  function Around<T>(poly: seq<T>, n: nat, emit: (T, T) -> seq<T>): seq<T>
    requires n <= |poly|
  {
    if n == 0 then [] else Around(poly, n - 1, emit) + emit(poly[n - 1], poly[n % |poly|])
  }

  function ClipEdge(s: Point, e: Point, poly: seq<Point>): seq<Point> {
    Around(poly, |poly|, (cur, next) => Emit(s, e, cur, next))
  }

  /** The open polygon `poly` clipped by the first `n` edges of the closed polygon `clip`. */
  function ClipAll(poly: seq<Point>, clip: seq<Point>, n: nat): seq<Point>
    requires n < |clip| || n == 0
  {
    if n == 0 then poly
    else
      var before := ClipAll(poly, clip, n - 1);
      ClipEdge(clip[n - 1], clip[n], before)
  }

  // ------------------------------------------------------------- affine maps

  datatype Affine = Affine(a: real, b: real, c: real)

  function Value(f: Affine, p: Point): real {
    f.a * p.x + f.b * p.y + f.c
  }

  ghost predicate NonNegativeOn(f: Affine, poly: seq<Point>) {
    forall p <- poly :: Value(f, p) >= 0.0
  }

  function SideOf(s: Point, e: Point): Affine {
    Affine(-(e.y - s.y), e.x - s.x, (e.y - s.y) * s.x - (e.x - s.x) * s.y)
  }

  lemma SideIsAffine(s: Point, e: Point, p: Point)
    ensures Value(SideOf(s, e), p) == Side(s, e, p)
  {
    var dx, dy := e.x - s.x, e.y - s.y;
    assert dx * (p.y - s.y) == dx * p.y - dx * s.y;
    assert dy * (p.x - s.x) == dy * p.x - dy * s.x;
    assert -(e.y - s.y) * p.x == -(dy * p.x);
  }

  lemma AffineAlong(f: Affine, p: Point, q: Point, t: real)
    ensures Value(f, Along(p, q, t)) == (1.0 - t) * Value(f, p) + t * Value(f, q)
  {
    var x, y := Along(p, q, t).x, Along(p, q, t).y;
    assert f.a * x == f.a * p.x + t * (f.a * q.x) - t * (f.a * p.x);
    assert f.b * y == f.b * p.y + t * (f.b * q.y) - t * (f.b * p.y);
    assert t * Value(f, q) == t * (f.a * q.x) + t * (f.b * q.y) + t * f.c;
    assert t * Value(f, p) == t * (f.a * p.x) + t * (f.b * p.y) + t * f.c;
    assert (1.0 - t) * Value(f, p) == Value(f, p) - t * Value(f, p);
  }

  /** A crossing is between the two ends, and exactly on the clip line. */
  lemma CrossingIsBetween(p1: Point, p2: Point, p3: Point, p4: Point, f: Affine)
    requires LineIntersection(p1, p2, p3, p4).Some?
    ensures var ix := LineIntersection(p1, p2, p3, p4).value;
            && (Value(f, p1) >= 0.0 && Value(f, p2) >= 0.0 ==> Value(f, ix) >= 0.0)
            && Side(p3, p4, ix) == 0.0
  {
    var d1, d2 := Minus(p2, p1), Minus(p4, p3);
    var cross := Cross(d1, d2);
    var num := Cross(Minus(p3, p1), d2);
    var t := num / cross;
    assert t * cross == num;
    AffineAlong(f, p1, p2, t);
    if Value(f, p1) >= 0.0 && Value(f, p2) >= 0.0 {
      assert (1.0 - t) * Value(f, p1) >= 0.0;
      assert t * Value(f, p2) >= 0.0;
    }
    CrossingOnLine(p1, p2, p3, p4, t);
  }

  lemma CrossingOnLine(p1: Point, p2: Point, p3: Point, p4: Point, t: real)
    requires t * Cross(Minus(p2, p1), Minus(p4, p3)) == Cross(Minus(p3, p1), Minus(p4, p3))
    ensures Side(p3, p4, Along(p1, p2, t)) == 0.0
  {
    var d1x, d1y, d2x, d2y := p2.x - p1.x, p2.y - p1.y, p4.x - p3.x, p4.y - p3.y;
    var p := Along(p1, p2, t);
    assert d2x * (p.y - p3.y) == d2x * (p1.y - p3.y) + t * (d2x * d1y);
    assert d2y * (p.x - p3.x) == d2y * (p1.x - p3.x) + t * (d2y * d1x);
    assert t * (d1x * d2y - d1y * d2x) == t * (d2y * d1x) - t * (d2x * d1y);
    assert (p3.x - p1.x) * d2y == -(d2y * (p1.x - p3.x));
    assert (p3.y - p1.y) * d2x == -(d2x * (p1.y - p3.y));
  }

  // ------------------------------------------------------------- containment

  lemma EmitContained(s: Point, e: Point, cur: Point, next: Point, f: Affine, p: Point)
    requires p in Emit(s, e, cur, next)
    ensures Side(s, e, p) >= 0.0
    ensures Value(f, cur) >= 0.0 && Value(f, next) >= 0.0 ==> Value(f, p) >= 0.0
  {
    if p != cur {
      CrossingIsBetween(cur, next, s, e, f);
    } else if Side(s, e, cur) < 0.0 {
      CrossingIsBetween(cur, next, s, e, f);
    }
  }

  lemma {:induction false} EmittedSomewhere<T>(poly: seq<T>, n: nat, emit: (T, T) -> seq<T>, p: T) returns (k: nat)
    requires n <= |poly| && p in Around(poly, n, emit)
    ensures k < n && p in emit(poly[k], poly[(k + 1) % |poly|])
  {
    if p in Around(poly, n - 1, emit) {
      k := EmittedSomewhere(poly, n - 1, emit, p);
    } else {
      k := n - 1;
    }
  }

  lemma {:induction false} EmittedStays<T>(poly: seq<T>, n: nat, emit: (T, T) -> seq<T>, k: nat, p: T)
    requires k < n <= |poly| && p in emit(poly[k], poly[(k + 1) % |poly|])
    ensures p in Around(poly, n, emit)
  {
    if k < n - 1 { EmittedStays(poly, n - 1, emit, k, p); }
  }

  lemma ClipEdgeContained(s: Point, e: Point, poly: seq<Point>, f: Affine, p: Point)
    requires p in ClipEdge(s, e, poly)
    ensures Side(s, e, p) >= 0.0
    ensures NonNegativeOn(f, poly) ==> Value(f, p) >= 0.0
  {
    var k := EmittedSomewhere(poly, |poly|, (cur, next) => Emit(s, e, cur, next), p);
    EmitContained(s, e, poly[k], poly[(k + 1) % |poly|], f, p);
  }

  /**
   * Containment, through all passes: an affine map that is non-negative on the
   * subject polygon is so on the clipped one, whose vertices all lie on the
   * non-negative side of every clip edge.
   */
  lemma {:induction false} ClipContained(poly: seq<Point>, clip: seq<Point>, n: nat, f: Affine)
    requires n < |clip| || n == 0
    ensures NonNegativeOn(f, poly) ==> NonNegativeOn(f, ClipAll(poly, clip, n))
    ensures forall i :: 0 <= i < n ==> forall p <- ClipAll(poly, clip, n) :: Side(clip[i], clip[i + 1], p) >= 0.0
    decreases n
  {
    if n > 0 {
      var before := ClipAll(poly, clip, n - 1);
      ClipContained(poly, clip, n - 1, f);
      forall p <- ClipAll(poly, clip, n)
        ensures NonNegativeOn(f, poly) ==> Value(f, p) >= 0.0
        ensures forall i :: 0 <= i < n ==> Side(clip[i], clip[i + 1], p) >= 0.0
      {
        ClipEdgeContained(clip[n - 1], clip[n], before, f, p);
        forall i | 0 <= i < n ensures Side(clip[i], clip[i + 1], p) >= 0.0 {
          if i < n - 1 {
            var side := SideOf(clip[i], clip[i + 1]);
            forall q <- before ensures Value(side, q) >= 0.0 { SideIsAffine(clip[i], clip[i + 1], q); }
            ClipEdgeContained(clip[n - 1], clip[n], before, side, p);
            SideIsAffine(clip[i], clip[i + 1], p);
          }
        }
      }
    }
  }

  lemma ClipEdgeRetains(s: Point, e: Point, poly: seq<Point>, k: nat)
    requires k < |poly| && Side(s, e, poly[k]) >= 0.0
    ensures poly[k] in ClipEdge(s, e, poly)
  {
    EmittedStays(poly, |poly|, (cur, next) => Emit(s, e, cur, next), k, poly[k]);
  }

  /** No vertex of the subject polygon inside all clip edges is ever lost. */
  lemma {:induction false} ClipRetains(poly: seq<Point>, clip: seq<Point>, n: nat, p: Point)
    requires n < |clip| || n == 0
    requires p in poly && forall i :: 0 <= i < n ==> Side(clip[i], clip[i + 1], p) >= 0.0
    ensures p in ClipAll(poly, clip, n)
    decreases n
  {
    if n > 0 {
      ClipRetains(poly, clip, n - 1, p);
      var before := ClipAll(poly, clip, n - 1);
      var k :| 0 <= k < |before| && before[k] == p;
      ClipEdgeRetains(clip[n - 1], clip[n], before, k);
    }
  }

  /** Subject vertices survive exactly when they lie inside every clip edge. */
  lemma VertexSurvivesExactly(poly: seq<Point>, clip: seq<Point>, n: nat, p: Point)
    requires (n < |clip| || n == 0) && p in poly
    ensures p in ClipAll(poly, clip, n) <==> forall i :: 0 <= i < n ==> Side(clip[i], clip[i + 1], p) >= 0.0
  {
    ClipContained(poly, clip, n, Affine(0.0, 0.0, 0.0));
    if forall i :: 0 <= i < n ==> Side(clip[i], clip[i + 1], p) >= 0.0 { ClipRetains(poly, clip, n, p); }
  }

  // -------------------------------------------- crossings, and boundary order

  /** The two segments share the point at `t` along the first and `u` along the second. */
  ghost predicate MeetAt(p1: Point, p2: Point, p3: Point, p4: Point, t: real, u: real) {
    && 0.0 <= t <= 1.0 && 0.0 <= u <= 1.0
    && Along(p1, p2, t) == Along(p3, p4, u)
  }

  lemma MeetingGivesCrosses(p1: Point, p2: Point, p3: Point, p4: Point, t: real, u: real)
    requires Along(p1, p2, t) == Along(p3, p4, u)
    ensures t * Cross(Minus(p2, p1), Minus(p4, p3)) == Cross(Minus(p3, p1), Minus(p4, p3))
    ensures u * Cross(Minus(p2, p1), Minus(p4, p3)) == Cross(Minus(p3, p1), Minus(p2, p1))
  {
    var aX, aY, bX, bY := p2.x - p1.x, p2.y - p1.y, p4.x - p3.x, p4.y - p3.y;
    var dx, dy := p3.x - p1.x, p3.y - p1.y;
    assert dx == t * aX - u * bX && dy == t * aY - u * bY;
    assert dx * bY == t * (aX * bY) - u * (bX * bY) && dy * bX == t * (aY * bX) - u * (bY * bX);
    assert dx * aY == t * (aX * aY) - u * (bX * aY) && dy * aX == t * (aY * aX) - u * (bY * aX);
    assert t * (aX * bY - aY * bX) == t * (aX * bY) - t * (aY * bX);
    assert u * (aX * bY - aY * bX) == u * (aX * bY) - u * (aY * bX);
  }

  lemma Solves(k: real, cross: real, num: real)
    requires k * cross == num && cross != 0.0
    ensures num / cross == k
  {
  }

  lemma CrossesGiveMeeting(p1: Point, p2: Point, p3: Point, p4: Point, t: real, u: real)
    requires Cross(Minus(p2, p1), Minus(p4, p3)) != 0.0
    requires t * Cross(Minus(p2, p1), Minus(p4, p3)) == Cross(Minus(p3, p1), Minus(p4, p3))
    requires u * Cross(Minus(p2, p1), Minus(p4, p3)) == Cross(Minus(p3, p1), Minus(p2, p1))
    ensures Along(p1, p2, t) == Along(p3, p4, u)
  {
    var aX, aY, bX, bY := p2.x - p1.x, p2.y - p1.y, p4.x - p3.x, p4.y - p3.y;
    Cramer(aX, aY, bX, bY, p3.x - p1.x, p3.y - p1.y, t, u);
  }

  lemma Cramer(aX: real, aY: real, bX: real, bY: real, dx: real, dy: real, t: real, u: real)
    requires aX * bY - aY * bX != 0.0
    requires t * (aX * bY - aY * bX) == dx * bY - dy * bX
    requires u * (aX * bY - aY * bX) == dx * aY - dy * aX
    ensures t * aX - u * bX == dx && t * aY - u * bY == dy
  {
    var c := aX * bY - aY * bX;
    assert (t * aX - u * bX) * c == (t * c) * aX - (u * c) * bX == dx * c;
    CancelFactor(c, t * aX - u * bX, dx);
    assert (t * aY - u * bY) * c == (t * c) * aY - (u * c) * bY == dy * c;
    CancelFactor(c, t * aY - u * bY, dy);
  }

  lemma CancelFactor(c: real, a: real, b: real)
    requires c != 0.0 && a * c == b * c
    ensures a == b
  {
    assert (a - b) * c == 0.0;
  }

  /** A crossing is found exactly for non-parallel segments that share a point, and it is that point. */
  lemma CrossingIsSharedPoint(p1: Point, p2: Point, p3: Point, p4: Point)
    ensures LineIntersection(p1, p2, p3, p4).Some?
      <==> Abs(Cross(Minus(p2, p1), Minus(p4, p3))) >= EPSILON && exists t, u :: MeetAt(p1, p2, p3, p4, t, u)
    ensures LineIntersection(p1, p2, p3, p4).Some? ==>
      exists t, u :: MeetAt(p1, p2, p3, p4, t, u) && LineIntersection(p1, p2, p3, p4).value == Along(p1, p2, t)
  {
    var d1, d2 := Minus(p2, p1), Minus(p4, p3);
    var cross := Cross(d1, d2);
    if Abs(cross) >= EPSILON {
      var t, u := Cross(Minus(p3, p1), d2) / cross, Cross(Minus(p3, p1), d1) / cross;
      CrossesGiveMeeting(p1, p2, p3, p4, t, u);
      if 0.0 <= t <= 1.0 && 0.0 <= u <= 1.0 {
        assert MeetAt(p1, p2, p3, p4, t, u);
      }
      forall v, w | MeetAt(p1, p2, p3, p4, v, w) ensures v == t && w == u {
        MeetingGivesCrosses(p1, p2, p3, p4, v, w);
        Solves(v, cross, Cross(Minus(p3, p1), d2));
        Solves(w, cross, Cross(Minus(p3, p1), d1));
      }
    }
  }

  /** An edge that changes sides contributes its crossing whenever one is found. */
  lemma CrossingIsEmitted(s: Point, e: Point, poly: seq<Point>, k: nat)
    requires k < |poly|
    requires var cur, next := poly[k], poly[(k + 1) % |poly|];
             (Side(s, e, cur) >= 0.0) != (Side(s, e, next) >= 0.0) && LineIntersection(cur, next, s, e).Some?
    ensures LineIntersection(poly[k], poly[(k + 1) % |poly|], s, e).value in ClipEdge(s, e, poly)
  {
    var cur, next := poly[k], poly[(k + 1) % |poly|];
    EmittedStays(poly, |poly|, (c, x) => Emit(s, e, c, x), k, LineIntersection(cur, next, s, e).value);
  }

  /** `out` visits points of the first `n` edges of `poly` in the order of the boundary. */
  ghost predicate FollowsBoundary(poly: seq<Point>, n: nat, out: seq<Point>, at: seq<nat>, t: seq<real>)
    requires n <= |poly|
  {
    && |at| == |t| == |out|
    && (forall i :: 0 <= i < |out| ==> at[i] < n && 0.0 <= t[i] <= 1.0
                                       && out[i] == Along(poly[at[i]], poly[(at[i] + 1) % |poly|], t[i]))
    && forall i, j :: 0 <= i < j < |out| ==> at[i] < at[j] || (at[i] == at[j] && t[i] <= t[j])
  }

  lemma EmitInOrder(s: Point, e: Point, cur: Point, next: Point) returns (t: seq<real>)
    ensures var out := Emit(s, e, cur, next);
            && |t| == |out| <= 2
            && (forall i :: 0 <= i < |out| ==> 0.0 <= t[i] <= 1.0 && out[i] == Along(cur, next, t[i]))
            && (|out| == 2 ==> t[0] <= t[1])
  {
    var ix := LineIntersection(cur, next, s, e);
    var at := 0.0;
    if ix.Some? {
      CrossingIsSharedPoint(cur, next, s, e);
      var v, w :| MeetAt(cur, next, s, e, v, w) && ix.value == Along(cur, next, v);
      at := v;
    }
    if Side(s, e, cur) >= 0.0 {
      t := if Side(s, e, next) < 0.0 && ix.Some? then [0.0, at] else [0.0];
    } else {
      t := if Side(s, e, next) >= 0.0 && ix.Some? then [at] else [];
    }
  }

  lemma BoundaryGrows(poly: seq<Point>, n: nat, out: seq<Point>, at: seq<nat>, t: seq<real>,
                      points: seq<Point>, more: seq<real>)
    requires 0 < n <= |poly| && FollowsBoundary(poly, n - 1, out, at, t) && |points| == |more| <= 2
    requires forall i :: 0 <= i < |points| ==>
                           0.0 <= more[i] <= 1.0 && points[i] == Along(poly[n - 1], poly[n % |poly|], more[i])
    requires |points| == 2 ==> more[0] <= more[1]
    ensures FollowsBoundary(poly, n, out + points, at + seq(|more|, _ => n - 1), t + more)
  {
    hide Along;
  }

  /** One clipping pass walks the boundary of its input in order. */
  lemma {:induction false} ClipFollowsBoundary(s: Point, e: Point, poly: seq<Point>, n: nat)
    returns (at: seq<nat>, t: seq<real>)
    requires n <= |poly|
    ensures FollowsBoundary(poly, n, Around(poly, n, (c, x) => Emit(s, e, c, x)), at, t)
  {
    if n == 0 {
      at, t := [], [];
    } else {
      at, t := ClipFollowsBoundary(s, e, poly, n - 1);
      var cur, next := poly[n - 1], poly[n % |poly|];
      var more := EmitInOrder(s, e, cur, next);
      BoundaryGrows(poly, n, Around(poly, n - 1, (c, x) => Emit(s, e, c, x)), at, t, Emit(s, e, cur, next), more);
      at, t := at + seq(|more|, _ => n - 1), t + more;
    }
  }

  // -------------------------------------------------------------------- area

  function CrossSum(poly: seq<Point>, n: nat): real
    requires n < |poly| || n == 0
  {
    if n == 0 then 0.0 else CrossSum(poly, n - 1) + Cross(poly[n - 1], poly[n])
  }

  function Shoelace(poly: seq<Point>): real {
    if |poly| < 4 then 0.0 else Abs(CrossSum(poly, |poly| - 1)) / 2.0
  }

  function Shift(poly: seq<Point>, d: Point): seq<Point> {
    seq(|poly|, i requires 0 <= i < |poly| => Point(poly[i].x + d.x, poly[i].y + d.y))
  }

  lemma CrossShift(a: Point, b: Point, d: Point, o: Point)
    ensures Cross(Point(a.x + d.x, a.y + d.y), Point(b.x + d.x, b.y + d.y)) + Cross(d, Minus(a, o))
         == Cross(a, b) + Cross(d, Minus(b, o))
  {
    assert (a.x + d.x) * (b.y + d.y) == a.x * b.y + a.x * d.y + d.x * b.y + d.x * d.y;
    assert (a.y + d.y) * (b.x + d.x) == a.y * b.x + a.y * d.x + d.y * b.x + d.y * d.x;
    assert d.x * (a.y - o.y) == d.x * a.y - d.x * o.y && d.y * (a.x - o.x) == d.y * a.x - d.y * o.x;
    assert d.x * (b.y - o.y) == d.x * b.y - d.x * o.y && d.y * (b.x - o.x) == d.y * b.x - d.y * o.x;
  }

  lemma {:induction false} CrossSumShift(poly: seq<Point>, d: Point, n: nat)
    requires n < |poly|
    ensures CrossSum(Shift(poly, d), n) == CrossSum(poly, n) + Cross(d, Minus(poly[n], poly[0]))
    decreases n
  {
    if n > 0 {
      CrossSumShift(poly, d, n - 1);
      CrossShift(poly[n - 1], poly[n], d, poly[0]);
    }
  }

  /** The area of a closed polygon does not depend on where it lies. */
  lemma AreaShift(poly: seq<Point>, d: Point)
    requires poly != [] && poly[0] == poly[|poly| - 1]
    ensures Shoelace(Shift(poly, d)) == Shoelace(poly)
  {
    CrossSumShift(poly, d, |poly| - 1);
  }

  method ShoelaceArea(poly: seq<Point>) returns (area: real)
    ensures area == Shoelace(poly)
  {
    if |poly| < 4 { return 0.0; }
    area := 0.0;
    for i := 0 to |poly| - 1
      invariant area == CrossSum(poly, i)
    {
      area := area + (poly[i].x * poly[i + 1].y - poly[i + 1].x * poly[i].y);
    }
    area := Abs(area) / 2.0;
  }

  function Open(poly: seq<Point>): seq<Point> {
    if poly == [] then [] else poly[..|poly| - 1]
  }

  function Clipped(a: seq<Point>, b: seq<Point>): seq<Point> {
    ClipAll(Open(a), b, if b == [] then 0 else |b| - 1)
  }

  function IntersectionArea(a: seq<Point>, b: seq<Point>): real {
    var c := Clipped(a, b);
    if |c| < 3 then 0.0 else Shoelace(c + [c[0]])
  }

  lemma {:induction false} EmptyStaysEmpty(poly: seq<Point>, clip: seq<Point>, m: nat, n: nat)
    requires m <= n && (n < |clip| || n == 0)
    requires ClipAll(poly, clip, m) == []
    ensures ClipAll(poly, clip, n) == []
    decreases n
  {
    if m < n { EmptyStaysEmpty(poly, clip, m, n - 1); }
  }

  /** The body of the inner loop. */
  method EmitVertices(s: Point, e: Point, cur: Point, next: Point) returns (emitted: seq<Point>)
    ensures emitted == Emit(s, e, cur, next)
  {
    emitted := [];
    if Side(s, e, cur) >= 0.0 {
      emitted := [cur];
      if Side(s, e, next) < 0.0 {
        var ix := LineIntersection(cur, next, s, e);
        if ix.Some? { emitted := emitted + [ix.value]; }
      }
    } else if Side(s, e, next) >= 0.0 {
      var ix := LineIntersection(cur, next, s, e);
      if ix.Some? { emitted := [ix.value]; }
    }
  }

  method PolygonIntersectionArea(a: seq<Point>, b: seq<Point>) returns (area: real)
    ensures area == IntersectionArea(a, b)
  {
    var output := Open(a);
    var edges := if b == [] then 0 else |b| - 1;
    for i := 0 to edges
      invariant output == ClipAll(Open(a), b, i)
    {
      if output == [] {
        EmptyStaysEmpty(Open(a), b, i, edges);
        return 0.0;
      }
      var s, e, input := b[i], b[i + 1], output;
      ghost var emit := (cur, next) => Emit(s, e, cur, next);
      output := [];
      for j := 0 to |input|
        invariant output == Around(input, j, emit)
      {
        var cur, next := input[j], input[(j + 1) % |input|];
        var emitted := EmitVertices(s, e, cur, next);
        assert emitted == emit(cur, next);
        output := output + emitted;
      }
    }
    if |output| < 3 { return 0.0; }
    area := ShoelaceArea(output + [output[0]]);
  }
}
