/**
 * When a clipping pass is what it is meant to be: clipping by the whole line through a
 * clip edge, although only crossings inside that edge's segment are kept.
 */
module LineClipping {
  import opened Wrappers
  import opened Clipping

  /** Where the line through `s` and `e` cuts the edge from `cur` to `next`. */
  function CutAt(s: Point, e: Point, cur: Point, next: Point): real
    requires Side(s, e, cur) != Side(s, e, next)
  {
    Side(s, e, cur) / (Side(s, e, cur) - Side(s, e, next))
  }

  predicate ChangesSide(s: Point, e: Point, cur: Point, next: Point) {
    (Side(s, e, cur) >= 0.0) != (Side(s, e, next) >= 0.0)
  }

  /** What a vertex and its successor contribute when the whole line cuts. */
  function LineEmit(s: Point, e: Point, cur: Point, next: Point): seq<Point> {
    (if Side(s, e, cur) >= 0.0 then [cur] else [])
    + if ChangesSide(s, e, cur, next) then [Along(cur, next, CutAt(s, e, cur, next))] else []
  }

  function LinePass(s: Point, e: Point, poly: seq<Point>): seq<Point> {
    Around(poly, |poly|, (cur, next) => LineEmit(s, e, cur, next))
  }

  function LineClipAll(poly: seq<Point>, clip: seq<Point>, n: nat): seq<Point>
    requires n < |clip| || n == 0
  {
    if n == 0 then poly else LinePass(clip[n - 1], clip[n], LineClipAll(poly, clip, n - 1))
  }

  lemma SideAlong(s: Point, e: Point, cur: Point, next: Point, t: real)
    ensures Side(s, e, Along(cur, next, t)) == Side(s, e, cur) - t * (Side(s, e, cur) - Side(s, e, next))
  {
    var f := SideOf(s, e);
    AffineAlong(f, cur, next, t);
    SideIsAffine(s, e, cur);
    SideIsAffine(s, e, next);
    SideIsAffine(s, e, Along(cur, next, t));
    assert (1.0 - t) * Side(s, e, cur) == Side(s, e, cur) - t * Side(s, e, cur);
  }

  lemma Positive(x: real, y: real)
    requires x > 0.0 && y > 0.0
    ensures x * y > 0.0
  {
  }

  lemma OneLess(q: real, d: real)
    ensures (q - 1.0) * d == q * d - d
  {
  }

  lemma UnitFactor(q: real, d: real, a: real)
    requires d > 0.0 && q * d == a && 0.0 <= a <= d
    ensures 0.0 <= q <= 1.0
  {
    OneLess(q, d);
    if q < 0.0 { Positive(-q, d); }
    if q > 1.0 { Positive(q - 1.0, d); }
  }

  lemma QuotientInUnit(a: real, b: real)
    requires (a >= 0.0) != (b >= 0.0)
    ensures 0.0 <= a / (a - b) <= 1.0 && (a / (a - b)) * (a - b) == a
  {
    var q := a / (a - b);
    assert q * (a - b) == a;
    if a >= 0.0 {
      UnitFactor(q, a - b, a);
    } else {
      assert q * (b - a) == -(q * (a - b));
      UnitFactor(q, b - a, -a);
    }
  }

  /** An edge that changes sides is cut in exactly one point of it. */
  lemma CutExactly(s: Point, e: Point, cur: Point, next: Point, t: real)
    requires ChangesSide(s, e, cur, next)
    ensures 0.0 <= CutAt(s, e, cur, next) <= 1.0
    ensures Side(s, e, Along(cur, next, t)) == 0.0 <==> t == CutAt(s, e, cur, next)
  {
    var a, b := Side(s, e, cur), Side(s, e, next);
    QuotientInUnit(a, b);
    SideAlong(s, e, cur, next, t);
    if t * (a - b) == a { Solves(t, a - b, a); }
  }

  /** A crossing that is found is where the line cuts. */
  lemma FoundIsCut(s: Point, e: Point, cur: Point, next: Point)
    requires ChangesSide(s, e, cur, next) && LineIntersection(cur, next, s, e).Some?
    ensures LineIntersection(cur, next, s, e).value == Along(cur, next, CutAt(s, e, cur, next))
  {
    var cross := Cross(Minus(next, cur), Minus(e, s));
    var t := Cross(Minus(s, cur), Minus(e, s)) / cross;
    CrossingIsBetween(cur, next, s, e, SideOf(s, e));
    CutExactly(s, e, cur, next, t);
  }

  /** For one edge: the same vertices, unless a crossing is missed, and then fewer. */
  lemma EmitAgainstLine(s: Point, e: Point, cur: Point, next: Point)
    ensures if ChangesSide(s, e, cur, next) && LineIntersection(cur, next, s, e).None?
            then |Emit(s, e, cur, next)| < |LineEmit(s, e, cur, next)|
            else Emit(s, e, cur, next) == LineEmit(s, e, cur, next)
  {
    if ChangesSide(s, e, cur, next) && LineIntersection(cur, next, s, e).Some? { FoundIsCut(s, e, cur, next); }
  }

  /** The vertex after vertex `k`. */
  function Following<T>(poly: seq<T>, k: nat): T
    requires k < |poly|
  {
    poly[(k + 1) % |poly|]
  }

  /** At the first `n` vertices `f` emits what `g` does, or less. */
  ghost predicate FallsShort<T>(poly: seq<T>, n: nat, f: (T, T) -> seq<T>, g: (T, T) -> seq<T>)
    requires n <= |poly|
  {
    forall k: nat :: k < n ==>
      var x, y := poly[k], Following(poly, k);
      f(x, y) == g(x, y) || |f(x, y)| < |g(x, y)|
  }

  ghost predicate EmitAlike<T>(poly: seq<T>, n: nat, f: (T, T) -> seq<T>, g: (T, T) -> seq<T>)
    requires n <= |poly|
  {
    forall k: nat :: k < n ==> f(poly[k], Following(poly, k)) == g(poly[k], Following(poly, k))
  }

  lemma ConcatAgrees<T>(a: seq<T>, x: seq<T>, c: seq<T>, y: seq<T>)
    requires (a == c || |a| < |c|) && (x == y || |x| < |y|)
    ensures a + x == c + y || |a + x| < |c + y|
    ensures a + x == c + y <==> a == c && x == y
  {
    if a + x == c + y { assert |a + x| == |c + y|; }
  }

  lemma AgreeNext<T>(poly: seq<T>, n: nat, f: (T, T) -> seq<T>, g: (T, T) -> seq<T>)
    requires 0 < n <= |poly| && FallsShort(poly, n, f, g)
    ensures var x, y := poly[n - 1], Following(poly, n - 1);
            && FallsShort(poly, n - 1, f, g) && (f(x, y) == g(x, y) || |f(x, y)| < |g(x, y)|)
            && (EmitAlike(poly, n, f, g) <==> EmitAlike(poly, n - 1, f, g) && f(x, y) == g(x, y))
  {
  }

  /** Once around: two ways of emitting that agree or fall short agree overall exactly if they agree everywhere. */
  lemma {:induction false} AroundAgrees<T>(poly: seq<T>, n: nat, f: (T, T) -> seq<T>, g: (T, T) -> seq<T>)
    requires n <= |poly| && FallsShort(poly, n, f, g)
    ensures Around(poly, n, f) == Around(poly, n, g) || |Around(poly, n, f)| < |Around(poly, n, g)|
    ensures Around(poly, n, f) == Around(poly, n, g) <==> EmitAlike(poly, n, f, g)
  {
    if n > 0 {
      AgreeNext(poly, n, f, g);
      var x, y := poly[n - 1], Following(poly, n - 1);
      assert Around(poly, n, f) == Around(poly, n - 1, f) + f(x, y);
      assert Around(poly, n, g) == Around(poly, n - 1, g) + g(x, y);
      hide *;
      AroundAgrees(poly, n - 1, f, g);
      ConcatAgrees(Around(poly, n - 1, f), f(x, y), Around(poly, n - 1, g), g(x, y));
    }
  }

  /** Every edge of `poly` that changes sides meets the segment from `s` to `e`. */
  ghost predicate EveryCrossingFound(s: Point, e: Point, poly: seq<Point>) {
    forall k: nat :: k < |poly| && ChangesSide(s, e, poly[k], Following(poly, k)) ==>
      LineIntersection(poly[k], Following(poly, k), s, e).Some?
  }

  /** A pass clips by the whole line exactly if every crossing of that line lies in the clip edge's segment. */
  lemma PassIsLineClipExactly(s: Point, e: Point, poly: seq<Point>)
    ensures ClipEdge(s, e, poly) == LinePass(s, e, poly) <==> EveryCrossingFound(s, e, poly)
  {
    var f, g := (cur, next) => Emit(s, e, cur, next), (cur, next) => LineEmit(s, e, cur, next);
    forall k: nat | k < |poly|
      ensures var x, y := poly[k], Following(poly, k);
              if ChangesSide(s, e, x, y) && LineIntersection(x, y, s, e).None? then |f(x, y)| < |g(x, y)|
                  else f(x, y) == g(x, y)
    {
      EmitAgainstLine(s, e, poly[k], Following(poly, k));
    }
    AroundAgrees(poly, |poly|, f, g);
  }

  /** The polygon after each of the first `n` passes is the line-clipped one. */
  ghost predicate LineClips(poly: seq<Point>, clip: seq<Point>, n: nat)
    requires n < |clip| || n == 0
  {
    forall k: nat :: k <= n ==> ClipAll(poly, clip, k) == LineClipAll(poly, clip, k)
  }

  /** None of the first `n` passes misses a crossing. */
  ghost predicate NothingMissed(poly: seq<Point>, clip: seq<Point>, n: nat)
    requires n < |clip| || n == 0
  {
    forall k: nat :: k < n ==> EveryCrossingFound(clip[k], clip[k + 1], ClipAll(poly, clip, k))
  }

  lemma LineClipsNext(poly: seq<Point>, clip: seq<Point>, n: nat)
    requires 0 < n < |clip|
    ensures LineClips(poly, clip, n) <==>
              LineClips(poly, clip, n - 1) && ClipAll(poly, clip, n) == LineClipAll(poly, clip, n)
    ensures NothingMissed(poly, clip, n) <==>
              NothingMissed(poly, clip, n - 1) && EveryCrossingFound(clip[n - 1], clip[n], ClipAll(poly, clip, n - 1))
  {
  }

  /** Through all passes: after each of them the polygon is the line-clipped one exactly if none misses a crossing. */
  lemma {:induction false} PassesAreLineClipsExactly(poly: seq<Point>, clip: seq<Point>, n: nat)
    requires n < |clip| || n == 0
    ensures LineClips(poly, clip, n) <==> NothingMissed(poly, clip, n)
    decreases n
  {
    if n == 0 {
      assert ClipAll(poly, clip, 0) == LineClipAll(poly, clip, 0);
    } else {
      PassesAreLineClipsExactly(poly, clip, n - 1);
      LineClipsNext(poly, clip, n);
      PassIsLineClipExactly(clip[n - 1], clip[n], ClipAll(poly, clip, n - 1));
    }
  }

  // ------------------------------------------- conditions on the two polygons only

  function Dot(a: Point, b: Point): real { a.x * b.x + a.y * b.y }

  /** Between the two perpendiculars at the ends of a clip edge. */
  predicate InStrip(s: Point, e: Point, p: Point) {
    0.0 <= Dot(Minus(p, s), Minus(e, s)) <= Dot(Minus(e, s), Minus(e, s))
  }

  /** How far along the clip edge a point stands, as an affine map, and how far before its end. */
  function Ahead(s: Point, e: Point): Affine {
    var d := Minus(e, s);
    Affine(d.x, d.y, -Dot(s, d))
  }

  function Short(s: Point, e: Point): Affine {
    var d := Minus(e, s);
    Affine(-d.x, -d.y, Dot(s, d) + Dot(d, d))
  }

  lemma StripIsAffine(s: Point, e: Point, p: Point)
    ensures Value(Ahead(s, e), p) == Dot(Minus(p, s), Minus(e, s))
    ensures Value(Short(s, e), p) == Dot(Minus(e, s), Minus(e, s)) - Dot(Minus(p, s), Minus(e, s))
  {
    var d := Minus(e, s);
    assert (p.x - s.x) * d.x == d.x * p.x - s.x * d.x && (p.y - s.y) * d.y == d.y * p.y - s.y * d.y;
  }

  lemma InStripExactly(s: Point, e: Point, p: Point)
    ensures InStrip(s, e, p) <==> Value(Ahead(s, e), p) >= 0.0 && Value(Short(s, e), p) >= 0.0
  {
    hide Value;
    hide Dot;
    StripIsAffine(s, e, p);
  }

  lemma StripAlong(s: Point, e: Point, p: Point, q: Point, t: real)
    requires InStrip(s, e, p) && InStrip(s, e, q) && 0.0 <= t <= 1.0
    ensures InStrip(s, e, Along(p, q, t))
  {
    hide InStrip;
    hide Value;
    hide Along;
    InStripExactly(s, e, p);
    InStripExactly(s, e, q);
    InStripExactly(s, e, Along(p, q, t));
    BetweenValues(Ahead(s, e), p, q, t);
    BetweenValues(Short(s, e), p, q, t);
  }

  lemma BetweenValues(f: Affine, p: Point, q: Point, t: real)
    requires Value(f, p) >= 0.0 && Value(f, q) >= 0.0 && 0.0 <= t <= 1.0
    ensures Value(f, Along(p, q, t)) >= 0.0
  {
    AffineAlong(f, p, q, t);
    hide Value;
    hide Along;
    NonNegative(1.0 - t, Value(f, p));
    NonNegative(t, Value(f, q));
  }

  lemma NonNegative(x: real, y: real)
    requires x >= 0.0 && y >= 0.0
    ensures x * y >= 0.0
  {
  }

  /** A point of the line within the strip is a point of the edge. */
  lemma OnEdge(s: Point, e: Point, p: Point) returns (u: real)
    requires s != e && Side(s, e, p) == 0.0 && InStrip(s, e, p)
    ensures 0.0 <= u <= 1.0 && p == Along(s, e, u)
  {
    u := ProjectedOn(e.x - s.x, e.y - s.y, p.x - s.x, p.y - s.y);
  }

  lemma ProjectedOn(d0: real, d1: real, w0: real, w1: real) returns (u: real)
    requires (d0 != 0.0 || d1 != 0.0) && d0 * w1 - d1 * w0 == 0.0
    requires 0.0 <= w0 * d0 + w1 * d1 <= d0 * d0 + d1 * d1
    ensures 0.0 <= u <= 1.0 && w0 == u * d0 && w1 == u * d1
  {
    var a, b, at := d0 * d0, d1 * d1, w0 * d0 + w1 * d1;
    var len := a + b;
    LengthPositive(d0, d1, a, b, len);
    u := QuotientOf(at, len);
    Projected(d0, d1, w0, w1, u, len, at);
  }

  lemma QuotientOf(a: real, d: real) returns (u: real)
    requires d > 0.0 && 0.0 <= a <= d
    ensures u * d == a && 0.0 <= u <= 1.0
  {
    u := a / d;
    assert u * d == a;
    UnitFactor(u, d, a);
  }

  lemma SameSign(x: real, y: real, s: real)
    requires ((x > 0.0 && y > 0.0) || (x < 0.0 && y < 0.0)) && s == x * y
    ensures s > 0.0
  {
  }

  lemma Square(x: real, s: real)
    requires s == x * x
    ensures s >= 0.0 && (x != 0.0 ==> s > 0.0)
  {
    if x > 0.0 || x < 0.0 { SameSign(x, x, s); }
  }

  lemma LengthPositive(x: real, y: real, a: real, b: real, len: real)
    requires (x != 0.0 || y != 0.0) && a == x * x && b == y * y && len == a + b
    ensures len > 0.0
  {
    Square(x, a);
    Square(y, b);
  }

  lemma Projected(d0: real, d1: real, w0: real, w1: real, u: real, len: real, at: real)
    requires len == d0 * d0 + d1 * d1 && len > 0.0 && d0 * w1 - d1 * w0 == 0.0
    requires at == w0 * d0 + w1 * d1 && u * len == at
    ensures w0 == u * d0 && w1 == u * d1
  {
    assert w0 * len == d0 * (w0 * d0) + d1 * (d1 * w0) == d0 * at;
    assert w1 * len == d0 * (d0 * w1) + d1 * (d1 * w1) == d1 * at;
    Rescaled(w0, u, d0, len, at);
    Rescaled(w1, u, d1, len, at);
  }

  lemma Rescaled(w: real, u: real, d: real, len: real, at: real)
    requires len > 0.0 && u * len == at && w * len == d * at
    ensures w == u * d
  {
    assert (u * d) * len == d * (u * len);
    CancelFactor(len, w, u * d);
  }

  /** An edge within the strip that changes sides is found to cross, unless it is nearly parallel. */
  lemma FoundInStrip(s: Point, e: Point, cur: Point, next: Point)
    requires InStrip(s, e, cur) && InStrip(s, e, next) && ChangesSide(s, e, cur, next)
    requires Abs(Cross(Minus(next, cur), Minus(e, s))) >= EPSILON
    ensures LineIntersection(cur, next, s, e).Some?
  {
    var t := CutAt(s, e, cur, next);
    CutExactly(s, e, cur, next, t);
    StripAlong(s, e, cur, next, t);
    EndsDiffer(s, e, cur, next);
    var u := OnEdge(s, e, Along(cur, next, t));
    assert MeetAt(cur, next, s, e, t, u);
    CrossingIsSharedPoint(cur, next, s, e);
  }

  lemma EndsDiffer(s: Point, e: Point, cur: Point, next: Point)
    requires ChangesSide(s, e, cur, next)
    ensures s != e
  {
  }

  /** Only nearly parallel edges are missed. */
  ghost predicate OnlyParallelMissed(s: Point, e: Point, poly: seq<Point>) {
    forall k: nat ::
      k < |poly| && ChangesSide(s, e, poly[k], Following(poly, k))
      && Abs(Cross(Minus(Following(poly, k), poly[k]), Minus(e, s))) >= EPSILON ==>
        LineIntersection(poly[k], Following(poly, k), s, e).Some?
  }

  ghost predicate AllInStrip(s: Point, e: Point, poly: seq<Point>) { forall p <- poly :: InStrip(s, e, p) }

  lemma {:induction false} StripKept(poly: seq<Point>, clip: seq<Point>, n: nat, s: Point, e: Point)
    requires (n < |clip| || n == 0) && AllInStrip(s, e, poly)
    ensures AllInStrip(s, e, ClipAll(poly, clip, n))
  {
    hide InStrip;
    hide Value;
    hide ClipAll;
    forall p: Point
      ensures InStrip(s, e, p) <==> Value(Ahead(s, e), p) >= 0.0 && Value(Short(s, e), p) >= 0.0
    {
      InStripExactly(s, e, p);
    }
    ClipContained(poly, clip, n, Ahead(s, e));
    ClipContained(poly, clip, n, Short(s, e));
  }

  /** A subject in the strips of all clip edges: no pass misses a crossing that is not nearly parallel. */
  lemma StripsMissNothing(poly: seq<Point>, clip: seq<Point>, k: nat)
    requires k + 1 < |clip| && forall i: nat :: i + 1 < |clip| ==> AllInStrip(clip[i], clip[i + 1], poly)
    ensures OnlyParallelMissed(clip[k], clip[k + 1], ClipAll(poly, clip, k))
  {
    var s, e, now := clip[k], clip[k + 1], ClipAll(poly, clip, k);
    StripKept(poly, clip, k, s, e);
    forall i: nat | i < |now| && ChangesSide(s, e, now[i], Following(now, i))
                    && Abs(Cross(Minus(Following(now, i), now[i]), Minus(e, s))) >= EPSILON
      ensures LineIntersection(now[i], Following(now, i), s, e).Some?
    {
      FoundInStrip(s, e, now[i], Following(now, i));
    }
  }

  lemma {:induction false} AllKept(s: Point, e: Point, poly: seq<Point>, n: nat, f: (Point, Point) -> seq<Point>)
    requires n <= |poly| && (forall x, y :: f(x, y) == Emit(s, e, x, y)) && forall p <- poly :: Side(s, e, p) >= 0.0
    ensures Around(poly, n, f) == poly[..n]
    decreases n
  {
    if n > 0 {
      AllKept(s, e, poly, n - 1, f);
      var next := poly[n % |poly|];
      assert poly[n - 1] in poly && next in poly;
      assert f(poly[n - 1], next) == [poly[n - 1]];
      assert poly[..n] == poly[..n - 1] + [poly[n - 1]];
    }
  }

  /** A subject within the clip polygon comes out of every pass as it went in. */
  lemma {:induction false} InnerSubjectIsKept(poly: seq<Point>, clip: seq<Point>, n: nat)
    requires n < |clip| || n == 0
    requires forall i: nat, p :: i + 1 < |clip| && p in poly ==> Side(clip[i], clip[i + 1], p) >= 0.0
    ensures ClipAll(poly, clip, n) == poly
    decreases n
  {
    if n > 0 {
      InnerSubjectIsKept(poly, clip, n - 1);
      assert clip[n] == clip[n - 1 + 1];
      AllKept(clip[n - 1], clip[n], poly, |poly|, (cur, next) => Emit(clip[n - 1], clip[n], cur, next));
    }
  }
}
