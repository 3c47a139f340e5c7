/**
 * A convex ring inside another encloses no more area; so what is left of a convex subject
 * is no larger than the convex clip polygon, and two boxes never overlap by more than 1.
 */
module Containment {
  import opened Wrappers
  import opened Clipping
  import opened ConvexArea
  import opened LineClipping

  // ------------------------------------------------------- turns about one point

  lemma Plucker(o: Point, a: Point, b: Point, c: Point, d: Point)
    ensures Side(o, a, b) * Side(o, c, d) - Side(o, a, c) * Side(o, b, d) + Side(o, a, d) * Side(o, b, c) == 0.0
  {
    PluckerOf(a.x - o.x, a.y - o.y, b.x - o.x, b.y - o.y, c.x - o.x, c.y - o.y, d.x - o.x, d.y - o.y);
  }

  lemma PluckerOf(a0: real, a1: real, b0: real, b1: real, c0: real, c1: real, d0: real, d1: real)
    ensures (a0 * b1 - a1 * b0) * (c0 * d1 - c1 * d0) - (a0 * c1 - a1 * c0) * (b0 * d1 - b1 * d0)
            + (a0 * d1 - a1 * d0) * (b0 * c1 - b1 * c0) == 0.0
  {
  }

  /** Strictly on one side of the line from `o` through `t`. */
  predicate Beyond(left: bool, o: Point, t: Point, s: Point) {
    if left then Side(o, t, s) > 0.0 else Side(o, t, s) < 0.0
  }

  lemma SignOf(ta: real, tb: real, tc: real, ab: real, bc: real, ac: real)
    requires ta * bc - tb * ac + tc * ab == 0.0 && ab >= 0.0 && bc >= 0.0
    requires (ta > 0.0 && tb > 0.0 && tc > 0.0) || (ta < 0.0 && tb < 0.0 && tc < 0.0)
    ensures ac >= 0.0
  {
    if ta > 0.0 {
      assert ta * bc >= 0.0 && tc * ab >= 0.0;
      if ac < 0.0 { Positive(tb, -ac); }
    } else {
      assert -ta * bc >= 0.0 && -tc * ab >= 0.0;
      if ac < 0.0 { Positive(-tb, -ac); }
    }
  }

  /** Within half a turn about `o`, turning left twice is turning left. */
  lemma TurnsAdd(left: bool, o: Point, t: Point, a: Point, b: Point, c: Point)
    requires Beyond(left, o, t, a) && Beyond(left, o, t, b) && Beyond(left, o, t, c)
    requires Side(o, a, b) >= 0.0 && Side(o, b, c) >= 0.0
    ensures Side(o, a, c) >= 0.0
  {
    Plucker(o, t, a, b, c);
    hide Side;
    SignOf(Side(o, t, a), Side(o, t, b), Side(o, t, c), Side(o, a, b), Side(o, b, c), Side(o, a, c));
  }

  /** The path goes round `o` to the left, edge by edge. */
  ghost predicate GoesRound(o: Point, path: seq<Point>) {
    forall k: nat :: k + 1 < |path| ==> Side(o, path[k], path[k + 1]) >= 0.0
  }

  lemma {:induction false} RoundWithinHalf(left: bool, o: Point, t: Point, path: seq<Point>, j: nat)
    requires GoesRound(o, path) && j < |path| && forall s <- path :: Beyond(left, o, t, s)
    ensures Side(o, path[0], path[j]) >= 0.0
    decreases j
  {
    if j == 0 {
      NoTurn(true, o, path[0]);
    } else {
      RoundWithinHalf(left, o, t, path, j - 1);
      assert path[0] in path && path[j - 1] in path && path[j] in path;
      assert Side(o, path[j - 1], path[j - 1 + 1]) >= 0.0;
      TurnsAdd(left, o, t, path[0], path[j - 1], path[j]);
    }
  }

  lemma AllOnARay(left: bool, o: Point, t: Point, a: Point, b: Point, c: Point)
    requires Beyond(left, o, t, a) && Beyond(left, o, t, b) && Side(o, a, b) == 0.0 && Side(o, a, c) == 0.0
    ensures Side(o, b, c) == 0.0
  {
    Plucker(o, t, a, b, c);
    hide Side;
    ZeroFactor(Side(o, t, a), Side(o, b, c), Side(o, t, b), Side(o, t, c));
  }

  lemma ZeroFactor(ta: real, bc: real, tb: real, tc: real)
    requires ta * bc - tb * 0.0 + tc * 0.0 == 0.0 && ta != 0.0
    ensures bc == 0.0
  {
  }

  lemma {:induction false} ZeroFan(o: Point, path: seq<Point>)
    requires forall k: nat :: k + 1 < |path| ==> Side(o, path[k], path[k + 1]) == 0.0
    ensures Fan(o, path) == 0.0
  {
    if |path| > 1 {
      assert Side(o, path[0], path[0 + 1]) == 0.0;
      forall k: nat | k + 1 < |path[1..]| ensures Side(o, path[1..][k], path[1..][k + 1]) == 0.0 {
        assert Side(o, path[k + 1], path[k + 1 + 1]) == 0.0;
      }
      ZeroFan(o, path[1..]);
    }
  }

  /** A point is on the inner side of every edge of a ring. */
  ghost predicate Inside(ring: seq<Point>, q: Point) {
    forall k: nat :: k < |ring| ==> Side(ring[k], Following(ring, k), q) >= 0.0
  }

  lemma ClosedFollows(ring: seq<Point>, k: nat)
    requires k < |ring|
    ensures var path := ring + [ring[0]]; path[k] == ring[k] && path[k + 1] == Following(ring, k)
  {
    if k + 1 == |ring| {
      assert (k + 1) % |ring| == 0;
    } else {
      assert (k + 1) % |ring| == k + 1;
    }
  }

  lemma RingGoesRound(ring: seq<Point>, o: Point)
    requires ring != [] && Inside(ring, o)
    ensures GoesRound(o, ring + [ring[0]])
  {
    var path := ring + [ring[0]];
    forall k: nat | k + 1 < |path| ensures Side(o, path[k], path[k + 1]) >= 0.0 {
      assert Side(ring[k], Following(ring, k), o) >= 0.0;
      ClosedFollows(ring, k);
      TurnsAround(true, o, path[k], path[k + 1]);
      hide Side;
    }
  }

  lemma SuffixGoesRound(o: Point, path: seq<Point>, j: nat)
    requires GoesRound(o, path) && j <= |path|
    ensures GoesRound(o, path[j..])
  {
    forall k: nat | k + 1 < |path[j..]| ensures Side(o, path[j..][k], path[j..][k + 1]) >= 0.0 {
      assert Side(o, path[j + k], path[j + k + 1]) >= 0.0;
    }
  }

  lemma SideSwaps(o: Point, a: Point, b: Point)
    ensures Side(o, b, a) == -Side(o, a, b)
  {
  }

  /** A ring round `o` that stays strictly on one side of a line through `o` is flat. */
  lemma LoopWithinHalfIsFlat(left: bool, o: Point, t: Point, ring: seq<Point>)
    requires ring != [] && Inside(ring, o) && forall s <- ring :: Beyond(left, o, t, s)
    ensures Ring(ring) == 0.0
  {
    var path := ring + [ring[0]];
    RingGoesRound(ring, o);
    forall s <- path ensures Beyond(left, o, t, s) { assert s in ring; }
    forall j: nat | j < |path| ensures Side(o, path[0], path[j]) == 0.0 {
      RoundWithinHalf(left, o, t, path, j);
      SuffixGoesRound(o, path, j);
      assert forall s <- path[j..] :: s in path;
      RoundWithinHalf(left, o, t, path[j..], |path| - 1 - j);
      assert path[j..][|path| - 1 - j] == path[|path| - 1] == path[0] && path[j..][0] == path[j];
      SideSwaps(o, path[0], path[j]);
    }
    forall k: nat | k + 1 < |path| ensures Side(o, path[k], path[k + 1]) == 0.0 {
      assert path[0] in path && path[k] in path;
      AllOnARay(left, o, t, path[0], path[k], path[k + 1]);
    }
    ZeroFan(o, path);
    RingIsFan(o, ring);
  }

  // --------------------------------------------------------- an edge across a ray

  lemma Quotient(sp: real, sr: real, w: real)
    requires sp <= 0.0 <= sr && sp < sr && w >= sr - sp
    ensures var t, l := sp / (sp - sr), w / (sr - sp);
            0.0 <= t <= 1.0 && t * (sp - sr) == sp && l >= 1.0 && l * (sr - sp) == w
  {
    var d := sr - sp;
    var t, l := sp / (sp - sr), w / d;
    assert t * (sp - sr) == sp && l * d == w;
    assert t * d == -sp;
    UnitFactor(t, d, -sp);
    OneLess(l, d);
    if l < 1.0 { Positive(1.0 - l, d); }
  }

  /** Coordinates of the crossing, relative to `o`: `v` towards the target, `u` and `z` the ends of the edge. */
  lemma CrossingOnRay(v0: real, v1: real, u0: real, u1: real, z0: real, z1: real, t: real, l: real)
    requires var sp, sr, w := v0 * u1 - v1 * u0, v0 * z1 - v1 * z0, u0 * z1 - u1 * z0;
             sp < sr && t * (sp - sr) == sp && l * (sr - sp) == w
    ensures u0 + t * (z0 - u0) == l * v0 && u1 + t * (z1 - u1) == l * v1
  {
    var sp, sr, w := v0 * u1 - v1 * u0, v0 * z1 - v1 * z0, u0 * z1 - u1 * z0;
    var d := sr - sp;
    Combined(v0, u0, z0, sp, sr, w, t, l, d);
    Combined(v1, u1, z1, sp, sr, w, t, l, d);
  }

  lemma Combined(v: real, u: real, z: real, sp: real, sr: real, w: real, t: real, l: real, d: real)
    requires d == sr - sp && d > 0.0 && t * d == -sp && l * d == w
    requires sr * u - sp * z == w * v
    ensures u + t * (z - u) == l * v
  {
    assert (u + t * (z - u)) * d == u * d + (t * d) * (z - u);
    assert u * d + -sp * (z - u) == sr * u - sp * z;
    assert (l * v) * d == (l * d) * v;
    CancelFactor(d, u + t * (z - u), l * v);
  }

  lemma EdgeSides(o: Point, t: Point, p: Point, r: Point)
    ensures Side(p, r, t) == Side(o, p, r) - Side(o, t, r) + Side(o, t, p)
  {
  }

  lemma SideScaled(o: Point, t: Point, l: real, z: Point)
    ensures Side(o, Along(o, t, l), z) == l * Side(o, t, z)
  {
    var v0, v1, z0, z1 := t.x - o.x, t.y - o.y, z.x - o.x, z.y - o.y;
    assert (l * v0) * z1 - (l * v1) * z0 == l * (v0 * z1 - v1 * z0);
  }

  /** An edge that crosses the ray from `o` through `t`, with both on its inner side, meets it no nearer than `t`. */
  lemma EdgeMeetsRay(o: Point, t: Point, p: Point, r: Point) returns (tau: real, l: real)
    requires Side(o, t, p) <= 0.0 <= Side(o, t, r) && Side(o, t, p) < Side(o, t, r) && Side(p, r, t) >= 0.0
    ensures 0.0 <= tau <= 1.0 && l >= 1.0 && Along(p, r, tau) == Along(o, t, l)
  {
    var sp, sr, w := Side(o, t, p), Side(o, t, r), Side(o, p, r);
    EdgeSides(o, t, p, r);
    tau, l := sp / (sp - sr), w / (sr - sp);
    Quotient(sp, sr, w);
    SameCrossing(o, t, p, r, tau, l);
  }

  lemma SameCrossing(o: Point, t: Point, p: Point, r: Point, tau: real, l: real)
    requires var sp, sr, w := Side(o, t, p), Side(o, t, r), Side(o, p, r);
             sp < sr && tau * (sp - sr) == sp && l * (sr - sp) == w
    ensures Along(p, r, tau) == Along(o, t, l)
  {
    CrossingOnRay(t.x - o.x, t.y - o.y, p.x - o.x, p.y - o.y, r.x - o.x, r.y - o.y, tau, l);
    Shifted(p.x, r.x, o.x, t.x, tau, l);
    Shifted(p.y, r.y, o.y, t.y, tau, l);
  }

  lemma Shifted(p: real, r: real, o: real, t: real, tau: real, l: real)
    requires (p - o) + tau * ((r - o) - (p - o)) == l * (t - o)
    ensures p + tau * (r - p) == o + l * (t - o)
  {
    assert (r - o) - (p - o) == r - p;
  }

  // ------------------------------------------------------------ paths and fans

  /** A point is on the inner side of every edge of an open path. */
  ghost predicate PathInside(path: seq<Point>, q: Point) {
    forall k: nat :: k + 1 < |path| ==> Side(path[k], path[k + 1], q) >= 0.0
  }

  lemma InsideGoesRound(o: Point, path: seq<Point>)
    ensures PathInside(path, o) <==> GoesRound(o, path)
  {
    forall k: nat | k + 1 < |path| ensures Side(path[k], path[k + 1], o) == Side(o, path[k], path[k + 1]) {
      TurnsAround(true, o, path[k], path[k + 1]);
      hide Side;
    }
  }

  lemma {:induction false} RoundFan(o: Point, path: seq<Point>)
    requires GoesRound(o, path)
    ensures Fan(o, path) >= 0.0
  {
    if |path| > 1 {
      assert Side(o, path[0], path[0 + 1]) >= 0.0;
      SuffixGoesRound(o, path, 1);
      RoundFan(o, path[1..]);
    }
  }

  /** A convex path spans at least the triangle of its ends. */
  lemma FanAtLeast(o: Point, path: seq<Point>)
    requires path != [] && Convex(true, path)
    ensures Fan(o, path) >= Side(o, path[0], Last(path))
  {
    var first := path[0];
    forall k: nat | k + 1 < |path| ensures Side(first, path[k], path[k + 1]) >= 0.0 {
      TurnsInOrder(true, path, 0, k, k + 1);
    }
    RoundFan(first, path);
    FanIsPath(o, path);
    FanIsPath(first, path);
    SideExpands(o, first, Last(path));
    CrossFlips(first, first);
    hide Fan;
    hide Path;
    hide Cross;
    hide Side;
  }

  lemma {:induction false} FirstAhead(o: Point, u: Point, path: seq<Point>, k: nat) returns (j: nat)
    requires k < |path| && Side(o, u, path[0]) < 0.0 && Side(o, u, path[k]) >= 0.0
    ensures 0 < j <= k && Side(o, u, path[j - 1]) < 0.0 && Side(o, u, path[j]) >= 0.0
    decreases k
  {
    if Side(o, u, path[k - 1]) < 0.0 {
      j := k;
    } else {
      j := FirstAhead(o, u, path, k - 1);
    }
  }

  lemma SplitSide(o: Point, p: Point, r: Point, tau: real)
    ensures Side(o, p, Along(p, r, tau)) + Side(o, Along(p, r, tau), r) == Side(o, p, r)
  {
    var y := Along(p, r, tau);
    SideAlong(o, p, p, r, tau);
    NoTurn(true, o, p);
    NoTurn(true, o, r);
    SideAlong(o, r, p, r, tau);
    SideSwaps(o, y, r);
    SideSwaps(o, p, r);
    hide Side;
    hide Along;
  }

  /** A path cut at a point of the edge before vertex `j`. */
  lemma FanCut(o: Point, path: seq<Point>, j: nat, y: Point)
    requires 0 < j < |path| && Side(o, path[j - 1], y) + Side(o, y, path[j]) == Side(o, path[j - 1], path[j])
    ensures Fan(o, path) == Fan(o, path[..j] + [y]) + Fan(o, [y] + path[j..])
  {
    var a, p, r, b := path[..j - 1], path[j - 1], path[j], path[j + 1..];
    assert path == a + [p] + ([r] + b) && path[..j] == a + [p] && path[j..] == [r] + b;
    FanJoin(o, a, p, [r] + b);
    FanNext(o, a, p, y);
    assert a + [p] + [y] == a + [p, y];
    assert ([p] + ([r] + b))[1..] == [r] + b && ([y] + ([r] + b))[1..] == [r] + b;
  }

  lemma ConvexPart(path: seq<Point>, i: nat, j: nat)
    requires Convex(true, path) && i <= j <= |path|
    ensures Convex(true, path[i..j])
  {
    var part := path[i..j];
    forall a, b, c | 0 <= a < b < c < |part| ensures Turns(true, part[a], part[b], part[c]) {
      assert Turns(true, path[i + a], path[i + b], path[i + c]);
    }
  }

  lemma CutParts(path: seq<Point>, j: nat, y: Point)
    requires 0 < j < |path|
    ensures path[..j - 1] + [path[j - 1]] + path[j..] == path
    ensures var cut := path[..j - 1] + [path[j - 1], y] + path[j..];
            |cut| == |path| + 1 && cut[0..j + 1] == path[..j] + [y] && cut[j..|cut|] == [y] + path[j..]
  {
  }

  /** Cutting an edge leaves two convex parts. */
  lemma CutIsConvex(path: seq<Point>, j: nat, tau: real)
    requires Convex(true, path) && 0 < j < |path| && 0.0 <= tau <= 1.0
    ensures var y := Along(path[j - 1], path[j], tau);
            Convex(true, path[..j] + [y]) && Convex(true, [y] + path[j..])
  {
    hide Convex;
    hide Along;
    var a, p, b := path[..j - 1], path[j - 1], path[j..];
    var y := Along(p, path[j], tau);
    CutParts(path, j, y);
    CrossingKeepsArea(true, a, p, b, tau);
    var cut := a + [p, y] + b;
    ConvexPart(cut, 0, j + 1);
    ConvexPart(cut, j, |cut|);
  }

  lemma SideAlongEdge(p: Point, r: Point, tau: real, q: Point)
    requires 0.0 <= tau <= 1.0 && Side(p, r, q) >= 0.0
    ensures Side(Along(p, r, tau), r, q) >= 0.0
  {
    TurnsAround(true, Along(p, r, tau), r, q);
    TurnsAround(true, p, r, q);
    NoTurn(true, r, q);
    TurnsBetween(true, r, q, p, r, tau);
    hide Along;
  }

  lemma CutKeepsInside(path: seq<Point>, j: nat, tau: real, q: Point)
    requires 0 < j < |path| && 0.0 <= tau <= 1.0 && PathInside(path, q)
    ensures PathInside([Along(path[j - 1], path[j], tau)] + path[j..], q)
  {
    var rest := [Along(path[j - 1], path[j], tau)] + path[j..];
    forall k: nat | k + 1 < |rest| ensures Side(rest[k], rest[k + 1], q) >= 0.0 {
      assert Side(path[j - 1 + k], path[j - 1 + k + 1], q) >= 0.0;
      if k == 0 { SideAlongEdge(path[j - 1], path[j], tau, q); }
    }
  }

  lemma ScaledUp(l: real, m: real, a: real, b: real)
    requires l >= 1.0 && m >= 1.0 && a >= 0.0 && b == m * a
    ensures l * b >= a
  {
    OneLess(m, a);
    assert (m - 1.0) * a >= 0.0;
    OneLess(l, b);
    assert (l - 1.0) * b >= 0.0;
  }

  /** The triangle up to two rays is within what a path spans between them. */
  lemma SpansTriangle(o: Point, t: Point, u: Point, l: real, m: real, path: seq<Point>)
    requires l >= 1.0 && m >= 1.0 && Side(o, t, u) >= 0.0 && path != [] && Convex(true, path)
    requires path[0] == Along(o, t, l) && Last(path) == Along(o, u, m)
    ensures Fan(o, path) >= Side(o, t, u)
  {
    hide Side;
    hide Along;
    hide Convex;
    hide Fan;
    FanAtLeast(o, path);
    SideScaled(o, t, l, Last(path));
    SideScaled(o, u, m, t);
    SideSwaps(o, t, Last(path));
    SideSwaps(o, u, t);
    ScaledSwap(l, m, Side(o, t, u), Side(o, t, Last(path)));
  }

  lemma ScaledSwap(l: real, m: real, a: real, b: real)
    requires l >= 1.0 && m >= 1.0 && a >= 0.0 && -b == m * -a
    ensures l * b >= a
  {
    assert m * -a == -(m * a);
    ScaledUp(l, m, a, b);
  }

  /**
   * One step round `o`: from the ray through `t` to the ray through `u`, the path spans at
   * least their triangle, and what is left of it starts on the ray through `u`.
   */
  lemma Step(o: Point, t: Point, u: Point, path: seq<Point>, l: real, k: nat) returns (j: nat, tau: real, m: real)
    requires Side(o, t, u) > 0.0 && path != [] && Convex(true, path) && PathInside(path, u)
    requires l >= 1.0 && path[0] == Along(o, t, l) && k < |path| && Side(o, u, path[k]) >= 0.0
    ensures 0 < j < |path| && 0.0 <= tau <= 1.0 && m >= 1.0
    ensures var y := Along(path[j - 1], path[j], tau);
            && y == Along(o, u, m) && Convex(true, [y] + path[j..])
            && Fan(o, path) >= Side(o, t, u) + Fan(o, [y] + path[j..])
  {
    StartsBehind(o, t, u, l);
    j := FirstAhead(o, u, path, k);
    assert Side(path[j - 1], path[j - 1 + 1], u) >= 0.0;
    tau, m := EdgeMeetsRay(o, u, path[j - 1], path[j]);
    var y := Along(path[j - 1], path[j], tau);
    CutIsConvex(path, j, tau);
    SplitSide(o, path[j - 1], path[j], tau);
    hide Side;
    hide Along;
    hide Fan;
    hide Convex;
    FanCut(o, path, j, y);
    SpansTriangle(o, t, u, l, m, path[..j] + [y]);
  }

  lemma StartsBehind(o: Point, t: Point, u: Point, l: real)
    requires Side(o, t, u) > 0.0 && l >= 1.0
    ensures Side(o, u, Along(o, t, l)) < 0.0
  {
    SideScaled(o, t, l, u);
    SideSwaps(o, u, Along(o, t, l));
    Positive(l, Side(o, t, u));
  }

  // ------------------------------------------------------------ all the way round

  /** Points in order round `o`, to the left. */
  ghost predicate Sorted(o: Point, ts: seq<Point>) { forall i, j :: 0 <= i < j < |ts| ==> Side(o, ts[i], ts[j]) >= 0.0 }

  ghost predicate Advances(o: Point, ts: seq<Point>) {
    forall k: nat :: k + 1 < |ts| ==> Side(o, ts[k], ts[k + 1]) > 0.0
  }

  lemma SignApart(a: real, b: real, c: real, d: real, e: real, f: real)
    requires a * b - c * d + e * f == 0.0 && a > 0.0 && b > 0.0 && e >= 0.0 && f > 0.0 && c >= 0.0
    ensures c > 0.0
  {
    Positive(a, b);
    assert e * f >= 0.0;
    assert c * d > 0.0;
  }

  /** All but the last are strictly ahead of the first. */
  lemma {:induction false} StrictlyAhead(o: Point, ts: seq<Point>, i: nat)
    requires Sorted(o, ts) && Advances(o, ts) && 0 < i && i + 1 < |ts|
    ensures Side(o, ts[0], ts[i]) > 0.0
  {
    assert Side(o, ts[0], ts[0 + 1]) > 0.0;
    if i > 1 {
      StrictlyAhead(o, ts, i - 1);
      assert Side(o, ts[i - 1], ts[i - 1 + 1]) > 0.0 && Side(o, ts[i], ts[i + 1]) > 0.0;
      assert Side(o, ts[0], ts[i + 1]) >= 0.0 && Side(o, ts[0], ts[i]) >= 0.0;
      Plucker(o, ts[0], ts[i - 1], ts[i], ts[i + 1]);
      hide Side;
      SignApart(Side(o, ts[0], ts[i - 1]), Side(o, ts[i], ts[i + 1]), Side(o, ts[0], ts[i]),
                Side(o, ts[i - 1], ts[i + 1]), Side(o, ts[0], ts[i + 1]), Side(o, ts[i - 1], ts[i]));
    }
  }

  lemma SuffixSorted(o: Point, ts: seq<Point>)
    requires ts != [] && Sorted(o, ts) && Advances(o, ts)
    ensures Sorted(o, ts[1..]) && Advances(o, ts[1..])
  {
    var rest := ts[1..];
    forall i, j | 0 <= i < j < |rest| ensures Side(o, rest[i], rest[j]) >= 0.0 {
      assert Side(o, ts[i + 1], ts[j + 1]) >= 0.0;
    }
    forall k: nat | k + 1 < |rest| ensures Side(o, rest[k], rest[k + 1]) > 0.0 {
      assert Side(o, ts[k + 1], ts[k + 1 + 1]) > 0.0;
    }
  }

  lemma NotAllBehind(o: Point, t: Point, u: Point, l: real, path: seq<Point>)
    requires path != [] && l >= 1.0 && path[0] == Along(o, t, l) && GoesRound(o, path)
    requires forall s <- path :: Beyond(false, o, u, s)
    ensures Side(o, t, Last(path)) >= 0.0
  {
    RoundWithinHalf(false, o, u, path, |path| - 1);
    SideScaled(o, t, l, Last(path));
    hide Side;
    NotScaledDown(l, Side(o, t, Last(path)));
  }

  lemma NotScaledDown(l: real, a: real)
    requires l >= 1.0 && l * a >= 0.0
    ensures a >= 0.0
  {
    if a < 0.0 { Positive(l, -a); }
  }

  /** A path that ends to the right of the ray it starts on has to cross the next ray. */
  lemma CrossesNext(o: Point, t: Point, u: Point, l: real, path: seq<Point>) returns (k: nat)
    requires path != [] && l >= 1.0 && path[0] == Along(o, t, l) && GoesRound(o, path)
    requires Side(o, t, Last(path)) < 0.0
    ensures k < |path| && Side(o, u, path[k]) >= 0.0
  {
    if forall s <- path :: Beyond(false, o, u, s) { NotAllBehind(o, t, u, l, path); }
    var s :| s in path && !Beyond(false, o, u, s);
    k :| k < |path| && path[k] == s;
  }

  /** What a path spans is at least what the points within it span. */
  lemma {:induction false} Walk(o: Point, ts: seq<Point>, path: seq<Point>, l: real)
    requires ts != [] && Sorted(o, ts) && Advances(o, ts) && path != [] && Convex(true, path)
    requires PathInside(path, o) && forall t <- ts :: PathInside(path, t)
    requires l >= 1.0 && path[0] == Along(o, ts[0], l)
    requires forall i: nat :: i + 1 < |ts| ==> Side(o, ts[i], Last(path)) < 0.0
    ensures Fan(o, ts) <= Fan(o, path)
    decreases |ts|
  {
    InsideGoesRound(o, path);
    if |ts| == 1 {
      RoundFan(o, path);
    } else {
      assert Side(o, ts[0], Last(path)) < 0.0 && Side(o, ts[0], ts[0 + 1]) > 0.0;
      var k := CrossesNext(o, ts[0], ts[1], l, path);
      WalkOn(o, ts, path, l, k);
    }
  }

  lemma {:induction false} WalkOn(o: Point, ts: seq<Point>, path: seq<Point>, l: real, k: nat)
    requires |ts| > 1 && Sorted(o, ts) && Advances(o, ts) && path != [] && Convex(true, path)
    requires PathInside(path, o) && forall t <- ts :: PathInside(path, t)
    requires l >= 1.0 && path[0] == Along(o, ts[0], l)
    requires forall i: nat :: 0 < i && i + 1 < |ts| ==> Side(o, ts[i], Last(path)) < 0.0
    requires k < |path| && Side(o, ts[1], path[k]) >= 0.0
    ensures Fan(o, ts) <= Fan(o, path)
    decreases |ts|, 0
  {
    assert Side(o, ts[0], ts[0 + 1]) > 0.0;
    assert ts[1] in ts;
    var j, tau, m := Step(o, ts[0], ts[1], path, l, k);
    SuffixSorted(o, ts);
    RestStays(o, ts, path, j, tau);
    hide Side;
    hide Along;
    hide Convex;
    hide PathInside;
    hide Sorted;
    hide Advances;
    Walk(o, ts[1..], [Along(path[j - 1], path[j], tau)] + path[j..], m);
  }

  lemma RestStays(o: Point, ts: seq<Point>, path: seq<Point>, j: nat, tau: real)
    requires |ts| > 1 && 0 < j < |path| && 0.0 <= tau <= 1.0
    requires PathInside(path, o) && forall t <- ts :: PathInside(path, t)
    requires forall i: nat :: 0 < i && i + 1 < |ts| ==> Side(o, ts[i], Last(path)) < 0.0
    ensures var rest := [Along(path[j - 1], path[j], tau)] + path[j..];
            && PathInside(rest, o) && (forall t <- ts[1..] :: PathInside(rest, t))
            && forall i: nat :: i + 1 < |ts[1..]| ==> Side(o, ts[1..][i], Last(rest)) < 0.0
  {
    hide Along;
    hide PathInside;
    var rest := [Along(path[j - 1], path[j], tau)] + path[j..];
    CutKeepsInside(path, j, tau, o);
    forall t <- ts[1..] ensures PathInside(rest, t) { CutKeepsInside(path, j, tau, t); }
    forall i: nat | i + 1 < |ts[1..]| ensures Side(o, ts[1..][i], Last(rest)) < 0.0 {
      assert Side(o, ts[i + 1], Last(path)) < 0.0;
    }
  }

  // ---------------------------------------------------------------- from a ring

  lemma RingRotates(x: seq<Point>, y: seq<Point>)
    ensures Ring(x + y) == Ring(y + x)
  {
    if x == [] || y == [] {
      assert x + y == y + x;
    } else {
      PathJoin(x, y);
      PathJoin(y, x);
    }
  }

  lemma ConvexRotates(ccw: bool, x: seq<Point>, y: seq<Point>)
    requires Convex(ccw, x + y)
    ensures Convex(ccw, y + x)
  {
    var p, q, n, m := x + y, y + x, |x|, |y|;
    forall i, j, k | 0 <= i < j < k < |q| ensures Turns(ccw, q[i], q[j], q[k]) {
      if k < m {
        assert Turns(ccw, p[n + i], p[n + j], p[n + k]);
      } else if j < m {
        assert Turns(ccw, p[k - m], p[n + i], p[n + j]);
        TurnsAround(ccw, q[k], q[i], q[j]);
      } else if i < m {
        assert Turns(ccw, p[j - m], p[k - m], p[n + i]);
        TurnsAround(ccw, q[i], q[j], q[k]);
      } else {
        assert Turns(ccw, p[i - m], p[j - m], p[k - m]);
      }
    }
  }

  /** A point of the closing edge may stand at both ends. */
  lemma ConvexWraps(x: Point, p: seq<Point>)
    requires Convex(true, p + [x])
    ensures Convex(true, [x] + p + [x])
  {
    var q, r := p + [x], [x] + p + [x];
    forall i, j, k | 0 <= i < j < k < |r| ensures Turns(true, r[i], r[j], r[k]) {
      assert r[j] == q[j - 1] && r[k] == q[k - 1];
      if i > 0 {
        assert Turns(true, q[i - 1], q[j - 1], q[k - 1]);
      } else if k == |r| - 1 {
        NoTurn(true, x, q[j - 1]);
      } else {
        assert Turns(true, q[j - 1], q[k - 1], q[|p|]);
        TurnsAround(true, x, q[j - 1], q[k - 1]);
      }
    }
  }

  lemma {:induction false} RisesBetween(o: Point, t: Point, path: seq<Point>, a: nat, b: nat) returns (k: nat)
    requires a < b < |path| && Side(o, t, path[a]) <= 0.0 && Side(o, t, path[b]) > 0.0
    ensures a <= k < b && Side(o, t, path[k]) <= 0.0 && Side(o, t, path[k + 1]) > 0.0
    decreases b
  {
    if Side(o, t, path[b - 1]) <= 0.0 {
      k := b - 1;
    } else {
      k := RisesBetween(o, t, path, a, b - 1);
    }
  }

  lemma TwiceRound(ring: seq<Point>, k: nat) returns (j: nat)
    requires k + 1 < 2 * |ring|
    ensures j < |ring| && (ring + ring)[k] == ring[j] && (ring + ring)[k + 1] == Following(ring, j)
  {
    j := if k < |ring| then k else k - |ring|;
    ClosedFollows(ring, j);
  }

  /** Round a ring with vertices on both sides of a line, some edge rises. */
  lemma RisesSomewhere(o: Point, t: Point, ring: seq<Point>, a: nat, b: nat) returns (k: nat)
    requires a < |ring| && b < |ring| && Side(o, t, ring[a]) <= 0.0 && Side(o, t, ring[b]) > 0.0
    ensures k < |ring| && Side(o, t, ring[k]) <= 0.0 && Side(o, t, Following(ring, k)) > 0.0
  {
    var i := RisesBetween(o, t, ring + ring, a, b + |ring|);
    k := TwiceRound(ring, i);
  }

  lemma Direction(p: Point, q: Point, o: Point, c: Point)
    ensures Side(q, Point(q.x + (p.x - o.x), q.y + (p.y - o.y)), c) == Side(o, p, c) - Side(o, p, q)
  {
  }

  /** Around a point strictly to the left of a line, some vertex of a ring with area is there too. */
  lemma SomeAhead(o: Point, t: Point, q: Point, ring: seq<Point>) returns (k: nat)
    requires ring != [] && Ring(ring) != 0.0 && Inside(ring, q) && Side(o, t, q) > 0.0
    ensures k < |ring| && Side(o, t, ring[k]) > 0.0
  {
    var z := Point(q.x + (t.x - o.x), q.y + (t.y - o.y));
    if forall s <- ring :: Side(o, t, s) <= 0.0 {
      forall s <- ring ensures Beyond(false, q, z, s) { Direction(t, q, o, s); }
      LoopWithinHalfIsFlat(false, q, z, ring);
    }
    var s :| s in ring && Side(o, t, s) > 0.0;
    k :| k < |ring| && ring[k] == s;
  }

  lemma SomeNotAhead(o: Point, t: Point, ring: seq<Point>) returns (k: nat)
    requires ring != [] && Ring(ring) != 0.0 && Inside(ring, o)
    ensures k < |ring| && Side(o, t, ring[k]) <= 0.0
  {
    if forall s <- ring :: Beyond(true, o, t, s) { LoopWithinHalfIsFlat(true, o, t, ring); }
    var s :| s in ring && !Beyond(true, o, t, s);
    k :| k < |ring| && ring[k] == s;
  }

  lemma SomeNotBehind(o: Point, t: Point, ring: seq<Point>) returns (k: nat)
    requires ring != [] && Ring(ring) != 0.0 && Inside(ring, o)
    ensures k < |ring| && Side(o, t, ring[k]) >= 0.0
  {
    if forall s <- ring :: Beyond(false, o, t, s) { LoopWithinHalfIsFlat(false, o, t, ring); }
    var s :| s in ring && !Beyond(false, o, t, s);
    k :| k < |ring| && ring[k] == s;
  }

  /** Once round a ring, from a point of the edge behind vertex `k` back to it. */
  function Loop(ring: seq<Point>, k: nat, y: Point): seq<Point>
    requires k < |ring|
  {
    [y] + (ring[k + 1..] + ring[..k + 1]) + [y]
  }

  lemma Turned(ring: seq<Point>, k: nat)
    requires k < |ring|
    ensures var c := ring[k + 1..] + ring[..k + 1];
            |c| == |ring| && c[0] == Following(ring, k) && Last(c) == ring[k]
  {
    ClosedFollows(ring, k);
  }

  lemma LoopArea(o: Point, ring: seq<Point>, k: nat, tau: real)
    requires k < |ring| && Convex(true, ring) && 0.0 <= tau <= 1.0
    ensures var path := Loop(ring, k, Along(ring[k], Following(ring, k), tau));
            Convex(true, path) && Fan(o, path) == Ring(ring)
  {
    hide Convex;
    hide Along;
    hide Ring;
    hide Fan;
    var y, c := Along(ring[k], Following(ring, k), tau), ring[k + 1..] + ring[..k + 1];
    Turned(ring, k);
    assert ring[..k + 1] + ring[k + 1..] == ring;
    ConvexRotates(true, ring[..k + 1], ring[k + 1..]);
    RingRotates(ring[..k + 1], ring[k + 1..]);
    var init := c[..|c| - 1];
    assert init + [ring[k]] + [] == c && After(init + [ring[k]], []) == c[0];
    CrossingKeepsArea(true, init, ring[k], [], tau);
    assert init + [ring[k], y] + [] == c + [y];
    ConvexWraps(y, c);
    RingRotates(c, [y]);
    RingIsFan(o, [y] + c);
  }

  lemma SideAlongStart(p: Point, r: Point, tau: real, q: Point)
    requires 0.0 <= tau <= 1.0 && Side(p, r, q) >= 0.0
    ensures Side(p, Along(p, r, tau), q) >= 0.0
  {
    SideScaled(p, r, tau, q);
    hide Side;
    hide Along;
  }

  lemma LoopInside(ring: seq<Point>, k: nat, tau: real, q: Point)
    requires k < |ring| && 0.0 <= tau <= 1.0 && Inside(ring, q)
    ensures PathInside(Loop(ring, k, Along(ring[k], Following(ring, k), tau)), q)
  {
    var y, c := Along(ring[k], Following(ring, k), tau), ring[k + 1..] + ring[..k + 1];
    var path := Loop(ring, k, y);
    Turned(ring, k);
    assert Side(ring[k], Following(ring, k), q) >= 0.0;
    forall i: nat | i + 1 < |path| ensures Side(path[i], path[i + 1], q) >= 0.0 {
      if i == 0 {
        SideAlongEdge(ring[k], Following(ring, k), tau, q);
      } else if i == |c| {
        SideAlongStart(ring[k], Following(ring, k), tau, q);
      } else {
        LoopEdge(ring, k, i - 1);
        var j := if i + k < |ring| then i + k else i + k - |ring|;
        assert Side(ring[j], Following(ring, j), q) >= 0.0;
      }
    }
  }

  lemma LoopEdge(ring: seq<Point>, k: nat, i: nat)
    requires k < |ring| && i + 1 < |ring|
    ensures var c, j := ring[k + 1..] + ring[..k + 1], if i + 1 + k < |ring| then i + 1 + k else i + 1 + k - |ring|;
            j < |ring| && c[i] == ring[j] && c[i + 1] == Following(ring, j)
  {
    ClosedFollows(ring, if i + 1 + k < |ring| then i + 1 + k else i + 1 + k - |ring|);
  }

  lemma InLoop(ring: seq<Point>, k: nat, y: Point, i: nat) returns (j: nat)
    requires k < |ring| && i < |ring|
    ensures j < |Loop(ring, k, y)| && Loop(ring, k, y)[j] == ring[i]
  {
    j := if i > k then i - k else i + |ring| - k;
  }

  /** Points strictly in order round a vertex, all within a convex ring. */
  lemma OrderedWithin(o: Point, ts: seq<Point>, ring: seq<Point>)
    requires |ts| > 1 && Sorted(o, ts) && Advances(o, ts) && ring != [] && Convex(true, ring) && Ring(ring) > 0.0
    requires Inside(ring, o) && forall t <- ts :: Inside(ring, t)
    ensures Fan(o, ts) <= Ring(ring)
  {
    var t, u := ts[0], ts[1];
    assert t in ts && u in ts && Side(o, ts[0], ts[0 + 1]) > 0.0;
    var a := SomeNotAhead(o, t, ring);
    var b := SomeAhead(o, t, u, ring);
    var k := RisesSomewhere(o, t, ring, a, b);
    assert Side(ring[k], Following(ring, k), t) >= 0.0;
    var tau, l := EdgeMeetsRay(o, t, ring[k], Following(ring, k));
    var y := Along(ring[k], Following(ring, k), tau);
    var i := SomeNotBehind(o, u, ring);
    var j := InLoop(ring, k, y, i);
    WithinLoop(o, ts, ring, k, tau, l, j);
  }

  lemma WithinLoop(o: Point, ts: seq<Point>, ring: seq<Point>, k: nat, tau: real, l: real, j: nat)
    requires |ts| > 1 && Sorted(o, ts) && Advances(o, ts) && Convex(true, ring) && k < |ring|
    requires Inside(ring, o) && (forall t <- ts :: Inside(ring, t)) && 0.0 <= tau <= 1.0 && l >= 1.0
    requires var path := Loop(ring, k, Along(ring[k], Following(ring, k), tau));
             && Along(ring[k], Following(ring, k), tau) == Along(o, ts[0], l)
             && j < |path| && Side(o, ts[1], path[j]) >= 0.0
    ensures Fan(o, ts) <= Ring(ring)
  {
    hide Convex;
    hide Inside;
    hide PathInside;
    hide Along;
    var y := Along(ring[k], Following(ring, k), tau);
    var path := Loop(ring, k, y);
    LoopArea(o, ring, k, tau);
    LoopInside(ring, k, tau, o);
    forall t <- ts ensures PathInside(path, t) { LoopInside(ring, k, tau, t); }
    forall i: nat | 0 < i && i + 1 < |ts| ensures Side(o, ts[i], Last(path)) < 0.0 {
      StrictlyAhead(o, ts, i);
      StartsBehind(o, ts[0], ts[i], l);
    }
    hide Side;
    hide Sorted;
    hide Advances;
    hide Fan;
    hide Ring;
    assert path[0] == y && Last(path) == y;
    WalkOn(o, ts, path, l, j);
  }

  // ------------------------------------------------- points that stand on one ray

  lemma OnRay(o: Point, x: Point, y: Point) returns (l: real)
    requires x != o && Side(o, x, y) == 0.0
    ensures y == Along(o, x, l)
  {
    var u0, u1, v0, v1 := x.x - o.x, x.y - o.y, y.x - o.x, y.y - o.y;
    if u0 != 0.0 {
      l := v0 / u0;
      Multiple(u0, u1, v0, v1, l);
    } else {
      l := v1 / u1;
      Multiple(u1, u0, v1, v0, l);
    }
  }

  lemma Multiple(u0: real, u1: real, v0: real, v1: real, l: real)
    requires u0 != 0.0 && u0 * v1 - u1 * v0 == 0.0 && l == v0 / u0
    ensures v0 == l * u0 && v1 == l * u1
  {
    assert l * u0 == v0;
    assert (l * u1) * u0 == u1 * (l * u0) == u1 * v0;
    CancelFactor(u0, v1, l * u1);
  }

  lemma NoMore(l: real, a: real)
    requires a >= 0.0
    ensures l <= 1.0 ==> l * a <= a
    ensures l >= 1.0 ==> l * a >= a
  {
    OneLess(l, a);
    if l <= 1.0 { assert (1.0 - l) * a >= 0.0; } else { assert (l - 1.0) * a >= 0.0; }
  }

  /** Of two points on one ray one can go: what is spanned does not shrink. */
  lemma DropOne(o: Point, a: seq<Point>, x: Point, y: Point, b: seq<Point>) returns (z: Point)
    requires Side(o, x, y) == 0.0
    requires a != [] ==> Side(o, Last(a), x) >= 0.0 && Side(o, Last(a), y) >= 0.0
    requires b != [] ==> Side(o, x, b[0]) >= 0.0 && Side(o, y, b[0]) >= 0.0
    ensures (z == x || z == y) && Fan(o, a + [x, y] + b) <= Fan(o, a + [z] + b)
  {
    hide Side;
    hide Along;
    hide Fan;
    DropEither(o, a, x, y, b);
    if x == o {
      z := y;
      if a != [] { NoTurn(true, o, Last(a)); }
    } else {
      var l := OnRay(o, x, y);
      if a != [] { FartherBefore(o, x, y, l, Last(a)); }
      if b != [] { NearerAfter(o, x, y, l, b[0]); }
      z := if l <= 1.0 then x else y;
    }
  }

  lemma FartherBefore(o: Point, x: Point, y: Point, l: real, p: Point)
    requires y == Along(o, x, l) && Side(o, p, x) >= 0.0
    ensures l >= 1.0 ==> Side(o, p, x) <= Side(o, p, y)
  {
    hide Side;
    hide Along;
    SideScaled(o, x, l, p);
    SideSwaps(o, y, p);
    SideSwaps(o, x, p);
    SwappedScale(l, Side(o, p, x), Side(o, p, y));
    NoMore(l, Side(o, p, x));
  }

  lemma NearerAfter(o: Point, x: Point, y: Point, l: real, n: Point)
    requires y == Along(o, x, l) && Side(o, x, n) >= 0.0
    ensures l <= 1.0 ==> Side(o, y, n) <= Side(o, x, n)
  {
    hide Side;
    hide Along;
    SideScaled(o, x, l, n);
    NoMore(l, Side(o, x, n));
  }

  lemma SwappedScale(l: real, a: real, b: real)
    requires -b == l * -a
    ensures b == l * a
  {
    assert l * -a == -(l * a);
  }

  lemma FanOfTwo(o: Point, a: seq<Point>, x: Point, y: Point, b: seq<Point>)
    ensures Fan(o, a + [x, y] + b) == Fan(o, a + [x]) + Side(o, x, y) + Fan(o, [y] + b)
  {
    FanJoin(o, a + [x], y, b);
    FanNext(o, a, x, y);
    assert a + [x] + [y] + b == a + [x, y] + b && a + [x] + [y] == a + [x, y];
  }

  lemma DropEither(o: Point, a: seq<Point>, x: Point, y: Point, b: seq<Point>)
    requires Side(o, x, y) == 0.0
    ensures (b == [] || Side(o, y, b[0]) <= Side(o, x, b[0])) ==> Fan(o, a + [x, y] + b) <= Fan(o, a + [x] + b)
    ensures (a == [] || Side(o, Last(a), x) <= Side(o, Last(a), y)) ==> Fan(o, a + [x, y] + b) <= Fan(o, a + [y] + b)
  {
    hide Fan;
    hide Side;
    FanOfTwo(o, a, x, y, b);
    FanJoin(o, a, x, b);
    FanJoin(o, a, y, b);
    FanFront(o, x, b);
    FanFront(o, y, b);
    FanBack(o, a, x);
    FanBack(o, a, y);
  }

  lemma FanFront(o: Point, x: Point, b: seq<Point>)
    ensures Fan(o, [x] + b) == if b == [] then 0.0 else Side(o, x, b[0]) + Fan(o, b)
  {
    assert ([x] + b)[1..] == b;
  }

  lemma FanBack(o: Point, a: seq<Point>, x: Point)
    ensures Fan(o, a + [x]) == if a == [] then 0.0 else Fan(o, a) + Side(o, Last(a), x)
  {
    if a != [] {
      var init, l := a[..|a| - 1], Last(a);
      assert a == init + [l] && a + [x] == init + [l, x];
      FanNext(o, init, l, x);
    }
  }

  lemma SortedPart(o: Point, ts: seq<Point>, i: nat)
    requires Sorted(o, ts) && i < |ts|
    ensures Sorted(o, ts[..i] + ts[i + 1..])
  {
    var part := ts[..i] + ts[i + 1..];
    forall a, b | 0 <= a < b < |part| ensures Side(o, part[a], part[b]) >= 0.0 {
      var u, v := if a < i then a else a + 1, if b < i then b else b + 1;
      assert part[a] == ts[u] && part[b] == ts[v];
      assert Side(o, ts[u], ts[v]) >= 0.0;
    }
  }

  /** Points in order round a vertex, all within a convex ring with area. */
  lemma {:induction false} SortedWithin(o: Point, ts: seq<Point>, ring: seq<Point>)
    requires Sorted(o, ts) && ring != [] && Convex(true, ring) && Ring(ring) > 0.0
    requires Inside(ring, o) && forall t <- ts :: Inside(ring, t)
    ensures Fan(o, ts) <= Ring(ring)
    decreases |ts|
  {
    hide Side;
    hide Convex;
    hide Ring;
    hide Inside;
    hide Sorted;
    hide Fan;
    if |ts| < 2 {
      ShortFan(o, ts);
    } else if Advances(o, ts) {
      hide Advances;
      OrderedWithin(o, ts, ring);
    } else {
      var i: nat :| i + 1 < |ts| && Side(o, ts[i], ts[i + 1]) <= 0.0;
      hide Advances;
      var rest := FewerSpan(o, ts, i);
      SortedWithin(o, rest, ring);
    }
  }

  lemma ShortFan(o: Point, ts: seq<Point>)
    requires |ts| < 2
    ensures Fan(o, ts) == 0.0
  {
  }

  lemma FewerSpan(o: Point, ts: seq<Point>, i: nat) returns (rest: seq<Point>)
    requires Sorted(o, ts) && i + 1 < |ts| && Side(o, ts[i], ts[i + 1]) <= 0.0
    ensures Sorted(o, rest) && |rest| < |ts| && (forall t <- rest :: t in ts) && Fan(o, ts) <= Fan(o, rest)
  {
    var a, x, y, b := ts[..i], ts[i], ts[i + 1], ts[i + 2..];
    assert Side(o, ts[i], ts[i + 1]) >= 0.0;
    if i > 0 { assert Side(o, ts[i - 1], ts[i]) >= 0.0 && Side(o, ts[i - 1], ts[i + 1]) >= 0.0; }
    if i + 2 < |ts| { assert Side(o, ts[i], ts[i + 2]) >= 0.0 && Side(o, ts[i + 1], ts[i + 2]) >= 0.0; }
    assert ts == a + [x, y] + b;
    var z := DropOne(o, a, x, y, b);
    rest := a + [z] + b;
    SortedPart(o, ts, i);
    SortedPart(o, ts, i + 1);
    assert z == y ==> rest == ts[..i] + ts[i + 1..];
    assert z == x ==> rest == ts[..i + 1] + ts[i + 1 + 1..];
  }

  /** A convex ring within another, which has area, encloses no more. */
  lemma ContainedIsSmaller(inner: seq<Point>, outer: seq<Point>)
    requires Convex(true, inner) && Convex(true, outer) && Ring(outer) > 0.0
    requires forall q <- inner :: Inside(outer, q)
    ensures Ring(inner) <= Ring(outer)
  {
    if inner != [] {
      var o, ts := inner[0], inner[1..];
      forall i, j | 0 <= i < j < |ts| ensures Side(o, ts[i], ts[j]) >= 0.0 {
        assert Turns(true, inner[0], inner[i + 1], inner[j + 1]);
      }
      SortedWithin(o, ts, outer);
      RingFromVertex(inner);
    }
  }

  lemma RingFromVertex(ring: seq<Point>)
    requires ring != []
    ensures Ring(ring) == Fan(ring[0], ring[1..])
  {
    var o, ts := ring[0], ring[1..];
    RingIsFan(o, ring);
    assert ring + [o] == [o] + (ts + [o]);
    FanFront(o, o, ts + [o]);
    FanBack(o, ts, o);
    if ts != [] {
      NoTurn(true, o, ts[0]);
      NoTurn(true, o, Last(ts));
      assert (ts + [o])[0] == ts[0];
    } else {
      NoTurn(true, o, o);
    }
  }

  // ----------------------------------------------------- either way round

  function Reversed(p: seq<Point>): seq<Point> { seq(|p|, i requires 0 <= i < |p| => p[|p| - 1 - i]) }

  lemma {:induction false} PathReverses(p: seq<Point>)
    requires p != []
    ensures Path(Reversed(p)) == -Path(p)
  {
    if |p| > 1 {
      var init, x := p[..|p| - 1], Last(p);
      PathReverses(init);
      PathNext(init, x);
      assert p == init + [x] && Reversed(p) == [x] + Reversed(init) && Reversed(init)[0] == Last(init);
      PathJoin([x], Reversed(init));
      CrossFlips(x, Last(init));
    }
  }

  lemma RingReverses(p: seq<Point>)
    ensures Ring(Reversed(p)) == -Ring(p)
  {
    if p != [] {
      PathReverses(p);
      CrossFlips(p[0], Last(p));
    }
  }

  lemma ConvexReverses(p: seq<Point>)
    requires Convex(false, p)
    ensures Convex(true, Reversed(p))
  {
    var q, n := Reversed(p), |p|;
    forall i, j, k | 0 <= i < j < k < n ensures Turns(true, q[i], q[j], q[k]) {
      assert Turns(false, p[n - 1 - k], p[n - 1 - j], p[n - 1 - i]);
      TurnsAround(false, q[k], q[j], q[i]);
      SideSwaps(q[i], q[k], q[j]);
      TurnsAround(false, q[j], q[i], q[k]);
    }
  }

  /** The area of a convex ring of either sense within a convex one. */
  lemma AreaWithin(ccw: bool, inner: seq<Point>, outer: seq<Point>)
    requires Convex(ccw, inner) && Convex(true, outer) && Ring(outer) > 0.0
    requires forall q <- inner :: Inside(outer, q)
    ensures Abs(Ring(inner)) <= Ring(outer)
  {
    ConvexEncloses(ccw, inner);
    if ccw {
      ContainedIsSmaller(inner, outer);
    } else {
      ConvexReverses(inner);
      RingReverses(inner);
      forall q <- Reversed(inner) ensures Inside(outer, q) { assert q in inner; }
      ContainedIsSmaller(Reversed(inner), outer);
    }
  }

  /** A ring of negative area has nothing on the inner side of all its edges. */
  lemma NothingInsideClockwise(ring: seq<Point>, q: Point)
    requires ring != [] && Inside(ring, q)
    ensures Ring(ring) >= 0.0
  {
    RingGoesRound(ring, q);
    RoundFan(q, ring + [ring[0]]);
    RingIsFan(q, ring);
  }

  // ------------------------------------------------------------- what is clipped

  lemma ClippedIsInside(poly: seq<Point>, clip: seq<Point>, q: Point)
    requires clip != [] && clip[0] == Last(clip) && |clip| > 1 && q in ClipAll(poly, clip, |clip| - 1)
    ensures Inside(Open(clip), q)
  {
    var ring := Open(clip);
    ClipContained(poly, clip, |clip| - 1, Affine(0.0, 0.0, 0.0));
    forall k: nat | k < |ring| ensures Side(ring[k], Following(ring, k), q) >= 0.0 {
      ClosedFollows(ring, k);
      assert ring + [ring[0]] == clip;
      assert Side(clip[k], clip[k + 1], q) >= 0.0;
    }
  }

  lemma EnclosesSome(clip: seq<Point>)
    requires Shoelace(clip) > 0.0 && clip != [] && clip[0] == Last(clip)
    ensures |clip| > 3 && Open(clip) != [] && Shoelace(clip) == Abs(Ring(Open(clip))) / 2.0 && Ring(Open(clip)) != 0.0
  {
    OpenArea(clip);
  }

  /** For convex subject and clip polygon, of either sense, the intersection is no larger than the clip polygon. */
  lemma IntersectionWithinClip(ccw: bool, ccwClip: bool, a: seq<Point>, b: seq<Point>)
    requires a != [] && a[0] == Last(a) && Convex(ccw, Open(a))
    requires b != [] && b[0] == Last(b) && Convex(ccwClip, Open(b)) && Shoelace(b) > 0.0
    ensures IntersectionArea(a, b) <= Shoelace(b)
  {
    EnclosesSome(b);
    var c, ring := Clipped(a, b), Open(b);
    forall q <- c ensures Inside(ring, q) { ClippedIsInside(Open(a), b, q); }
    if |c| >= 3 {
      ClosedArea(c);
      NothingInsideClockwise(ring, c[0]);
      ConvexEncloses(ccwClip, ring);
      ClippingShrinks(ccw, Open(a), b, |b| - 1);
      SenseOf(ccwClip, ring);
      AreaWithin(ccw, c, ring);
    }
  }

  lemma SenseOf(ccw: bool, ring: seq<Point>)
    requires Convex(ccw, ring) && Ring(ring) > 0.0
    ensures Convex(true, ring)
  {
    ConvexEncloses(ccw, ring);
  }

  /** A clip polygon that is a single point clips nothing, and has no area: the bound needs an area. */
  lemma PointClipsNothing(a: seq<Point>, p: Point)
    requires |a| > 3 && a[0] == Last(a)
    ensures IntersectionArea(a, [p, p]) == Shoelace(a) && Shoelace([p, p]) == 0.0
  {
    var poly, clip := Open(a), [p, p];
    var f := (cur, next) => Emit(p, p, cur, next);
    forall x, y ensures f(x, y) == [x] {
      NoTurn(true, p, x);
      NoTurn(true, p, y);
    }
    KeptByAll(poly, |poly|, f);
    assert ClipAll(poly, clip, 0) == poly;
    assert ClipAll(poly, clip, 1) == poly;
    assert poly + [poly[0]] == a;
  }

  lemma {:induction false} KeptByAll(poly: seq<Point>, n: nat, f: (Point, Point) -> seq<Point>)
    requires n <= |poly| && forall x, y :: f(x, y) == [x]
    ensures Around(poly, n, f) == poly[..n]
    decreases n
  {
    if n > 0 {
      KeptByAll(poly, n - 1, f);
      assert poly[..n] == poly[..n - 1] + [poly[n - 1]];
    }
  }

  lemma BoxIsClosed(corners: seq<Point>)
    ensures var p := BoxPolygon(corners); p != [] ==> p[0] == Last(p)
  {
  }

  /** Two convex boxes overlap by at least 0 and at most 1. */
  lemma OverlapIsAShare(ccwA: bool, ccwB: bool, a: seq<Point>, b: seq<Point>)
    requires Convex(ccwA, Open(BoxPolygon(a))) && Convex(ccwB, Open(BoxPolygon(b)))
    ensures 0.0 <= RotatedIou(a, b) <= 1.0
  {
    var p, q := BoxPolygon(a), BoxPolygon(b);
    OverlapWithin(ccwA, a, b);
    if Shoelace(p) >= EPSILON && Shoelace(q) >= EPSILON {
      BoxIsClosed(a);
      BoxIsClosed(b);
      IntersectionWithin(ccwA, p, q);
      IntersectionWithinClip(ccwA, ccwB, p, q);
      AtMostWhole(IntersectionArea(p, q), Shoelace(p), Shoelace(q));
    }
  }

  lemma AtMostWhole(inter: real, a: real, b: real)
    requires 0.0 <= inter <= a && inter <= b && a > 0.0 && b > 0.0
    ensures a + b - inter > 0.0 && inter / (a + b - inter) <= 1.0
  {
    var union := a + b - inter;
    var share := inter / union;
    assert share * union == inter;
    if share > 1.0 { Positive(share - 1.0, union); }
    OneLess(share, union);
  }
}
