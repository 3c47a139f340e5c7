/**
 * Clipping never gains area: what is left of a convex subject is convex and no larger,
 * whatever the clip polygon.
 */
module ConvexArea {
  import opened Wrappers
  import opened Clipping
  import opened Ordering
  import opened Suppression
  import LineClipping

  /** The turn from `a` over `b` to `c` is not the wrong way. */
  predicate Turns(ccw: bool, a: Point, b: Point, c: Point) {
    if ccw then Side(a, b, c) >= 0.0 else Side(a, b, c) <= 0.0
  }

  /** An open ring that keeps turning one way: no three of its vertices turn the other. */
  ghost predicate Convex(ccw: bool, ring: seq<Point>) {
    forall i, j, k :: 0 <= i < j < k < |ring| ==> Turns(ccw, ring[i], ring[j], ring[k])
  }

  function Last<T>(s: seq<T>): T
    requires s != []
  {
    s[|s| - 1]
  }

  function Path(p: seq<Point>): real { if p == [] then 0.0 else CrossSum(p, |p| - 1) }

  /** Twice the area a ring encloses, positive counter-clockwise. */
  function Ring(p: seq<Point>): real { if p == [] then 0.0 else Path(p) + Cross(Last(p), p[0]) }

  function Signed(ccw: bool, r: real): real { if ccw then r else -r }

  // -------------------------------------------------------------- single turns

  lemma TurnsAround(ccw: bool, a: Point, b: Point, c: Point)
    ensures Side(a, b, c) == Side(b, c, a)
    ensures Turns(ccw, a, b, c) <==> Turns(ccw, b, c, a)
  {
    SideExpands(a, b, c);
    SideExpands(b, c, a);
    CrossFlips(a, c);
    CrossFlips(a, b);
  }

  lemma CrossFlips(a: Point, b: Point)
    ensures Cross(a, b) == -Cross(b, a)
  {
  }

  lemma SideExpands(a: Point, b: Point, c: Point)
    ensures Side(a, b, c) == Cross(a, b) + Cross(b, c) - Cross(a, c)
  {
    assert (b.x - a.x) * (c.y - a.y) == b.x * c.y - b.x * a.y - a.x * c.y + a.x * a.y;
    assert (b.y - a.y) * (c.x - a.x) == b.y * c.x - b.y * a.x - a.y * c.x + a.y * a.x;
  }

  lemma NoTurn(ccw: bool, a: Point, b: Point)
    ensures Side(a, a, b) == 0.0 && Side(a, b, b) == 0.0 && Side(a, b, a) == 0.0
    ensures Turns(ccw, a, a, b) && Turns(ccw, a, b, b) && Turns(ccw, a, b, a)
  {
    SideExpands(a, a, b);
    SideExpands(a, b, b);
    SideExpands(a, b, a);
    CrossFlips(a, a);
    CrossFlips(b, b);
    CrossFlips(a, b);
  }

  lemma NotNegative(u: real, t: real, x: real, y: real)
    requires u >= 0.0 && t >= 0.0 && x >= 0.0 && y >= 0.0
    ensures u * x >= 0.0 && t * y >= 0.0
  {
    LineClipping.NonNegative(u, x);
    LineClipping.NonNegative(t, y);
  }

  lemma Weighted(t: real, x: real, y: real)
    requires 0.0 <= t <= 1.0
    ensures x >= 0.0 && y >= 0.0 ==> x - t * (x - y) >= 0.0
    ensures x <= 0.0 && y <= 0.0 ==> x - t * (x - y) <= 0.0
  {
    var u := 1.0 - t;
    assert x - t * (x - y) == u * x + t * y;
    if x >= 0.0 && y >= 0.0 { NotNegative(u, t, x, y); }
    if x <= 0.0 && y <= 0.0 { NotNegative(u, t, -x, -y); }
  }

  /** A point between two others turns no further than they do. */
  lemma TurnsBetween(ccw: bool, a: Point, b: Point, c: Point, d: Point, t: real)
    requires 0.0 <= t <= 1.0 && Turns(ccw, a, b, c) && Turns(ccw, a, b, d)
    ensures Turns(ccw, a, b, Along(c, d, t))
  {
    LineClipping.SideAlong(a, b, c, d, t);
    Weighted(t, Side(a, b, c), Side(a, b, d));
  }

  // ------------------------------------------------------------ rings and paths

  lemma {:induction false} SumOfFront(p: seq<Point>, q: seq<Point>, n: nat)
    requires n < |p|
    ensures CrossSum(p + q, n) == CrossSum(p, n)
    decreases n
  {
    if n > 0 {
      SumOfFront(p, q, n - 1);
      assert (p + q)[n] == p[n] && (p + q)[n - 1] == p[n - 1];
    }
  }

  lemma PathNext(p: seq<Point>, x: Point)
    requires p != []
    ensures Path(p + [x]) == Path(p) + Cross(Last(p), x)
  {
    SumOfFront(p, [x], |p| - 1);
    assert (p + [x])[|p| - 1] == Last(p) && (p + [x])[|p|] == x;
  }

  lemma {:induction false} PathJoin(a: seq<Point>, b: seq<Point>)
    requires a != [] && b != []
    ensures Path(a + b) == Path(a) + Cross(Last(a), b[0]) + Path(b)
    decreases |b|
  {
    var init, x := b[..|b| - 1], Last(b);
    assert b == init + [x];
    if init == [] {
      assert b == [x];
      PathNext(a, x);
    } else {
      PathJoin(a, init);
      PathNext(a + init, x);
      PathNext(init, x);
      assert a + b == (a + init) + [x] && Last(a + init) == Last(init);
    }
  }

  /** The neighbours of a vertex with `a` before and `b` after it, around the ring. */
  function Before(a: seq<Point>, b: seq<Point>): Point
    requires a + b != []
  {
    if a != [] then Last(a) else Last(b)
  }

  function After(a: seq<Point>, b: seq<Point>): Point
    requires a + b != []
  {
    if b != [] then b[0] else a[0]
  }

  lemma PathThrough(a: seq<Point>, y: Point, b: seq<Point>)
    requires a != [] && b != []
    ensures Path(a + [y] + b) == Path(a) + Cross(Last(a), y) + Cross(y, b[0]) + Path(b)
  {
    PathNext(a, y);
    PathJoin(a + [y], b);
  }

  lemma RingEnds(p: seq<Point>, first: Point, last: Point)
    requires p != [] && p[0] == first && Last(p) == last
    ensures Ring(p) == Path(p) + Cross(last, first)
  {
  }

  /** A vertex adds the turn at it. */
  lemma RingThrough(a: seq<Point>, y: Point, b: seq<Point>)
    requires a + b != []
    ensures Ring(a + [y] + b) == Ring(a + b) + Side(Before(a, b), y, After(a, b))
  {
    SideExpands(Before(a, b), y, After(a, b));
    if a == [] {
      PathJoin([y], b);
      assert a + [y] + b == [y] + b && a + b == b;
      RingEnds([y] + b, y, Last(b));
    } else if b == [] {
      PathNext(a, y);
      assert a + [y] + b == a + [y] && a + b == a;
      RingEnds(a + [y], a[0], y);
    } else {
      PathThrough(a, y, b);
      PathJoin(a, b);
      RingEnds(a + [y] + b, a[0], Last(b));
      RingEnds(a + b, a[0], Last(b));
    }
  }

  /** The triangles that a path spans with a point, added up. */
  function Fan(o: Point, path: seq<Point>): real {
    if |path| < 2 then 0.0 else Side(o, path[0], path[1]) + Fan(o, path[1..])
  }

  lemma {:induction false} FanJoin(o: Point, a: seq<Point>, x: Point, b: seq<Point>)
    ensures Fan(o, a + [x] + b) == Fan(o, a + [x]) + Fan(o, [x] + b)
    decreases |a|
  {
    if a == [] {
      assert a + [x] + b == [x] + b && a + [x] == [x];
    } else {
      FanJoin(o, a[1..], x, b);
      assert (a + [x] + b)[1..] == a[1..] + [x] + b && (a + [x])[1..] == a[1..] + [x];
      assert (a + [x] + b)[1] == (a + [x])[1];
    }
  }

  lemma FanNext(o: Point, a: seq<Point>, x: Point, y: Point)
    ensures Fan(o, a + [x, y]) == Fan(o, a + [x]) + Side(o, x, y)
  {
    FanJoin(o, a, x, [y]);
    assert a + [x] + [y] == a + [x, y] && [x] + [y] == [x, y];
    assert Fan(o, [x, y]) == Side(o, x, y) + Fan(o, [x, y][1..]);
  }

  lemma {:induction false} FanIsPath(o: Point, path: seq<Point>)
    requires path != []
    ensures Fan(o, path) == Path(path) + Cross(o, path[0]) - Cross(o, Last(path))
  {
    if |path| > 1 {
      var init, y := path[..|path| - 1], Last(path);
      var x := Last(init);
      FanIsPath(o, init);
      PathNext(init, y);
      FanNext(o, init[..|init| - 1], x, y);
      assert init[..|init| - 1] + [x] == init && init[..|init| - 1] + [x, y] == path && init + [y] == path;
      SideExpands(o, x, y);
    }
  }

  /** The area of a ring, from any point. */
  lemma RingIsFan(o: Point, ring: seq<Point>)
    requires ring != []
    ensures Ring(ring) == Fan(o, ring + [ring[0]])
  {
    FanIsPath(o, ring + [ring[0]]);
    PathNext(ring, ring[0]);
  }

  // --------------------------------------------------------- leaving out a vertex

  lemma TurnsAtNeighbours(ccw: bool, a: seq<Point>, y: Point, b: seq<Point>)
    requires Convex(ccw, a + [y] + b) && a + b != []
    ensures Turns(ccw, Before(a, b), y, After(a, b))
  {
    var p, n := a + [y] + b, |a|;
    assert p[n] == y;
    if |a + b| == 1 {
      NoTurn(ccw, Before(a, b), y);
    } else if a == [] {
      assert p[1] == b[0] && p[|p| - 1] == Last(b);
      assert Turns(ccw, p[0], p[1], p[|p| - 1]);
      TurnsAround(ccw, Last(b), y, b[0]);
    } else if b == [] {
      assert p[0] == a[0] && p[n - 1] == Last(a);
      assert Turns(ccw, p[0], p[n - 1], p[n]);
      TurnsAround(ccw, a[0], Last(a), y);
    } else {
      assert p[n - 1] == Last(a) && p[n + 1] == b[0];
      assert Turns(ccw, p[n - 1], p[n], p[n + 1]);
    }
  }

  /** A ring without a vertex is still convex, and no larger. */
  lemma WithoutShrinks(ccw: bool, a: seq<Point>, y: Point, b: seq<Point>)
    requires Convex(ccw, a + [y] + b)
    ensures Convex(ccw, a + b) && Signed(ccw, Ring(a + b)) <= Signed(ccw, Ring(a + [y] + b))
  {
    ConvexWithout(ccw, a, y, b);
    if a + b == [] {
      CrossFlips(y, y);
      assert a + [y] + b == [y];
    } else {
      RingThrough(a, y, b);
      TurnsAtNeighbours(ccw, a, y, b);
    }
  }

  lemma ConvexWithout(ccw: bool, a: seq<Point>, y: Point, b: seq<Point>)
    requires Convex(ccw, a + [y] + b)
    ensures Convex(ccw, a + b)
  {
    var p, q, n := a + [y] + b, a + b, |a|;
    forall i, j, k | 0 <= i < j < k < |q| ensures Turns(ccw, q[i], q[j], q[k]) {
      var u, v, w := if i < n then i else i + 1, if j < n then j else j + 1, if k < n then k else k + 1;
      assert q[i] == p[u] && q[j] == p[v] && q[k] == p[w];
      assert Turns(ccw, p[u], p[v], p[w]);
    }
  }

  // ------------------------------------------------------------ adding a crossing

  /** Any three vertices in ring order, some of them perhaps the same. */
  lemma TurnsInOrder(ccw: bool, p: seq<Point>, i: nat, j: nat, k: nat)
    requires Convex(ccw, p) && i <= j <= k < |p|
    ensures Turns(ccw, p[i], p[j], p[k])
  {
    if i == j {
      NoTurn(ccw, p[i], p[k]);
    } else if j == k {
      NoTurn(ccw, p[i], p[j]);
    }
  }

  /** A point of the edge behind vertex `c` may stand at any of the three places. */
  lemma TurnsAtCrossing(ccw: bool, p: seq<Point>, c: nat, t: real, i: nat, k: nat)
    requires Convex(ccw, p) && c < |p| && 0.0 <= t <= 1.0 && i <= k < |p|
    ensures var z := Along(p[c], LineClipping.Following(p, c), t);
            && (k <= c ==> Turns(ccw, p[i], p[k], z))
            && (i <= c < k ==> Turns(ccw, p[i], z, p[k]))
            && (c < i ==> Turns(ccw, z, p[i], p[k]))
  {
    var d := if c + 1 < |p| then c + 1 else 0;
    var z := Along(p[c], p[d], t);
    assert d == (c + 1) % |p|;
    if k <= c {
      TurnsInOrder(ccw, p, i, k, c);
      if d != 0 {
        TurnsInOrder(ccw, p, i, k, d);
      } else {
        TurnsInOrder(ccw, p, 0, i, k);
        TurnsAround(ccw, p[0], p[i], p[k]);
      }
      TurnsBetween(ccw, p[i], p[k], p[c], p[d], t);
    } else if i <= c {
      TurnsInOrder(ccw, p, i, c, k);
      TurnsInOrder(ccw, p, i, d, k);
      TurnsAround(ccw, p[k], p[i], p[c]);
      TurnsAround(ccw, p[k], p[i], p[d]);
      TurnsBetween(ccw, p[k], p[i], p[c], p[d], t);
      TurnsAround(ccw, p[k], p[i], z);
    } else {
      TurnsInOrder(ccw, p, c, i, k);
      TurnsInOrder(ccw, p, d, i, k);
      TurnsAround(ccw, p[c], p[i], p[k]);
      TurnsAround(ccw, p[d], p[i], p[k]);
      TurnsBetween(ccw, p[i], p[k], p[c], p[d], t);
      TurnsAround(ccw, z, p[i], p[k]);
    }
  }

  lemma ConvexWith(ccw: bool, a: seq<Point>, c: Point, z: Point, b: seq<Point>)
    requires var p, n := a + [c] + b, |a|;
             && Convex(ccw, p)
             && forall i, k :: 0 <= i <= k < |p| ==>
                  && (k <= n ==> Turns(ccw, p[i], p[k], z)) && (i <= n < k ==> Turns(ccw, p[i], z, p[k]))
                  && (n < i ==> Turns(ccw, z, p[i], p[k]))
    ensures Convex(ccw, a + [c, z] + b)
  {
    var p, q, n := a + [c] + b, a + [c, z] + b, |a|;
    forall i, j, k | 0 <= i < j < k < |q| ensures Turns(ccw, q[i], q[j], q[k]) {
      var u, v, w := if i <= n then i else i - 1, if j <= n then j else j - 1, if k <= n then k else k - 1;
      assert (i != n + 1 ==> q[i] == p[u]) && (j != n + 1 ==> q[j] == p[v]) && (k != n + 1 ==> q[k] == p[w]);
      assert q[n + 1] == z;
      if i == n + 1 {
        assert n < v && Turns(ccw, z, p[v], p[w]);
      } else if j == n + 1 {
        assert u <= n < w && Turns(ccw, p[u], z, p[w]);
      } else if k == n + 1 {
        assert v <= n && Turns(ccw, p[u], p[v], z);
      } else {
        assert Turns(ccw, p[u], p[v], p[w]);
      }
    }
  }

  lemma AlongIsStraight(c: Point, d: Point, t: real)
    ensures Side(c, Along(c, d, t), d) == 0.0
  {
    TurnsAround(true, c, Along(c, d, t), d);
    TurnsAround(true, Along(c, d, t), d, c);
    LineClipping.SideAlong(d, c, c, d, t);
    NoTurn(true, d, c);
  }

  lemma FollowsItself(a: seq<Point>, c: Point, b: seq<Point>)
    ensures var p, n := a + [c] + b, |a|;
            p[n] == c && LineClipping.Following(p, n) == After(a + [c], b)
  {
    var p, n := a + [c] + b, |a|;
    if b == [] {
      assert p == a + [c] && (n + 1) % |p| == 0;
    } else {
      assert (n + 1) % |p| == n + 1 && p[n + 1] == b[0];
    }
  }

  /** A point added on an edge changes neither convexity nor area. */
  lemma CrossingKeepsArea(ccw: bool, a: seq<Point>, c: Point, b: seq<Point>, t: real)
    requires Convex(ccw, a + [c] + b) && 0.0 <= t <= 1.0
    ensures var z := Along(c, After(a + [c], b), t);
            Convex(ccw, a + [c, z] + b) && Ring(a + [c, z] + b) == Ring(a + [c] + b)
  {
    var p, n := a + [c] + b, |a|;
    var d := After(a + [c], b);
    var z := Along(c, d, t);
    FollowsItself(a, c, b);
    forall i: nat, k: nat | i <= k < |p|
      ensures (k <= n ==> Turns(ccw, p[i], p[k], z)) && (i <= n < k ==> Turns(ccw, p[i], z, p[k]))
      ensures n < i ==> Turns(ccw, z, p[i], p[k])
    {
      TurnsAtCrossing(ccw, p, n, t, i, k);
    }
    ConvexWith(ccw, a, c, z, b);
    RingThrough(a + [c], z, b);
    assert a + [c, z] + b == (a + [c]) + [z] + b;
    AlongIsStraight(c, d, t);
  }

  // -------------------------------------------------------------------- one pass

  /** A point of the boundary, and whether the pass keeps it. */
  datatype Mark = Mark(point: Point, kept: bool)

  function Points(ms: seq<Mark>): seq<Point> { seq(|ms|, i requires 0 <= i < |ms| => ms[i].point) }

  function Kept(ms: seq<Mark>): seq<Point> {
    if ms == [] then [] else (if ms[0].kept then [ms[0].point] else []) + Kept(ms[1..])
  }

  lemma {:induction false} KeptConcat(x: seq<Mark>, y: seq<Mark>)
    ensures Kept(x + y) == Kept(x) + Kept(y)
  {
    if x == [] {
      assert x + y == y;
    } else {
      KeptConcat(x[1..], y);
      assert (x + y)[1..] == x[1..] + y && (x + y)[0] == x[0];
      var head := if x[0].kept then [x[0].point] else [];
      assert Kept(x + y) == head + Kept((x + y)[1..]) && Kept(x) == head + Kept(x[1..]);
      Regroup(head, Kept(x[1..]), Kept(y));
    }
  }

  lemma FirstMark(a: seq<Point>, ms: seq<Mark>)
    requires ms != []
    ensures a + Points(ms) == a + [ms[0].point] + Points(ms[1..])
    ensures a + Kept(ms) == if ms[0].kept then a + [ms[0].point] + Kept(ms[1..]) else a + Kept(ms[1..])
  {
    var y := [ms[0].point];
    FirstPoint(ms);
    Regroup(a, y, Points(ms[1..]));
    Regroup(a, y, Kept(ms[1..]));
  }

  lemma FirstPoint(ms: seq<Mark>)
    requires ms != []
    ensures Points(ms) == [ms[0].point] + Points(ms[1..])
    ensures Kept(ms) == if ms[0].kept then [ms[0].point] + Kept(ms[1..]) else Kept(ms[1..])
  {
    if !ms[0].kept { assert [] + Kept(ms[1..]) == Kept(ms[1..]); }
    assert Points(ms) == [ms[0].point] + Points(ms[1..]) by { hide Kept; }
  }

  lemma SignedGrows(ccw: bool, x: real, y: real, z: real)
    requires Signed(ccw, x) <= Signed(ccw, y) <= Signed(ccw, z)
    ensures Signed(ccw, x) <= Signed(ccw, z)
  {
  }

  /** Leaving out marks keeps a ring convex and makes it no larger. */
  lemma {:induction false} KeptShrinks(ccw: bool, a: seq<Point>, ms: seq<Mark>)
    requires Convex(ccw, a + Points(ms))
    ensures Convex(ccw, a + Kept(ms)) && Signed(ccw, Ring(a + Kept(ms))) <= Signed(ccw, Ring(a + Points(ms)))
    decreases |ms|
  {
    if ms == [] {
      assert Points(ms) == [];
    } else {
      var y, rest := ms[0].point, ms[1..];
      FirstMark(a, ms);
      hide *;
      if ms[0].kept {
        KeptShrinks(ccw, a + [y], rest);
      } else {
        WithoutShrinks(ccw, a, y, Points(rest));
        KeptShrinks(ccw, a, rest);
        SignedGrows(ccw, Ring(a + Kept(ms)), Ring(a + Points(rest)), Ring(a + Points(ms)));
      }
    }
  }

  /** A vertex, kept or not, and the crossing behind it that the pass emits. */
  function Marked(s: Point, e: Point, cur: Point, next: Point): seq<Mark> {
    var ix := LineIntersection(cur, next, s, e);
    [Mark(cur, Side(s, e, cur) >= 0.0)]
    + if LineClipping.ChangesSide(s, e, cur, next) && ix.Some? then [Mark(ix.value, true)] else []
  }

  function Marks(s: Point, e: Point, poly: seq<Point>, n: nat): seq<Mark>
    requires n <= |poly|
  {
    if n == 0 then [] else Marks(s, e, poly, n - 1) + Marked(s, e, poly[n - 1], poly[n % |poly|])
  }

  lemma MarkedKeeps(s: Point, e: Point, cur: Point, next: Point)
    ensures Kept(Marked(s, e, cur, next)) == Emit(s, e, cur, next)
  {
    var ms := Marked(s, e, cur, next);
    assert Kept(ms[1..]) == if |ms| == 2 then [ms[1].point] else [];
  }

  lemma {:induction false} MarksKeep(s: Point, e: Point, poly: seq<Point>, n: nat, emit: (Point, Point) -> seq<Point>)
    requires n <= |poly| && forall x, y :: emit(x, y) == Emit(s, e, x, y)
    ensures Kept(Marks(s, e, poly, n)) == Around(poly, n, emit)
    decreases n
  {
    if n > 0 {
      var cur, next := poly[n - 1], poly[n % |poly|];
      MarksKeep(s, e, poly, n - 1, emit);
      KeptConcat(Marks(s, e, poly, n - 1), Marked(s, e, cur, next));
      MarkedKeeps(s, e, cur, next);
    }
  }

  lemma MarkedPoints(s: Point, e: Point, cur: Point, next: Point) returns (t: real)
    ensures 0.0 <= t <= 1.0
    ensures Points(Marked(s, e, cur, next)) == [cur] || Points(Marked(s, e, cur, next)) == [cur, Along(cur, next, t)]
  {
    var ms := Marked(s, e, cur, next);
    t := 0.0;
    if |ms| == 2 {
      t := Cross(Minus(s, cur), Minus(e, s)) / Cross(Minus(next, cur), Minus(e, s));
      assert Points(ms) == [cur, ms[1].point];
    } else {
      assert Points(ms) == [cur];
    }
  }

  lemma PointsConcat(x: seq<Mark>, y: seq<Mark>)
    ensures Points(x + y) == Points(x) + Points(y)
  {
  }

  lemma {:induction false} MarksStart(s: Point, e: Point, poly: seq<Point>, n: nat)
    requires 0 < n <= |poly|
    ensures Marks(s, e, poly, n) != [] && Marks(s, e, poly, n)[0].point == poly[0]
    decreases n
  {
    if n > 1 { MarksStart(s, e, poly, n - 1); }
  }

  lemma WithinModulus(n: nat, m: nat)
    requires n < m
    ensures n % m == n
  {
  }

  lemma NextIsAfter(a: seq<Point>, c: Point, b: seq<Point>, poly: seq<Point>, n: nat)
    requires 0 < n <= |poly| && c == poly[n - 1] && b == poly[n..] &&
               (if n == 1 then a == [] else a != [] && a[0] == poly[0])
    ensures After(a + [c], b) == poly[n % |poly|]
  {
    if n == |poly| {
      assert b == [] && n % |poly| == 0;
      assert (a + [c])[0] == poly[0];
    } else {
      WithinModulus(n, |poly|);
      assert b[0] == poly[n];
    }
  }

  lemma MarkedKeepsArea(ccw: bool, s: Point, e: Point, a: seq<Point>, c: Point, b: seq<Point>)
    requires Convex(ccw, a + [c] + b)
    ensures var p := a + Points(Marked(s, e, c, After(a + [c], b))) + b;
            Convex(ccw, p) && Ring(p) == Ring(a + [c] + b)
  {
    hide Convex;
    hide Ring;
    hide Marked;
    var t := MarkedPoints(s, e, c, After(a + [c], b));
    CrossingKeepsArea(ccw, a, c, b, t);
  }

  lemma SplitAt(a: seq<Point>, poly: seq<Point>, n: nat)
    requires 0 < n <= |poly|
    ensures a + poly[n - 1..] == a + [poly[n - 1]] + poly[n..]
  {
  }

  lemma MarksNext(ccw: bool, s: Point, e: Point, poly: seq<Point>, n: nat, ms: seq<Mark>)
    requires 0 < n <= |poly| && (if n == 1 then ms == [] else ms != [] && ms[0].point == poly[0])
    requires Convex(ccw, Points(ms) + poly[n - 1..])
    ensures var p := Points(ms + Marked(s, e, poly[n - 1], poly[n % |poly|])) + poly[n..];
            Convex(ccw, p) && Ring(p) == Ring(Points(ms) + poly[n - 1..])
  {
    hide Convex;
    hide Ring;
    hide Marked;
    var a, c, b := Points(ms), poly[n - 1], poly[n..];
    SplitAt(a, poly, n);
    NextIsAfter(a, c, b, poly, n);
    MarkedKeepsArea(ccw, s, e, a, c, b);
    PointsConcat(ms, Marked(s, e, c, poly[n % |poly|]));
  }

  /** The ring with the crossings of its first `n` edges added. */
  lemma {:induction false} MarksKeepArea(ccw: bool, s: Point, e: Point, poly: seq<Point>, n: nat)
    requires n <= |poly| && Convex(ccw, poly)
    ensures var p := Points(Marks(s, e, poly, n)) + poly[n..];
            Convex(ccw, p) && Ring(p) == Ring(poly)
    decreases n
  {
    hide Convex;
    hide Ring;
    hide Marked;
    if n == 0 {
      assert Points(Marks(s, e, poly, 0)) + poly[0..] == poly;
    } else {
      MarksKeepArea(ccw, s, e, poly, n - 1);
      if n > 1 { MarksStart(s, e, poly, n - 1); }
      MarksNext(ccw, s, e, poly, n, Marks(s, e, poly, n - 1));
    }
  }

  /** One pass over a convex ring: convex still, and no larger. */
  lemma PassShrinks(ccw: bool, s: Point, e: Point, poly: seq<Point>)
    requires Convex(ccw, poly)
    ensures Convex(ccw, ClipEdge(s, e, poly)) && Signed(ccw, Ring(ClipEdge(s, e, poly))) <= Signed(ccw, Ring(poly))
  {
    hide Convex;
    hide Ring;
    hide Marks;
    var ms := Marks(s, e, poly, |poly|);
    MarksKeepArea(ccw, s, e, poly, |poly|);
    assert Points(ms) + poly[|poly|..] == Points(ms) == [] + Points(ms);
    KeptShrinks(ccw, [], ms);
    assert [] + Kept(ms) == Kept(ms);
    hide Emit;
    MarksKeep(s, e, poly, |poly|, (cur, next) => Emit(s, e, cur, next));
  }

  /** Through all passes. */
  lemma {:induction false} ClippingShrinks(ccw: bool, poly: seq<Point>, clip: seq<Point>, n: nat)
    requires (n < |clip| || n == 0) && Convex(ccw, poly)
    ensures Convex(ccw, ClipAll(poly, clip, n)) && Signed(ccw, Ring(ClipAll(poly, clip, n))) <= Signed(ccw, Ring(poly))
    decreases n
  {
    if n > 0 {
      ClippingShrinks(ccw, poly, clip, n - 1);
      PassShrinks(ccw, clip[n - 1], clip[n], ClipAll(poly, clip, n - 1));
    }
  }

  // ------------------------------------------------------------------------ areas

  /** A convex ring encloses its area the way round it turns. */
  lemma ConvexEncloses(ccw: bool, p: seq<Point>)
    requires Convex(ccw, p)
    ensures Signed(ccw, Ring(p)) >= 0.0
  {
    var ms := seq(|p|, i requires 0 <= i < |p| => Mark(p[i], false));
    assert Points(ms) == p == [] + Points(ms);
    KeptShrinks(ccw, [], ms);
    NoneKept(ms);
    assert [] + Kept(ms) == [];
  }

  lemma {:induction false} NoneKept(ms: seq<Mark>)
    requires forall m <- ms :: !m.kept
    ensures Kept(ms) == []
  {
    if ms != [] { NoneKept(ms[1..]); }
  }

  lemma ClosedArea(p: seq<Point>)
    requires |p| >= 3
    ensures Shoelace(p + [p[0]]) == Abs(Ring(p)) / 2.0
  {
    PathNext(p, p[0]);
  }

  lemma FlatRing(p: seq<Point>)
    requires |p| < 3
    ensures Ring(p) == 0.0
  {
    if |p| == 1 {
      CrossFlips(p[0], p[0]);
    } else if |p| == 2 {
      assert p == [p[0]] + [p[1]];
      PathNext([p[0]], p[1]);
      CrossFlips(p[0], p[1]);
    }
  }

  lemma OpenArea(a: seq<Point>)
    requires a != [] && a[0] == a[|a| - 1]
    ensures Shoelace(a) == Abs(Ring(Open(a))) / 2.0
  {
    var p := Open(a);
    if |a| < 4 {
      FlatRing(p);
    } else {
      assert a == p + [p[0]];
      ClosedArea(p);
    }
  }

  /** For a convex subject, whatever the clip polygon: the intersection is no larger than the subject. */
  lemma IntersectionWithin(ccw: bool, a: seq<Point>, b: seq<Point>)
    requires a != [] && a[0] == a[|a| - 1] && Convex(ccw, Open(a))
    ensures 0.0 <= IntersectionArea(a, b) <= Shoelace(a)
  {
    var n := if b == [] then 0 else |b| - 1;
    ClippingShrinks(ccw, Open(a), b, n);
    ConvexEncloses(ccw, Open(a));
    ConvexEncloses(ccw, Clipped(a, b));
    OpenArea(a);
    if |Clipped(a, b)| >= 3 { ClosedArea(Clipped(a, b)); }
  }

  // ---------------------------------------------------------- overlap of two boxes

  /** The closed ring of a box's corners. */
  function BoxPolygon(corners: seq<Point>): seq<Point> {
    if corners != [] && Last(corners) != corners[0] then corners + [corners[0]] else corners
  }

  function RotatedIou(a: seq<Point>, b: seq<Point>): real {
    var p, q := BoxPolygon(a), BoxPolygon(b);
    if Shoelace(p) < EPSILON || Shoelace(q) < EPSILON then 0.0
    else
      var inter := IntersectionArea(p, q);
      var union := Shoelace(p) + Shoelace(q) - inter;
      if union < EPSILON then 0.0 else inter / union
  }

  lemma ShareWithin(inter: real, a: real, b: real)
    requires 0.0 <= inter <= a && b > 0.0
    ensures var union := a + b - inter;
            union > 0.0 && 0.0 <= inter / union && (inter / union) * b <= a
  {
    var union := a + b - inter;
    var share := inter / union;
    assert share * union == inter;
    if share < 0.0 { LineClipping.Positive(-share, union); }
    assert share * (union - b) >= 0.0;
    assert share * (union - b) == share * union - share * b;
  }

  /** The overlap of a convex box with any other is at most the quotient of their areas. */
  lemma OverlapWithin(ccw: bool, a: seq<Point>, b: seq<Point>)
    requires Convex(ccw, Open(BoxPolygon(a)))
    ensures 0.0 <= RotatedIou(a, b)
    ensures RotatedIou(a, b) * Shoelace(BoxPolygon(b)) <= Shoelace(BoxPolygon(a))
  {
    var p, q := BoxPolygon(a), BoxPolygon(b);
    if Shoelace(p) >= EPSILON && Shoelace(q) >= EPSILON {
      IntersectionWithin(ccw, p, q);
      ShareWithin(IntersectionArea(p, q), Shoelace(p), Shoelace(q));
    }
  }

  lemma AtLeastShare(share: real, least: real, a: real, b: real)
    requires share >= least && share * b <= a && b >= 0.0
    ensures least * b <= a
  {
    assert (share - least) * b >= 0.0;
    assert (share - least) * b == share * b - least * b;
  }

  /** With that measure, what a convex kept box suppresses is at most twice its size. */
  lemma SuppressedIsNotLarge<D>(boxes: Boxes<D>, corners: D -> seq<Point>, ccw: bool, kept: D, other: D)
    requires boxes.iou(kept, other) == RotatedIou(corners(kept), corners(other))
    requires Convex(ccw, Open(BoxPolygon(corners(kept)))) && Overlaps(boxes, kept, other)
    ensures IOU_THRESHOLD * Shoelace(BoxPolygon(corners(other))) <= Shoelace(BoxPolygon(corners(kept)))
  {
    hide RotatedIou;
    hide Convex;
    OverlapWithin(ccw, corners(kept), corners(other));
    AreaNotNegative(BoxPolygon(corners(other)));
    hide Shoelace;
    AtLeastShare(boxes.iou(kept, other), IOU_THRESHOLD,
                 Shoelace(BoxPolygon(corners(kept))), Shoelace(BoxPolygon(corners(other))));
  }

  lemma AreaNotNegative(p: seq<Point>)
    ensures Shoelace(p) >= 0.0
  {
  }
}
