/**
 * Greedy matching of vessel detections to predicted AIS positions: all pairs
 * within the radius, closest first, each endpoint used once.
 */
module Matching {
  import opened Ordering

  datatype Pair = Pair(dist: real, di: nat, ai: nat)

  datatype Ais = Ais(mmsi: string, shipName: string, flagState: string, vesselType: string)

  predicate CloserOrEqual(a: Pair, b: Pair) { a.dist <= b.dist }

  /** The in-radius pairs of detection `di` with the first `m` reports. */
  function Row(dist: (nat, nat) -> real, radius: real, di: nat, m: nat): seq<Pair> {
    if m == 0 then []
    else Row(dist, radius, di, m - 1) + if dist(di, m - 1) <= radius then [Pair(dist(di, m - 1), di, m - 1)] else []
  }

  function Candidates(dist: (nat, nat) -> real, radius: real, n: nat, m: nat): seq<Pair> {
    if n == 0 then [] else Candidates(dist, radius, n - 1, m) + Row(dist, radius, n - 1, m)
  }

  predicate UsesDet(ps: seq<Pair>, di: nat) { exists i :: 0 <= i < |ps| && ps[i].di == di }

  predicate UsesAis(ps: seq<Pair>, ai: nat) { exists i :: 0 <= i < |ps| && ps[i].ai == ai }

  predicate Free(ps: seq<Pair>, p: Pair) { !UsesDet(ps, p.di) && !UsesAis(ps, p.ai) }

  /** The pairs the greedy pass keeps out of `ps`. */
  function Greedy(ps: seq<Pair>): seq<Pair> {
    if ps == [] then []
    else
      var kept, p := Greedy(ps[..|ps| - 1]), ps[|ps| - 1];
      if Free(kept, p) then kept + [p] else kept
  }

  function Matched(dist: (nat, nat) -> real, radius: real, n: nat, m: nat): seq<Pair> {
    Greedy(StableSort(CloserOrEqual, Candidates(dist, radius, n, m)))
  }

  // -------------------------------------------------------------- what it means

  ghost predicate InRadius(dist: (nat, nat) -> real, radius: real, n: nat, m: nat, p: Pair) {
    p.di < n && p.ai < m && p.dist == dist(p.di, p.ai) && p.dist <= radius
  }

  ghost predicate OneToOne(ps: seq<Pair>) {
    forall i, j :: 0 <= i < j < |ps| ==> ps[i].di != ps[j].di && ps[i].ai != ps[j].ai
  }

  predicate SharesEndpoint(a: Pair, b: Pair) { a.di == b.di || a.ai == b.ai }

  lemma {:induction false} RowExactly(dist: (nat, nat) -> real, radius: real, di: nat, m: nat, p: Pair)
    ensures p in Row(dist, radius, di, m) <==> p.di == di && p.ai < m && p.dist == dist(di, p.ai) && p.dist <= radius
  {
    if m > 0 { RowExactly(dist, radius, di, m - 1, p); }
  }

  lemma {:induction false} CandidatesExactly(dist: (nat, nat) -> real, radius: real, n: nat, m: nat, p: Pair)
    ensures p in Candidates(dist, radius, n, m) <==> p.di < n && p in Row(dist, radius, p.di, m)
  {
    if n > 0 {
      CandidatesExactly(dist, radius, n - 1, m, p);
      RowExactly(dist, radius, n - 1, m, p);
      InConcat(Candidates(dist, radius, n - 1, m), Row(dist, radius, n - 1, m), p);
    }
  }

  lemma InConcat(a: seq<Pair>, b: seq<Pair>, p: Pair)
    ensures p in a + b <==> p in a || p in b
  {
  }

  lemma DistanceOrder()
    ensures TotalPreorder(CloserOrEqual)
  {
  }

  lemma SortedCandidates(dist: (nat, nat) -> real, radius: real, n: nat, m: nat)
    ensures var ps := StableSort(CloserOrEqual, Candidates(dist, radius, n, m));
            SortedBy(CloserOrEqual, ps) && forall p :: p in ps <==> InRadius(dist, radius, n, m, p)
  {
    DistanceOrder();
    var cs := Candidates(dist, radius, n, m);
    var ps := StableSort(CloserOrEqual, cs);
    SortSorts(CloserOrEqual, cs);
    forall p ensures p in ps <==> InRadius(dist, radius, n, m, p) {
      CandidatesExactly(dist, radius, n, m, p);
      RowExactly(dist, radius, p.di, m, p);
      assert p in ps <==> p in multiset(ps);
      assert p in cs <==> p in multiset(cs);
    }
  }

  lemma {:induction false} GreedyOneToOne(ps: seq<Pair>)
    ensures OneToOne(Greedy(ps))
    ensures forall p <- Greedy(ps) :: p in ps
  {
    if ps != [] { GreedyOneToOne(ps[..|ps| - 1]); }
  }

  /** Every pair of a sorted list is kept, or blocked by a kept pair no farther away. */
  lemma {:induction false} GreedyBlocks(ps: seq<Pair>, p: Pair)
    requires SortedBy(CloserOrEqual, ps) && p in ps
    ensures p in Greedy(ps) || exists q <- Greedy(ps) :: SharesEndpoint(p, q) && q.dist <= p.dist
  {
    var init, last := ps[..|ps| - 1], ps[|ps| - 1];
    var kept := Greedy(init);
    if p in init {
      GreedyBlocks(init, p);
      if q :| q in kept && SharesEndpoint(p, q) && q.dist <= p.dist { assert q in Greedy(ps); }
    } else {
      assert p == last;
      if !Free(kept, p) {
        var i :| 0 <= i < |kept| && SharesEndpoint(p, kept[i]);
        GreedyOneToOne(init);
        assert kept[i] in init;
        var k :| 0 <= k < |init| && init[k] == kept[i];
        assert CloserOrEqual(ps[k], ps[|ps| - 1]);
        assert kept[i] in Greedy(ps);
      }
    }
  }

  /** The matching: exactly in-radius pairs, one-to-one, and closest-first. */
  lemma MatchingIsGreedy(dist: (nat, nat) -> real, radius: real, n: nat, m: nat)
    ensures var ms := Matched(dist, radius, n, m);
            && OneToOne(ms)
            && (forall q <- ms :: InRadius(dist, radius, n, m, q))
            && forall p :: InRadius(dist, radius, n, m, p) && p !in ms ==>
                 exists q <- ms :: SharesEndpoint(p, q) && q.dist <= p.dist
  {
    SortedCandidates(dist, radius, n, m);
    var ps := StableSort(CloserOrEqual, Candidates(dist, radius, n, m));
    GreedyOneToOne(ps);
    forall p | InRadius(dist, radius, n, m, p) && p !in Greedy(ps)
      ensures exists q <- Greedy(ps) :: SharesEndpoint(p, q) && q.dist <= p.dist
    {
      GreedyBlocks(ps, p);
    }
  }

  // ------------------------------------------------------------------------ ties

  /** Detection by detection, and report by report. */
  predicate ListedBefore(a: Pair, b: Pair) { a.di < b.di || (a.di == b.di && a.ai < b.ai) }

  /** Closer, or as close and listed before. */
  predicate Ahead(a: Pair, b: Pair) { a.dist < b.dist || (a.dist == b.dist && ListedBefore(a, b)) }

  ghost predicate Listed(ps: seq<Pair>) { forall i, j :: 0 <= i < j < |ps| ==> ListedBefore(ps[i], ps[j]) }

  ghost predicate InLine(ps: seq<Pair>) { forall i, j :: 0 <= i < j < |ps| ==> Ahead(ps[i], ps[j]) }

  lemma {:induction false} RowListed(dist: (nat, nat) -> real, radius: real, di: nat, m: nat)
    ensures Listed(Row(dist, radius, di, m)) && forall p <- Row(dist, radius, di, m) :: p.di == di && p.ai < m
  {
    if m > 0 { RowListed(dist, radius, di, m - 1); }
  }

  lemma {:induction false} CandidatesListed(dist: (nat, nat) -> real, radius: real, n: nat, m: nat)
    ensures Listed(Candidates(dist, radius, n, m)) && forall p <- Candidates(dist, radius, n, m) :: p.di < n
  {
    if n > 0 {
      CandidatesListed(dist, radius, n - 1, m);
      RowListed(dist, radius, n - 1, m);
      JoinedListed(Candidates(dist, radius, n - 1, m), Row(dist, radius, n - 1, m));
    }
  }

  lemma JoinedListed(a: seq<Pair>, b: seq<Pair>)
    requires Listed(a) && Listed(b) && forall p <- a, q <- b :: ListedBefore(p, q)
    ensures Listed(a + b)
  {
  }

  lemma InLineCons(x: Pair, ps: seq<Pair>)
    requires InLine(ps) && forall p <- ps :: Ahead(x, p)
    ensures InLine([x] + ps)
  {
  }

  lemma {:induction false} InsertInLine(x: Pair, ps: seq<Pair>)
    requires InLine(ps) && forall p <- ps :: ListedBefore(x, p)
    ensures InLine(Insert(CloserOrEqual, x, ps))
    ensures forall p :: p in Insert(CloserOrEqual, x, ps) <==> p == x || p in ps
  {
    if ps == [] {
    } else if CloserOrEqual(x, ps[0]) {
      forall p <- ps ensures Ahead(x, p) {
        var i :| 0 <= i < |ps| && ps[i] == p;
        assert i > 0 ==> Ahead(ps[0], ps[i]);
      }
      InLineCons(x, ps);
    } else {
      var rest := ps[1..];
      assert ps == [ps[0]] + rest;
      InsertInLine(x, rest);
      InLineCons(ps[0], Insert(CloserOrEqual, x, rest));
    }
  }

  lemma {:induction false} SortedInLine(ps: seq<Pair>)
    requires Listed(ps)
    ensures InLine(StableSort(CloserOrEqual, ps))
    ensures forall p :: p in StableSort(CloserOrEqual, ps) <==> p in ps
  {
    if ps != [] {
      var rest := ps[1..];
      assert ps == [ps[0]] + rest;
      SortedInLine(rest);
      InsertInLine(ps[0], StableSort(CloserOrEqual, rest));
    }
  }

  lemma LastInLine(ps: seq<Pair>, q: Pair)
    requires ps != [] && InLine(ps) && q in ps[..|ps| - 1]
    ensures Ahead(q, ps[|ps| - 1])
  {
    var n := |ps| - 1;
    var k :| 0 <= k < n && ps[..n][k] == q;
    assert Ahead(ps[k], ps[n]);
  }

  lemma InLineNext(ps: seq<Pair>, x: Pair)
    requires InLine(ps) && forall p <- ps :: Ahead(p, x)
    ensures InLine(ps + [x])
  {
  }

  lemma {:induction false} GreedyInLine(ps: seq<Pair>)
    requires InLine(ps)
    ensures InLine(Greedy(ps)) && forall q <- Greedy(ps) :: q in ps
  {
    if ps != [] {
      var n := |ps| - 1;
      GreedyInLine(ps[..n]);
      forall q <- Greedy(ps[..n]) ensures Ahead(q, ps[n]) { LastInLine(ps, q); }
      InLineNext(Greedy(ps[..n]), ps[n]);
    }
  }

  lemma {:induction false} GreedyAhead(ps: seq<Pair>, p: Pair)
    requires InLine(ps) && p in ps
    ensures p in Greedy(ps) || exists q <- Greedy(ps) :: SharesEndpoint(p, q) && Ahead(q, p)
  {
    var n := |ps| - 1;
    var init, kept := ps[..n], Greedy(ps[..n]);
    hide Ahead;
    if p in init {
      GreedyAhead(init, p);
      if q :| q in kept && SharesEndpoint(p, q) && Ahead(q, p) { assert q in Greedy(ps); }
    } else {
      assert p == ps[n];
      if !Free(kept, p) {
        var i :| 0 <= i < |kept| && SharesEndpoint(p, kept[i]);
        GreedyInLine(init);
        LastInLine(ps, kept[i]);
        assert kept[i] in Greedy(ps);
      }
    }
  }

  /**
   * Ties are broken by position: a pair within the radius is passed over only for one that is closer, or
   * as close and listed before; the pairs kept are in that order. That leaves one matching.
   */
  lemma TiesAreByPosition(dist: (nat, nat) -> real, radius: real, n: nat, m: nat, p: Pair)
    requires InRadius(dist, radius, n, m, p)
    ensures var ms := Matched(dist, radius, n, m);
            InLine(ms) && (p in ms || exists q <- ms :: SharesEndpoint(p, q) && Ahead(q, p))
  {
    CandidatesListed(dist, radius, n, m);
    SortedInLine(Candidates(dist, radius, n, m));
    SortedCandidates(dist, radius, n, m);
    var ps := StableSort(CloserOrEqual, Candidates(dist, radius, n, m));
    GreedyInLine(ps);
    GreedyAhead(ps, p);
  }

  // --------------------------------------------------------- half of the optimum

  ghost function Dets(ps: seq<Pair>): set<nat> { set p <- ps :: p.di }

  ghost function AisIds(ps: seq<Pair>): set<nat> { set p <- ps :: p.ai }

  lemma {:induction false} EndpointCount(ps: seq<Pair>)
    ensures |Dets(ps)| <= |ps| && |AisIds(ps)| <= |ps|
  {
    if ps != [] {
      var init, p := ps[..|ps| - 1], ps[|ps| - 1];
      EndpointCount(init);
      assert ps == init + [p];
      assert Dets(ps) == Dets(init) + {p.di} && AisIds(ps) == AisIds(init) + {p.ai};
    }
  }

  /** A one-to-one list all of whose pairs touch `ds` or `as_` is no longer than both together. */
  lemma {:induction false} CoveredIsShort(ps: seq<Pair>, ds: set<nat>, as_: set<nat>)
    requires OneToOne(ps)
    requires forall p <- ps :: p.di in ds || p.ai in as_
    ensures |ps| <= |ds| + |as_|
  {
    if ps != [] {
      var init, p := ps[..|ps| - 1], ps[|ps| - 1];
      forall q <- init ensures q.di != p.di && q.ai != p.ai {
        var i :| 0 <= i < |init| && init[i] == q;
        assert ps[i] == q;
      }
      if p.di in ds {
        CoveredIsShort(init, ds - {p.di}, as_);
      } else {
        CoveredIsShort(init, ds, as_ - {p.ai});
      }
    }
  }

  /** The greedy matching has at least half as many pairs as any other one. */
  lemma AtLeastHalf(dist: (nat, nat) -> real, radius: real, n: nat, m: nat, other: seq<Pair>)
    requires OneToOne(other) && forall p <- other :: InRadius(dist, radius, n, m, p)
    ensures |other| <= 2 * |Matched(dist, radius, n, m)|
  {
    var ms := Matched(dist, radius, n, m);
    MatchingIsGreedy(dist, radius, n, m);
    EndpointCount(ms);
    forall p <- other ensures p.di in Dets(ms) || p.ai in AisIds(ms) {
      if p !in ms {
        var q :| q in ms && SharesEndpoint(p, q) && q.dist <= p.dist;
        assert q.di in Dets(ms) && q.ai in AisIds(ms);
      }
    }
    CoveredIsShort(other, Dets(ms), AisIds(ms));
  }

  // ------------------------------------------------------------------- the node

  class Detection {
    var darkVessel: bool
    var ais: Ais

    constructor (darkVessel: bool, ais: Ais)
      ensures this.darkVessel == darkVessel && this.ais == ais
    {
      this.darkVessel, this.ais := darkVessel, ais;
    }
  }

  method BuildPairs(dist: (nat, nat) -> real, radius: real, n: nat, m: nat) returns (pairs: seq<Pair>)
    ensures pairs == Candidates(dist, radius, n, m)
  {
    pairs := [];
    for di := 0 to n
      invariant pairs == Candidates(dist, radius, di, m)
    {
      ghost var before := pairs;
      for ai := 0 to m
        invariant pairs == before + Row(dist, radius, di, ai)
      {
        var d := dist(di, ai);
        if d <= radius { pairs := pairs + [Pair(d, di, ai)]; }
      }
    }
  }

  /** What the matched pairs `ms` have written to the detections so far. */
  twostate predicate Marked(detections: seq<Detection>, reports: seq<Ais>, ms: seq<Pair>)
    reads detections
  {
    && (forall p <- ms :: p.di < |detections| && p.ai < |reports|)
    && (forall p <- ms :: !detections[p.di].darkVessel && detections[p.di].ais == reports[p.ai])
    && forall d :: 0 <= d < |detections| && !UsesDet(ms, d) ==> detections[d].ais == old(detections[d].ais)
  }

  ghost predicate Distinct(detections: seq<Detection>) {
    forall i, j :: 0 <= i < j < |detections| ==> detections[i] != detections[j]
  }

  /** Walks the sorted pairs and gives each free one its report. */
  method Assign(detections: seq<Detection>, reports: seq<Ais>, pairs: seq<Pair>) returns (matched: set<nat>)
    requires Distinct(detections)
    requires forall p <- pairs :: p.di < |detections| && p.ai < |reports|
    modifies detections
    ensures Marked(detections, reports, Greedy(pairs))
    ensures forall d: nat :: d in matched <==> UsesDet(Greedy(pairs), d)
  {
    matched := {};
    var matchedAis: set<nat> := {};
    ghost var kept: seq<Pair> := [];
    for i := 0 to |pairs|
      invariant kept == Greedy(pairs[..i])
      invariant forall d: nat :: d in matched <==> UsesDet(kept, d)
      invariant forall a: nat :: a in matchedAis <==> UsesAis(kept, a)
      invariant Marked(detections, reports, kept)
    {
      var p := pairs[i];
      assert pairs[..i + 1][..i] == pairs[..i];
      if p.di in matched || p.ai in matchedAis { continue; }
      matched, matchedAis := matched + {p.di}, matchedAis + {p.ai};
      UsesGrows(kept, p);
      detections[p.di].darkVessel := false;
      detections[p.di].ais := reports[p.ai];
      forall q <- kept ensures q.di != p.di {
        var k :| 0 <= k < |kept| && kept[k] == q;
        assert kept[k].di == q.di;
      }
      kept := kept + [p];
    }
    assert pairs[..|pairs|] == pairs;
  }

  /**
   * `dark_vessel` ends up false exactly on the matched detections, which carry the
   * fields of their own AIS report; the others keep the fields they had.
   */
  method Correlate(detections: seq<Detection>, reports: seq<Ais>, dist: (nat, nat) -> real, radius: real)
    requires Distinct(detections)
    modifies detections
    ensures Marked(detections, reports, Matched(dist, radius, |detections|, |reports|))
    ensures forall d :: 0 <= d < |detections| ==>
              (detections[d].darkVessel <==> !UsesDet(Matched(dist, radius, |detections|, |reports|), d))
  {
    var pairs := BuildPairs(dist, radius, |detections|, |reports|);
    pairs := StableSort(CloserOrEqual, pairs);
    SortedCandidates(dist, radius, |detections|, |reports|);
    ghost var ms := Greedy(pairs);
    var matched := Assign(detections, reports, pairs);
    forall d: nat | d < |detections| && UsesDet(ms, d) ensures !detections[d].darkVessel {
      var i :| 0 <= i < |ms| && ms[i].di == d;
      assert ms[i] in ms;
    }
    FlagUnmatched(detections, matched);
    forall p <- ms ensures p.di in matched {
      var i :| 0 <= i < |ms| && ms[i] == p;
      assert ms[i].di == p.di;
    }
  }

  method FlagUnmatched(detections: seq<Detection>, matched: set<nat>)
    requires Distinct(detections)
    modifies detections
    ensures forall d :: 0 <= d < |detections| ==> detections[d].ais == old(detections[d].ais)
    ensures forall d :: 0 <= d < |detections| ==>
              detections[d].darkVessel == (if d in matched then old(detections[d].darkVessel) else true)
  {
    for d := 0 to |detections|
      invariant forall e :: 0 <= e < |detections| ==> detections[e].ais == old(detections[e].ais)
      invariant forall e :: d <= e < |detections| ==> detections[e].darkVessel == old(detections[e].darkVessel)
      invariant forall e :: 0 <= e < d ==>
                  detections[e].darkVessel == (if e in matched then old(detections[e].darkVessel) else true)
    {
      if d !in matched { detections[d].darkVessel := true; }
    }
  }

  lemma UsesGrows(ps: seq<Pair>, p: Pair)
    ensures forall d: nat :: UsesDet(ps + [p], d) <==> UsesDet(ps, d) || d == p.di
    ensures forall a: nat :: UsesAis(ps + [p], a) <==> UsesAis(ps, a) || a == p.ai
  {
    var all := ps + [p];
    forall d: nat ensures UsesDet(all, d) <==> UsesDet(ps, d) || d == p.di {
      if i :| 0 <= i < |ps| && ps[i].di == d { assert all[i].di == d; }
      if d == p.di { assert all[|ps|].di == d; }
    }
    forall a: nat ensures UsesAis(all, a) <==> UsesAis(ps, a) || a == p.ai {
      if i :| 0 <= i < |ps| && ps[i].ai == a { assert all[i].ai == a; }
      if a == p.ai { assert all[|ps|].ai == a; }
    }
  }
}
