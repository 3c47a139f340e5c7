/**
 * Which `routes` tables compile, which failure is reported first, and which are accepted and
 * followed, said of the tables themselves.
 */
module RouteTables {
  import opened Wrappers
  import opened Actions
  import opened RuleText
  import opened Defrules
  import opened Routing
  import Documents
  import StableIds

  predicate GoodTarget(target: string, known: set<string>) { target == "done" || target in known }

  /** A declared source with a target, or with targets by verdict where the state routes one. */
  predicate Fits(r: Route, known: set<string>, routed: set<string>) {
    && r.source in known
    && match r.branches
       case Direct(target) => GoodTarget(target, known)
       case ByVerdict(cases) => "verdict" in routed && forall c <- cases :: GoodTarget(c.1, known)
       case Malformed => false
  }

  /** What is reported of a route: its source, then its shape, then its first bad target. */
  ghost predicate Reports(r: Route, known: set<string>, routed: set<string>, e: CompileError) {
    if r.source !in known then e == UnknownSource(r.source)
    else
      match r.branches
      case Direct(target) => !GoodTarget(target, known) && e == UnknownTarget(r.source, target)
      case Malformed => e == BadRoute(r.source)
      case ByVerdict(cases) =>
        if "verdict" !in routed then e == NoRoutedVerdict(r.source)
        else
          exists k: nat :: FirstBadCase(cases, r.source, known, e, k)
  }

  ghost predicate FirstBadCase(cases: seq<(string, string)>, source: string, known: set<string>, e: CompileError,
                               k: nat) {
    && k < |cases| && !GoodTarget(cases[k].1, known) && e == UnknownTarget(source, cases[k].1)
    && forall j :: 0 <= j < k ==> GoodTarget(cases[j].1, known)
  }

  /** Arrow `k` is the first with a bad target, and `e` says so. */
  ghost predicate FirstBad(cs: seq<Case>, known: set<string>, e: CompileError, k: nat) {
    && k < |cs| && !GoodTarget(cs[k].target, known) && e == UnknownTarget(cs[k].source, cs[k].target)
    && forall j :: 0 <= j < k ==> GoodTarget(cs[j].target, known)
  }

  lemma FirstBadCons(cs: seq<Case>, known: set<string>, e: CompileError, k: nat)
    requires cs != [] && GoodTarget(cs[0].target, known)
    ensures FirstBad(cs, known, e, k + 1) <==> FirstBad(cs[1..], known, e, k)
    ensures !FirstBad(cs, known, e, 0)
  {
    assert forall j :: 0 <= j < |cs| - 1 ==> cs[1..][j] == cs[j + 1];
    if FirstBad(cs[1..], known, e, k) {
      forall j | 0 <= j < k + 1 ensures GoodTarget(cs[j].target, known) { if j > 0 { assert cs[1..][j - 1] == cs[j]; } }
    }
    if FirstBad(cs, known, e, k + 1) {
      forall j | 0 <= j < k ensures GoodTarget(cs[1..][j].target, known) { assert GoodTarget(cs[j + 1].target, known); }
    }
  }

  lemma {:induction false} TargetsExactly(cs: seq<Case>, known: set<string>, e: CompileError)
    ensures TargetError(cs, known).None? <==> forall c <- cs :: GoodTarget(c.target, known)
    ensures TargetError(cs, known) == Some(e) <==> exists k: nat :: FirstBad(cs, known, e, k)
  {
    if cs != [] {
      if GoodTarget(cs[0].target, known) {
        var rest := cs[1..];
        TargetsExactly(rest, known, e);
        assert cs == [cs[0]] + rest;
        FirstBadCons(cs, known, e, 0);
        if k: nat :| FirstBad(rest, known, e, k) { FirstBadCons(cs, known, e, k); }
        if k: nat :| FirstBad(cs, known, e, k) { FirstBadCons(cs, known, e, k - 1); }
      } else {
        assert FirstBad(cs, known, UnknownTarget(cs[0].source, cs[0].target), 0);
      }
    }
  }

  lemma RouteErrorExactly(r: Route, known: set<string>, routed: set<string>, e: CompileError)
    ensures RouteError(r, known, routed).None? <==> Fits(r, known, routed)
    ensures RouteError(r, known, routed) == Some(e) <==> Reports(r, known, routed, e)
  {
    var cs := CasesOf(r);
    TargetsExactly(cs, known, e);
    if r.branches.Direct? {
      assert cs == [Case(r.source, None, r.branches.target)];
    } else if r.branches.ByVerdict? {
      var cases := r.branches.cases;
      assert |cs| == |cases| && forall k :: 0 <= k < |cases| ==> cs[k] == Case(r.source, Some(cases[k].0), cases[k].1);
      assert (forall c <- cs :: GoodTarget(c.target, known)) <==> forall c <- cases :: GoodTarget(c.1, known) by {
        forall k | 0 <= k < |cases| ensures cs[k] in cs && cases[k] in cases { }
      }
      forall k: nat
        ensures FirstBad(cs, known, e, k) <==> FirstBadCase(cases, r.source, known, e, k)
      {
        if FirstBad(cs, known, e, k) {
          forall j | 0 <= j < k ensures GoodTarget(cases[j].1, known) { assert GoodTarget(cs[j].target, known); }
        }
      }
    }
  }

  /** A table compiles exactly if every route of it fits. */
  lemma {:induction false} CompilesExactly(routes: seq<Route>, known: set<string>, routed: set<string>)
    ensures CompileRoutes(routes, known, routed).Compiled? <==> forall r <- routes :: Fits(r, known, routed)
  {
    if routes != [] {
      var init, last := routes[..|routes| - 1], routes[|routes| - 1];
      CompilesExactly(init, known, routed);
      RouteErrorExactly(last, known, routed, BadRoute(""));
      assert routes == init + [last];
    }
  }

  /** Route `i` is the first that does not fit, and `e` is what is reported of it. */
  ghost predicate FirstMisfit(routes: seq<Route>, known: set<string>, routed: set<string>, e: CompileError, i: nat) {
    && i < |routes| && Reports(routes[i], known, routed, e)
    && forall j :: 0 <= j < i ==> Fits(routes[j], known, routed)
  }

  lemma MisfitBefore(routes: seq<Route>, known: set<string>, routed: set<string>, e: CompileError, i: nat)
    requires routes != [] && i < |routes| - 1
    ensures FirstMisfit(routes, known, routed, e, i) <==> FirstMisfit(routes[..|routes| - 1], known, routed, e, i)
  {
    hide Fits;
    hide Reports;
    var init := routes[..|routes| - 1];
    assert forall j :: 0 <= j < |init| ==> init[j] == routes[j];
  }

  /** The failure reported is the one of the first route that does not fit. */
  lemma {:induction false} FailsExactly(routes: seq<Route>, known: set<string>, routed: set<string>, e: CompileError)
    ensures CompileRoutes(routes, known, routed) == Failed(e) <==>
              exists i: nat :: FirstMisfit(routes, known, routed, e, i)
  {
    if routes != [] {
      hide Fits;
      hide Reports;
      hide RouteError;
      var n := |routes| - 1;
      var init, last := routes[..n], routes[n];
      FailsExactly(init, known, routed, e);
      CompilesExactly(init, known, routed);
      RouteErrorExactly(last, known, routed, e);
      assert forall j :: 0 <= j < n ==> init[j] == routes[j] && init[j] in init;
      forall i: nat | i < n
        ensures FirstMisfit(routes, known, routed, e, i) <==> FirstMisfit(init, known, routed, e, i)
      {
        MisfitBefore(routes, known, routed, e, i);
      }
      assert FirstMisfit(routes, known, routed, e, n) <==>
             Reports(last, known, routed, e) && forall r <- init :: Fits(r, known, routed);
      if forall r <- init :: Fits(r, known, routed) { NoneMisfits(init, known, routed, e); }
    }
  }

  /** Where all fit there is nothing to report. */
  lemma NoneMisfits(routes: seq<Route>, known: set<string>, routed: set<string>, e: CompileError)
    requires forall r <- routes :: Fits(r, known, routed)
    ensures forall i: nat :: !FirstMisfit(routes, known, routed, e, i)
  {
    forall i: nat ensures !FirstMisfit(routes, known, routed, e, i) {
      if i < |routes| { RouteErrorExactly(routes[i], known, routed, e); }
    }
  }

  /** Which tables a graph accepts: every route fits, and the names pass the id check, each once. */
  lemma AcceptedTableExactly(routes: seq<Route>, nodes: seq<string>, routed: set<string>)
    ensures Accepts(routes, nodes, routed) <==>
              && UniqueKeys(routes) && (forall r <- routes :: Fits(r, Known(nodes), routed))
              && (forall n <- nodes :: StableIds.Accepted(n)) && Documents.NoRepeats(nodes)
              && (forall c <- Cases(routes) :: StableIds.Accepted(RuleId(c))) && DistinctIds(Cases(routes))
  {
    CompilesExactly(routes, Known(nodes), routed);
    if UniqueKeys(routes) && CompileRoutes(routes, Known(nodes), routed).Compiled? {
      AcceptedExactly(routes, nodes, routed);
    }
  }

  // ---------------------------------------------------------- tables of direct routes

  /** Every route has one target, sources and nodes are different plain ids, and targets are nodes or the end. */
  ghost predicate DirectTable(routes: seq<Route>, nodes: seq<string>) {
    && (forall r <- routes ::
          && r.branches.Direct? && (r.branches.target == "done" || r.branches.target in nodes)
          && r.source in nodes && Plain(r.source) && StableIds.Accepted("r-" + r.source))
    && (forall i, j :: 0 <= i < j < |routes| ==> routes[i].source != routes[j].source)
    && (forall n <- nodes :: StableIds.Accepted(n))
    && (forall i, j :: 0 <= i < j < |nodes| ==> nodes[i] != nodes[j])
  }

  predicate AllDirect(routes: seq<Route>) { forall r <- routes :: r.branches.Direct? }

  function DirectCase(r: Route): Case
    requires r.branches.Direct?
  {
    Case(r.source, None, r.branches.target)
  }

  lemma DirectFront(routes: seq<Route>)
    requires AllDirect(routes) && routes != []
    ensures AllDirect(routes[..|routes| - 1]) && routes[|routes| - 1].branches.Direct?
    ensures CasesOf(routes[|routes| - 1]) == [DirectCase(routes[|routes| - 1])]
  {
    assert routes[|routes| - 1] in routes && forall r <- routes[..|routes| - 1] :: r in routes;
  }

  lemma {:induction false} DirectCases(routes: seq<Route>)
    requires AllDirect(routes)
    ensures |Cases(routes)| == |routes|
    ensures forall i :: 0 <= i < |routes| ==> routes[i].branches.Direct? && Cases(routes)[i] == DirectCase(routes[i])
  {
    if routes != [] {
      hide CasesOf;
      hide DirectCase;
      DirectFront(routes);
      DirectCases(routes[..|routes| - 1]);
    }
  }

  /** What a route's rule must do. */
  function Step(source: string, target: string): Move {
    if target == "done" then Halt(source + " complete") else Goto(target)
  }

  lemma DirectId(source: string, target: string)
    ensures RuleId(Case(source, None, target)) == "r-" + source
  {
    assert "r-" + source + "" == "r-" + source;
  }

  lemma IdsApart(a: string, b: string)
    ensures "r-" + a == "r-" + b <==> a == b
  {
    assert ("r-" + a)[2..] == a && ("r-" + b)[2..] == b;
  }

  lemma DirectIsAccepted(routes: seq<Route>, nodes: seq<string>, routed: set<string>)
    requires DirectTable(routes, nodes)
    ensures Accepts(routes, nodes, routed)
  {
    DirectCases(routes);
    var cs := Cases(routes);
    forall i | 0 <= i < |cs| ensures StableIds.Accepted(RuleId(cs[i])) && RuleId(cs[i]) == "r-" + routes[i].source {
      assert routes[i] in routes;
      DirectId(routes[i].source, routes[i].branches.target);
    }
    forall i, j | 0 <= i < j < |cs| ensures RuleId(cs[i]) != RuleId(cs[j]) {
      IdsApart(routes[i].source, routes[j].source);
    }
    AcceptedTableExactly(routes, nodes, routed);
  }

  lemma DirectIdEnds(source: string, target: string)
    requires !EndsInNewline(source)
    ensures !EndsInNewline(RuleId(Case(source, None, target)))
  {
    DirectId(source, target);
    var id := "r-" + source;
    if source != [] { assert id[|id| - 1] == source[|source| - 1]; } else { assert id[|id| - 1] == '-'; }
  }

  lemma DirectIsFollowable(routes: seq<Route>, nodes: seq<string>, routed: set<string>)
    requires DirectTable(routes, nodes)
    ensures Accepts(routes, nodes, routed) && Followable(routes)
  {
    DirectIsAccepted(routes, nodes, routed);
    DirectCases(routes);
    var cs := Cases(routes);
    forall c <- cs ensures Plain(c.source) && !EndsInNewline(RuleId(c)) {
      var i :| 0 <= i < |cs| && cs[i] == c;
      assert routes[i] in routes;
      DirectIdEnds(c.source, c.target);
    }
    hide Accepts;
    hide Plain;
    hide RuleId;
    AcceptedIdsSuffice(routes, nodes, routed);
  }

  lemma DirectAction(routes: seq<Route>, nodes: seq<string>, i: nat, verdict: Option<string>)
    requires DirectTable(routes, nodes) && i < |routes|
    ensures var r := routes[i];
            r.branches.Direct? && TableAction(routes, r.source, verdict) == Some(Step(r.source, r.branches.target))
  {
    DirectCases(routes);
    var cs, r := Cases(routes), routes[i];
    assert UniqueKeys(routes) by { assert AllDirect(routes); }
    assert cs[i] in cs && Applies(cs[i], r.source, verdict);
    TableExactly(routes, cs[i], r.source, verdict);
  }

  lemma ActionHasRoute(routes: seq<Route>, node: string, verdict: Option<string>)
    requires UniqueKeys(routes) && AllDirect(routes)
    requires TableAction(routes, node, verdict).Some?
    ensures exists i :: 0 <= i < |routes| && routes[i].source == node
  {
    DirectCases(routes);
    var c := TableNames(routes, node, verdict);
    var i :| 0 <= i < |Cases(routes)| && Cases(routes)[i] == c;
    assert routes[i].source == node;
  }

  lemma NoAction(routes: seq<Route>, nodes: seq<string>, node: string, verdict: Option<string>)
    requires DirectTable(routes, nodes) && forall i :: 0 <= i < |routes| ==> routes[i].source != node
    ensures TableAction(routes, node, verdict).None?
  {
    assert UniqueKeys(routes) by { assert AllDirect(routes); }
    if TableAction(routes, node, verdict).Some? { ActionHasRoute(routes, node, verdict); }
  }

  /**
   * End to end, for every table of direct routes between plainly named nodes: the table compiles, its
   * rules print and load, and on the facts of a tick at the source of a route exactly one rule fires,
   * which halts or goes to the target the table gives.
   */
  lemma DirectRouteFires(routes: seq<Route>, nodes: seq<string>, routed: set<string>, i: nat,
                         fields: map<string, string>, others: set<Fact>)
    requires DirectTable(routes, nodes) && fields.Keys == routed && Unrelated(others, fields) && i < |routes|
    ensures Accepts(routes, nodes, routed) && Loaded(routes).Some?
    ensures var r := routes[i];
            Fires(Loaded(routes).value, TickFacts(r.source, fields, others), Some(Step(r.source, r.branches.target)))
  {
    DirectIsFollowable(routes, nodes, routed);
    DirectAction(routes, nodes, i, VerdictIn(fields));
    hide *;
    AgreesAt(routes, nodes, routed, routes[i].source, fields, others);
  }

  /** At a node without a route none fires. */
  lemma NoRouteIsSilent(routes: seq<Route>, nodes: seq<string>, routed: set<string>, node: string,
                        fields: map<string, string>, others: set<Fact>)
    requires DirectTable(routes, nodes) && fields.Keys == routed && Unrelated(others, fields)
    requires forall i :: 0 <= i < |routes| ==> routes[i].source != node
    ensures Loaded(routes).Some? && FiredIds(Loaded(routes).value, TickFacts(node, fields, others)) == {}
  {
    DirectIsFollowable(routes, nodes, routed);
    NoAction(routes, nodes, node, VerdictIn(fields));
    hide *;
    NothingFires(routes, nodes, routed, node, fields, others);
  }
}
