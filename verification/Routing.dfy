/**
 * The authoring compiler for `routes`, and the rule engine the compiled rules are
 * loaded into: printed to text, read back, matched on the facts of a tick.
 */
module Routing {
  import opened Wrappers
  import opened Actions
  import opened RuleText
  import opened Defrules
  import Documents
  import StableIds

  const DONE := "done"
  const VERDICT := "verdict"

  // -------------------------------------------------------------- routes tables

  /** A direct target, a target per printed verdict value, or neither shape. */
  datatype Branches = Direct(target: string) | ByVerdict(cases: seq<(string, string)>) | Malformed

  datatype Route = Route(source: string, branches: Branches)

  datatype CompileError = UnknownSource(source: string) | UnknownTarget(source: string, target: string)
           | NoRoutedVerdict(source: string) | BadRoute(source: string)

  datatype Table = Compiled(rules: seq<Rule>) | Failed(error: CompileError)

  /** One arrow of the table; without a verdict it applies to every verdict. */
  datatype Case = Case(source: string, verdict: Option<string>, target: string)

  function CasesOf(r: Route): seq<Case> {
    match r.branches
    case Direct(target) => [Case(r.source, None, target)]
    case ByVerdict(cases) => seq(|cases|, i requires 0 <= i < |cases| => Case(r.source, Some(cases[i].0), cases[i].1))
    case Malformed => []
  }

  function Cases(routes: seq<Route>): seq<Case> {
    if routes == [] then [] else Cases(routes[..|routes| - 1]) + CasesOf(routes[|routes| - 1])
  }

  function ActionOf(c: Case): Move {
    if c.target == DONE then Halt(c.source + " complete") else Goto(c.target)
  }

  function RuleId(c: Case): string {
    "r-" + c.source + if c.verdict.Some? then "-" + c.verdict.value else ""
  }

  function WhenOf(c: Case): When {
    Sugar([Cond(NODE_KEY, Text(c.source))] + if c.verdict.Some? then [Cond(VERDICT, Text(c.verdict.value))] else [])
  }

  function RuleOf(c: Case): Rule { Rule(RuleId(c), WhenOf(c), [ActionOf(c)]) }

  function RulesOf(cs: seq<Case>): seq<Rule> {
    seq(|cs|, i requires 0 <= i < |cs| => RuleOf(cs[i]))
  }

  /** The first complaint about one route, if any. */
  function RouteError(r: Route, known: set<string>, routed: set<string>): Option<CompileError> {
    if r.source !in known then Some(UnknownSource(r.source))
    else if r.branches.Malformed? then Some(BadRoute(r.source))
    else if r.branches.ByVerdict? && VERDICT !in routed then Some(NoRoutedVerdict(r.source))
    else TargetError(CasesOf(r), known)
  }

  function TargetError(cs: seq<Case>, known: set<string>): Option<CompileError> {
    if cs == [] then None
    else if cs[0].target != DONE && cs[0].target !in known then Some(UnknownTarget(cs[0].source, cs[0].target))
    else TargetError(cs[1..], known)
  }

  function CompileRoutes(routes: seq<Route>, known: set<string>, routed: set<string>): Table {
    if routes == [] then Compiled([])
    else
      match CompileRoutes(routes[..|routes| - 1], known, routed)
      case Failed(e) => Failed(e)
      case Compiled(rules) =>
        var r := routes[|routes| - 1];
        match RouteError(r, known, routed)
        case Some(e) => Failed(e)
        case None => Compiled(rules + RulesOf(CasesOf(r)))
  }

  /** `_then`: the action for a target, or None for an unknown node. */
  method ThenOf(source: string, target: string, known: set<string>) returns (action: Option<Action>)
    ensures action == if target == DONE || target in known then Some(ActionOf(Case(source, None, target))) else None
  {
    if target == DONE { return Some(Halt(source + " complete")); }
    if target !in known { return None; }
    action := Some(Goto(target));
  }

  method CompileOneRoute(r: Route, known: set<string>, routed: set<string>) returns (c: Table)
    ensures match RouteError(r, known, routed)
            case Some(e) => c == Failed(e)
            case None => c == Compiled(RulesOf(CasesOf(r)))
  {
    if r.source !in known { return Failed(UnknownSource(r.source)); }
    match r.branches {
      case Direct(target) =>
        var action := ThenOf(r.source, target, known);
        ghost var all := [Case(r.source, None, target)];
        assert CasesOf(r) == all && all[1..] == [] && TargetError(all[1..], known).None?;
        if action.None? { return Failed(UnknownTarget(r.source, target)); }
        return Compiled([Rule("r-" + r.source + "", Sugar([Cond(NODE_KEY, Text(r.source))] + []), [action.value])]);
      case ByVerdict(cases) =>
        if VERDICT !in routed { return Failed(NoRoutedVerdict(r.source)); }
        var rules: seq<Rule> := [];
        ghost var all := CasesOf(r);
        assert all[0..] == all;
        for i := 0 to |cases|
          invariant rules == RulesOf(all[..i])
          invariant TargetError(all, known) == TargetError(all[i..], known)
        {
          var (value, target) := cases[i];
          assert all[i..][0] == all[i] && all[i..][1..] == all[i + 1..];
          var action := ThenOf(r.source, target, known);
          if action.None? { return Failed(UnknownTarget(r.source, target)); }
          var when := Sugar([Cond(NODE_KEY, Text(r.source))] + [Cond(VERDICT, Text(value))]);
          rules := rules + [Rule("r-" + r.source + ("-" + value), when, [action.value])];
          assert all[..i + 1] == all[..i] + [all[i]];
        }
        assert all[..|cases|] == all && all[|cases|..] == [];
        return Compiled(rules);
      case Malformed =>
        return Failed(BadRoute(r.source));
    }
  }

  method Compile(routes: seq<Route>, known: set<string>, routed: set<string>) returns (c: Table)
    ensures c == CompileRoutes(routes, known, routed)
  {
    var rules: seq<Rule> := [];
    for i := 0 to |routes|
      invariant CompileRoutes(routes[..i], known, routed) == Compiled(rules)
    {
      assert routes[..i + 1][..i] == routes[..i];
      var one := CompileOneRoute(routes[i], known, routed);
      if one.Failed? {
        FailureStays(routes, known, routed, i + 1);
        return one;
      }
      rules := rules + one.rules;
    }
    assert routes[..|routes|] == routes;
    c := Compiled(rules);
  }

  lemma {:induction false} FailureStays(routes: seq<Route>, known: set<string>, routed: set<string>, i: nat)
    requires i <= |routes| && CompileRoutes(routes[..i], known, routed).Failed?
    ensures CompileRoutes(routes, known, routed) == CompileRoutes(routes[..i], known, routed)
    decreases |routes|
  {
    if i < |routes| {
      assert routes[..|routes| - 1][..i] == routes[..i];
      FailureStays(routes[..|routes| - 1], known, routed, i);
    } else {
      assert routes[..i] == routes;
    }
  }

  lemma {:induction false} CompiledRulesAre(routes: seq<Route>, known: set<string>, routed: set<string>)
    requires CompileRoutes(routes, known, routed).Compiled?
    ensures CompileRoutes(routes, known, routed).rules == RulesOf(Cases(routes))
    ensures forall c <- Cases(routes) :: c.source in known
  {
    if routes != [] {
      var init, last := routes[..|routes| - 1], routes[|routes| - 1];
      CompiledRulesAre(init, known, routed);
      assert RulesOf(Cases(init) + CasesOf(last)) == RulesOf(Cases(init)) + RulesOf(CasesOf(last));
    }
  }

  // -------------------------------------------------- what the table says itself

  /** Mapping keys are unique: one route per source, one case per printed verdict. */
  ghost predicate UniqueKeys(routes: seq<Route>) {
    && (forall i, j :: 0 <= i < j < |routes| ==> routes[i].source != routes[j].source)
    && (forall r <- routes :: r.branches.ByVerdict? ==>
          forall i, j :: 0 <= i < j < |r.branches.cases| ==> r.branches.cases[i].0 != r.branches.cases[j].0)
  }

  /** Does this arrow of the table apply? */
  predicate Applies(c: Case, node: string, verdict: Option<string>) {
    c.source == node && (c.verdict.None? || c.verdict == verdict)
  }

  /** What the table of a node has for a verdict. */
  function Branch(cases: seq<(string, string)>, verdict: Option<string>): Option<string> {
    if cases == [] then None
    else if verdict == Some(cases[0].0) then Some(cases[0].1)
    else Branch(cases[1..], verdict)
  }

  /** The action the table names for a node and the verdict it left, if any: a plain lookup. */
  function TableAction(routes: seq<Route>, node: string, verdict: Option<string>): Option<Move> {
    if routes == [] then None
    else if routes[0].source != node then TableAction(routes[1..], node, verdict)
    else
      var target := match routes[0].branches
        case Direct(t) => Some(t)
        case ByVerdict(cases) => Branch(cases, verdict)
        case Malformed => None;
      if target.None? then None
      else Some(if target.value == DONE then Halt(node + " complete") else Goto(target.value))
  }

  lemma {:induction false} CaseComesFrom(routes: seq<Route>, c: Case)
    ensures c in Cases(routes) <==> exists r <- routes :: c in CasesOf(r)
  {
    if routes != [] {
      var init, last := routes[..|routes| - 1], routes[|routes| - 1];
      CaseComesFrom(init, c);
      assert routes == init + [last];
    }
  }

  lemma {:induction false} BranchExactly(cases: seq<(string, string)>, verdict: Option<string>, target: string)
    requires forall i, j :: 0 <= i < j < |cases| ==> cases[i].0 != cases[j].0
    ensures Branch(cases, verdict) == Some(target) <==> verdict.Some? && (verdict.value, target) in cases
  {
    if cases != [] {
      BranchExactly(cases[1..], verdict, target);
      assert cases == [cases[0]] + cases[1..];
      if verdict.Some? && (verdict.value, target) in cases[1..] {
        var i :| 0 <= i < |cases[1..]| && cases[1..][i] == (verdict.value, target);
        assert cases[i + 1].0 == verdict.value;
      }
    }
  }

  lemma DirectExactly(r: Route, c: Case, verdict: Option<string>)
    requires r.branches.Direct?
    ensures c in CasesOf(r) && Applies(c, r.source, verdict) <==> c == Case(r.source, None, r.branches.target)
  {
  }

  lemma ByVerdictExactly(r: Route, c: Case, verdict: Option<string>)
    requires UniqueKeys([r]) && r.branches.ByVerdict?
    ensures c in CasesOf(r) && Applies(c, r.source, verdict) <==>
              c.source == r.source && c.verdict.Some? && c.verdict == verdict &&
                  Branch(r.branches.cases, verdict) == Some(c.target)
  {
    var cs := r.branches.cases;
    assert r in [r];
    BranchExactly(cs, verdict, c.target);
    if c in CasesOf(r) {
      var i :| 0 <= i < |cs| && c == Case(r.source, Some(cs[i].0), cs[i].1);
      assert cs[i] in cs;
    }
    if c.source == r.source && c.verdict.Some? && (c.verdict.value, c.target) in cs {
      var i :| 0 <= i < |cs| && cs[i] == (c.verdict.value, c.target);
      assert CasesOf(r)[i] == c;
    }
  }

  /** One route's lookup: the only arrow of it that applies. */
  lemma RouteExactly(r: Route, c: Case, verdict: Option<string>)
    requires UniqueKeys([r]) && c in CasesOf(r) && Applies(c, r.source, verdict)
    ensures r.branches.Direct? ==> c == Case(r.source, None, r.branches.target)
    ensures r.branches.ByVerdict? ==>
              c.source == r.source && c.verdict == verdict && Branch(r.branches.cases, verdict) == Some(c.target)
    ensures !r.branches.Malformed?
  {
    if r.branches.Direct? { DirectExactly(r, c, verdict); }
    if r.branches.ByVerdict? { ByVerdictExactly(r, c, verdict); }
  }

  lemma TailKeys(routes: seq<Route>)
    requires UniqueKeys(routes) && routes != []
    ensures UniqueKeys(routes[1..]) && UniqueKeys([routes[0]])
    ensures forall r <- routes[1..] :: r.source != routes[0].source
  {
    assert forall r <- routes[1..] :: r in routes;
    forall r <- routes[1..] ensures r.source != routes[0].source {
      var i :| 0 <= i < |routes[1..]| && routes[1..][i] == r;
      assert routes[i + 1] == r;
    }
  }

  lemma SplitCases(routes: seq<Route>, c: Case)
    requires routes != []
    ensures c in Cases(routes) <==> c in CasesOf(routes[0]) || c in Cases(routes[1..])
  {
    CaseComesFrom(routes, c);
    CaseComesFrom(routes[1..], c);
    assert routes == [routes[0]] + routes[1..];
  }

  lemma SourceOfCase(r: Route, c: Case)
    requires c in CasesOf(r)
    ensures c.source == r.source
  {
  }

  /** The lookup finds exactly the arrow that applies. */
  lemma {:induction false} TableExactly(routes: seq<Route>, c: Case, node: string, verdict: Option<string>)
    requires UniqueKeys(routes) && c in Cases(routes) && Applies(c, node, verdict)
    ensures TableAction(routes, node, verdict) == Some(ActionOf(c))
  {
    if routes != [] {
      TailKeys(routes);
      SplitCases(routes, c);
      if routes[0].source == node {
        if c in Cases(routes[1..]) {
          CaseComesFrom(routes[1..], c);
          var r :| r in routes[1..] && c in CasesOf(r);
          SourceOfCase(r, c);
        }
        RouteExactly(routes[0], c, verdict);
      } else {
        if c in CasesOf(routes[0]) { SourceOfCase(routes[0], c); }
        TableExactly(routes[1..], c, node, verdict);
      }
    }
  }

  lemma {:induction false} TableNames(routes: seq<Route>, node: string, verdict: Option<string>) returns (c: Case)
    requires UniqueKeys(routes) && TableAction(routes, node, verdict).Some?
    ensures c in Cases(routes) && Applies(c, node, verdict)
  {
    TailKeys(routes);
    var r := routes[0];
    if r.source == node {
      if r.branches.Direct? {
        c := Case(node, None, r.branches.target);
        DirectExactly(r, c, verdict);
      } else {
        var target := Branch(r.branches.cases, verdict).value;
        assert r in [r];
        BranchExactly(r.branches.cases, verdict, target);
        c := Case(node, verdict, target);
        ByVerdictExactly(r, c, verdict);
      }
    } else {
      c := TableNames(routes[1..], node, verdict);
    }
    SplitCases(routes, c);
  }

  /** Two different arrows never apply together. */
  lemma {:induction false} OneCaseApplies(routes: seq<Route>, a: Case, b: Case, node: string, verdict: Option<string>)
    requires UniqueKeys(routes) && a in Cases(routes) && b in Cases(routes)
    requires Applies(a, node, verdict) && Applies(b, node, verdict)
    ensures a == b
  {
    if routes != [] {
      TailKeys(routes);
      SplitCases(routes, a);
      SplitCases(routes, b);
      if routes[0].source == node {
        forall c: Case | c in Cases(routes[1..]) ensures c.source != node {
          CaseComesFrom(routes[1..], c);
          var r :| r in routes[1..] && c in CasesOf(r);
          SourceOfCase(r, c);
        }
        RouteExactly(routes[0], a, verdict);
        RouteExactly(routes[0], b, verdict);
      } else {
        if a in CasesOf(routes[0]) { SourceOfCase(routes[0], a); }
        if b in CasesOf(routes[0]) { SourceOfCase(routes[0], b); }
        OneCaseApplies(routes[1..], a, b, node, verdict);
      }
    }
  }

  // -------------------------------------------------------------------- the engine

  /** A fact has the shape of a read pattern: template, slot, and a value of some kind. */
  type Fact = Pattern

  function NodeFact(node: string): Fact { Pattern("node-id", "id", Name, node) }

  function FieldFact(field: string, value: string): Fact { Pattern(Mangle(field), "value", Quoted, value) }

  /**
   * Loading in order: rules with unroutable actions are skipped, a repeated rule name
   * replaces the earlier rule, and a text that is no rule stops the loading.
   */
  function Load(rules: seq<Rule>): Option<map<string, Read>> {
    if rules == [] then Some(map[])
    else
      match Load(rules[..|rules| - 1])
      case None => None
      case Some(before) =>
        match Defrule(rules[|rules| - 1])
        case Skipped => Some(before)
        case Refused(_) => None
        case Defined(text) =>
          match ReadRule(text)
          case None => None
          case Some(read) => Some(before[read.name := read])
  }

  method LoadRules(rules: seq<Rule>) returns (loaded: Option<map<string, Read>>)
    ensures loaded == Load(rules)
  {
    var held: map<string, Read> := map[];
    for i := 0 to |rules|
      invariant Load(rules[..i]) == Some(held)
    {
      assert rules[..i + 1][..i] == rules[..i];
      var compiled := CompileRule(rules[i]);
      if compiled.Skipped? { continue; }
      var read := if compiled.Defined? then ReadRule(compiled.text) else None;
      if read.None? {
        LoadStops(rules, i + 1);
        return None;
      }
      held := held[read.value.name := read.value];
    }
    assert rules[..|rules|] == rules;
    loaded := Some(held);
  }

  /** What comes of a document's rules. */
  datatype Built = NoEngine | Broken | Engine(rules: map<string, Read>)

  predicate AllSkipped(rules: seq<Rule>) { forall r <- rules :: Defrule(r).Skipped? }

  /** No engine is built when nothing is left to load. */
  method BuildRouting(rules: seq<Rule>) returns (b: Built)
    ensures b.NoEngine? <==> AllSkipped(rules)
    ensures !AllSkipped(rules) ==> b == match Load(rules) case None => Broken case Some(held) => Engine(held)
  {
    var defrules := 0;
    for i := 0 to |rules|
      invariant defrules == 0 <==> forall k :: 0 <= k < i ==> Defrule(rules[k]).Skipped?
    {
      var compiled := CompileRule(rules[i]);
      if compiled.Refused? {
        RefusedStops(rules, i);
        return Broken;
      }
      if compiled.Defined? { defrules := defrules + 1; }
    }
    if defrules == 0 { return NoEngine; }
    var loaded := LoadRules(rules);
    b := if loaded.None? then Broken else Engine(loaded.value);
  }

  lemma RefusedStops(rules: seq<Rule>, i: nat)
    requires i < |rules| && Defrule(rules[i]).Refused?
    ensures Load(rules).None? && !AllSkipped(rules)
  {
    hide Defrule;
    hide ReadRule;
    LastRefused(rules[..i + 1]);
    LoadStops(rules, i + 1);
    assert rules[i] in rules;
  }

  lemma LastRefused(rules: seq<Rule>)
    requires rules != [] && Defrule(rules[|rules| - 1]).Refused?
    ensures Load(rules).None?
  {
    hide Defrule;
    hide ReadRule;
  }

  lemma {:induction false} LoadStops(rules: seq<Rule>, i: nat)
    requires i <= |rules| && Load(rules[..i]).None?
    ensures Load(rules).None?
    decreases |rules|
  {
    if i < |rules| {
      assert rules[..|rules| - 1][..i] == rules[..i];
      LoadStops(rules[..|rules| - 1], i);
    } else {
      assert rules[..i] == rules;
    }
  }

  predicate Matches(r: Read, facts: set<Fact>) { forall p <- r.patterns :: p in facts }

  function FiredIds(rules: map<string, Read>, facts: set<Fact>): set<string> {
    set name | name in rules && Matches(rules[name], facts)
  }

  /** The actions a rule asserts, each with the rule id its fact carries. */
  function Produced(facts: seq<seq<Slot>>): seq<(Action, string)> {
    if facts == [] then []
    else
      var n := |facts| - 1;
      Produced(facts[..n])
      + match ActionOfFact(facts[n])
        case None => []
        case Some(a) => [(a, RuleIdOf(facts[n]))]
  }

  /** The actions of several rules, in the order they fire. */
  function ProducedBy(rules: map<string, Read>, order: seq<string>): seq<(Action, string)>
    requires forall name <- order :: name in rules
  {
    if order == [] then []
    else
      var n := |order| - 1;
      ProducedBy(rules, order[..n]) + Produced(rules[order[n]].facts)
  }

  function Firsts(ps: seq<(Action, string)>): seq<Action> { seq(|ps|, i requires 0 <= i < |ps| => ps[i].0) }

  function Seconds(ps: seq<(Action, string)>): seq<string> { seq(|ps|, i requires 0 <= i < |ps| => ps[i].1) }

  /** Each action with the rule id at its place. */
  predicate Paired(actions: seq<Action>, ruleIds: seq<string>, ps: seq<(Action, string)>) {
    |actions| == |ruleIds| == |ps| && forall i :: 0 <= i < |ps| ==> ps[i] == (actions[i], ruleIds[i])
  }

  /** An order in which the engine may fire these rules. */
  ghost predicate Agenda(order: seq<string>, fired: set<string>) {
    Documents.NoRepeats(order) && forall name :: name in order <==> name in fired
  }

  /** The engine fires exactly one rule, asserting this one action under some rule id, or none. */
  ghost predicate Fires(rules: map<string, Read>, facts: set<Fact>, a: Option<Move>) {
    match a
    case None => FiredIds(rules, facts) == {}
    case Some(act) => exists name, id :: FiredIds(rules, facts) == {name} && Produced(rules[name].facts) == [(act, id)]
  }

  function FieldFacts(fields: map<string, string>): set<Fact> {
    set f <- fields :: FieldFact(f, fields[f])
  }

  /** The facts a tick is evaluated on: one for the node, one per mirrored field, and whatever else is in memory. */
  function TickFacts(node: string, fields: map<string, string>, others: set<Fact>): set<Fact> {
    {NodeFact(node)} + FieldFacts(fields) + others
  }

  predicate Mirrored(template: string, fields: map<string, string>) {
    template == "node-id" || exists f <- fields :: template == Mangle(f)
  }

  ghost predicate Unrelated(others: set<Fact>, fields: map<string, string>) {
    forall p <- others :: !Mirrored(p.template, fields)
  }

  /** The live engine: its rules, its working memory, and the rule ids behind the last actions. */
  class RoutingEngine {
    const rules: map<string, Read>
    var facts: set<Fact>
    var lastActionRuleIds: seq<string>

    constructor (rules: map<string, Read>)
      ensures this.rules == rules && facts == {} && lastActionRuleIds == []
    {
      this.rules, facts, lastActionRuleIds := rules, {}, [];
    }

    method Retract(template: string)
      modifies this`facts
      ensures facts == set p | p in old(facts) && p.template != template
    {
      facts := set p | p in facts && p.template != template;
    }

    /** Retract the stale node and mirror facts, then assert this tick's. */
    method MirrorState(node: string, fields: map<string, string>)
      modifies this`facts
      ensures facts == TickFacts(node, fields, set p | p in old(facts) && !Mirrored(p.template, fields))
      ensures forall p :: p in facts <==>
                || p == NodeFact(node) || (exists f <- fields :: p == FieldFact(f, fields[f]))
                || (p in old(facts) && p.template != "node-id" && forall f <- fields :: p.template != Mangle(f))
    {
      Retract("node-id");
      var todo := fields.Keys;
      while todo != {}
        invariant todo <= fields.Keys
        invariant facts == set p | p in old(facts) && p.template != "node-id"
                                   && forall f :: f in fields.Keys - todo ==> p.template != Mangle(f)
        decreases todo
      {
        var f :| f in todo;
        todo := todo - {f};
        ghost var before := facts;
        Retract(Mangle(f));
        assert forall p :: p in facts <==> p in before && p.template != Mangle(f);
      }
      facts := facts + {NodeFact(node)};
      ghost var base := facts;
      todo := fields.Keys;
      while todo != {}
        invariant todo <= fields.Keys
        invariant facts == base + set f | f in fields.Keys - todo :: FieldFact(f, fields[f])
        decreases todo
      {
        var f :| f in todo;
        todo := todo - {f};
        facts := facts + {FieldFact(f, fields[f])};
      }
    }

    /** Fire the matching rules in some order; every action comes with the rule id behind it. */
    method Evaluate() returns (actions: seq<Action>)
      modifies this`lastActionRuleIds
      ensures exists order :: Agenda(order, FiredIds(rules, facts))
                && Paired(actions, lastActionRuleIds, ProducedBy(rules, order))
    {
      var fired := set name | name in rules && Matches(rules[name], facts);
      var todo := fired;
      ghost var order: seq<string> := [];
      ghost var pairs: seq<(Action, string)> := [];
      var ruleIds: seq<string> := [];
      actions := [];
      while todo != {}
        invariant todo <= fired && Agenda(order, fired - todo) && forall name <- order :: name in rules
        invariant pairs == ProducedBy(rules, order) && actions == Firsts(pairs) && ruleIds == Seconds(pairs)
      {
        var name :| name in todo;
        todo := todo - {name};
        var produced := Produced(rules[name].facts);
        assert (order + [name])[..|order|] == order;
        order := order + [name];
        PairsGrow(pairs, produced);
        pairs := pairs + produced;
        actions := actions + Firsts(produced);
        ruleIds := ruleIds + Seconds(produced);
      }
      assert fired - todo == fired;
      lastActionRuleIds := ruleIds;
    }
  }

  lemma PairsGrow(a: seq<(Action, string)>, b: seq<(Action, string)>)
    ensures Firsts(a + b) == Firsts(a) + Firsts(b) && Seconds(a + b) == Seconds(a) + Seconds(b)
  {
  }

  /** Each of the actions, in order, under one rule id. */
  predicate AllUnder(actions: seq<Action>, id: string, ps: seq<(Action, string)>) {
    |ps| == |actions| && forall i :: 0 <= i < |ps| ==> ps[i] == (actions[i], id)
  }

  lemma OneMoreProduced(facts: seq<seq<Slot>>, a: Action, id: string)
    requires SlotsOf(a, id).Some?
    ensures Produced(facts + [SlotsOf(a, id).value]) == Produced(facts) + [(a, id)]
  {
    FactRecovers(a, id);
    hide SlotsOf;
    hide ActionOfFact;
    hide RuleIdOf;
    assert (facts + [SlotsOf(a, id).value])[..|facts|] == facts;
  }

  lemma OneMoreFact(actions: seq<Action>, id: string)
    requires actions != [] && FactsOf(actions[..|actions| - 1], id).Some? && SlotsOf(actions[|actions| - 1], id).Some?
    ensures FactsOf(actions, id)
         == Some(FactsOf(actions[..|actions| - 1], id).value + [SlotsOf(actions[|actions| - 1], id).value])
  {
    hide SlotsOf;
  }

  lemma OneMoreUnder(actions: seq<Action>, id: string, ps: seq<(Action, string)>)
    requires actions != [] && AllUnder(actions[..|actions| - 1], id, ps)
    ensures AllUnder(actions, id, ps + [(actions[|actions| - 1], id)])
  {
  }

  /** The facts of a rule stand for its actions, all of them, in order, each under the rule's id. */
  lemma {:induction false} ProducedExactly(actions: seq<Action>, id: string)
    requires forall a <- actions :: a.Goto? || a.Halt?
    ensures FactsOf(actions, id).Some? && AllUnder(actions, id, Produced(FactsOf(actions, id).value))
  {
    if actions != [] {
      hide *;
      var n := |actions| - 1;
      assert actions[n] in actions && forall a <- actions[..n] :: a in actions;
      ProducedExactly(actions[..n], id);
      LiveActionHasSlots(actions[n], id);
      OneMoreFact(actions, id);
      OneMoreProduced(FactsOf(actions[..n], id).value, actions[n], id);
      OneMoreUnder(actions, id, Produced(FactsOf(actions[..n], id).value));
    }
  }

  lemma LiveActionHasSlots(a: Action, id: string)
    requires a.Goto? || a.Halt?
    ensures SlotsOf(a, id).Some?
  {
  }

  /** Rules firing in turn produce what each of them does, one after another. */
  lemma ProducedInTurn(rules: map<string, Read>, order: seq<string>, name: string)
    requires (forall n <- order :: n in rules) && name in rules
    ensures forall n <- order + [name] :: n in rules
    ensures ProducedBy(rules, order + [name]) == ProducedBy(rules, order) + Produced(rules[name].facts)
    ensures ProducedBy(rules, []) == []
  {
    assert (order + [name])[..|order|] == order;
  }

  /** When the engine fires one action or none, that is the decision, in whatever order rules fire. */
  lemma FiredIsDecision(rules: map<string, Read>, facts: set<Fact>, a: Option<Move>, order: seq<string>,
                        d: Option<Action>)
    requires Fires(rules, facts, a) && Agenda(order, FiredIds(rules, facts))
    ensures Decides(Firsts(ProducedBy(rules, order)), d) <==> d == a
  {
    if a.None? {
      NoneFire(order);
      assert ProducedBy(rules, order) == [] && Firsts([]) == [];
      assert Decides([], d) <==> d == None;
    } else {
      var name, id :| FiredIds(rules, facts) == {name} && Produced(rules[name].facts) == [(a.value, id)];
      OnlyOne(order, name);
      assert order[..0] == [] && ProducedBy(rules, order) == [] + [(a.value, id)] == [(a.value, id)];
      assert Firsts([(a.value, id)]) == [a.value];
      OneActionDecides(a.value, d);
      assert a == Some(a.value);
    }
  }

  lemma NoneFire(order: seq<string>)
    requires Agenda(order, {})
    ensures order == []
  {
    if order != [] { HeadIn(order); }
  }

  lemma HeadIn(order: seq<string>)
    requires order != []
    ensures order[0] in order
  {
  }

  lemma TwoAlikeRepeat(order: seq<string>)
    requires |order| > 1 && order[0] == order[1]
    ensures !Documents.NoRepeats(order)
  {
  }

  lemma OnlyOne(order: seq<string>, name: string)
    requires Agenda(order, {name})
    ensures order == [name]
  {
    assert name in order;
    forall i | 0 <= i < |order| ensures order[i] == name { assert order[i] in order; }
    if |order| > 1 { TwoAlikeRepeat(order); }
  }

  // ---------------------------------------------------------- meaning preserved

  lemma FieldNameIsField(s: string)
    requires s != [] && FieldStart(s[0]) && AllIn(s, FieldChar)
    ensures Mangle(s) == s && ValidField(s) && Chomp(s) == s
  {
    assert FieldChar(s[|s| - 1]);
    NoDots(s);
  }

  lemma VerdictIsField()
    ensures Mangle(VERDICT) == VERDICT && ValidField(VERDICT) && Chomp(VERDICT) == VERDICT && VERDICT != NODE_KEY
  {
    var s := VERDICT;
    assert s[0] == 'v' && |s| == 7;
    assert AllIn(s, FieldChar);
    FieldNameIsField(s);
  }

  lemma {:induction false} NoDots(s: string)
    requires '.' !in s
    ensures Mangle(s) == s
  {
    if s != [] {
      assert s == [s[0]] + s[1..];
      NoDots(s[1..]);
    }
  }

  lemma {:induction false} MangledWithoutDash(f: string)
    ensures '-' !in Mangle(f) ==> Mangle(f) == f
  {
    if f != [] {
      MangledWithoutDash(f[1..]);
      assert f == [f[0]] + f[1..];
      if f[0] == '.' { assert Mangle(f) == "-" + Mangle(f[1..]) && Mangle(f)[0] == '-'; }
    }
  }

  /** The pattern a node condition is read as. */
  function NodeRead(source: string): Pattern { Pattern("node-id", "id", KindOf(Chomp(source)), Chomp(source)) }

  function PatternsOf(c: Case): seq<Pattern> {
    [NodeRead(c.source)] + if c.verdict.Some? then [FieldFact(VERDICT, c.verdict.value)] else []
  }

  /** The name the engine reads for a compiled rule. */
  function RuleNameOf(c: Case): string { Chomp(RuleId(c)) }

  /** What the engine holds of a compiled rule. */
  function ReadOf(c: Case): Read { Read(RuleNameOf(c), PatternsOf(c), [SlotsOf(ActionOf(c), RuleId(c)).value]) }

  /** The node condition in front adds the node pattern and nothing else. */
  lemma NodeInFront(conds: seq<Cond>, ref: string)
    requires conds != [] && conds[0] == Cond(NODE_KEY, Text(ref)) && FieldPatterns(conds[1..]).Ok? && ValidNode(ref)
    ensures PrintWhen(Sugar(conds)).Ok? && Lookup(conds, NODE_KEY) == Some(Text(ref))
    ensures Expected(conds) == [NodeRead(ref)] + ExpectedFields(conds[1..])
  {
    var rest := conds[1..];
    assert CondPattern(conds[0]) == Ok([]);
    assert FieldPatterns(conds) == Prepend(Ok([]), FieldPatterns(rest));
    assert ExpectedFields(conds) == [] + ExpectedFields(rest);
  }

  lemma OneField(conds: seq<Cond>, field: string, value: string)
    requires conds == [Cond(field, Text(value))] && field != NODE_KEY
    requires Mangle(field) == field && Chomp(field) == field && ValidField(field)
    ensures FieldPatterns(conds).Ok? && ExpectedFields(conds) == [FieldFact(field, value)]
  {
    assert conds[1..] == [];
    assert ExpectedFields(conds[1..]) == [];
    assert FieldPatterns(conds[1..]).Ok?;
  }

  lemma CondsRead(c: Case)
    requires ValidNode(c.source)
    ensures PrintWhen(WhenOf(c)).Ok? && Expected(WhenOf(c).conds) == PatternsOf(c)
    ensures Lookup(WhenOf(c).conds, NODE_KEY) == Some(Text(c.source))
  {
    var conds := WhenOf(c).conds;
    if c.verdict.Some? {
      VerdictIsField();
      OneField([Cond(VERDICT, Text(c.verdict.value))], VERDICT, c.verdict.value);
    } else {
      assert FieldPatterns([]).Ok? && ExpectedFields([]) == [];
    }
    assert conds[1..] == if c.verdict.Some? then [Cond(VERDICT, Text(c.verdict.value))] else [];
    NodeInFront(conds, c.source);
  }

  lemma AcceptedIsNode(s: string)
    requires StableIds.Accepted(s)
    ensures ValidNode(s)
  {
    forall i | 0 <= i < |Chomp(s)| ensures NodeChar(Chomp(s)[i]) { assert StableIds.IdChar(Chomp(s)[i]); }
  }

  /** An accepted id that starts with a letter is a rule name. */
  lemma AcceptedIsRuleName(id: string)
    requires StableIds.Accepted(id) && |id| > 1 && 'a' <= id[0] <= 'z'
    ensures RuleName(id)
  {
    var name := Chomp(id);
    forall i | 0 <= i < |name| ensures SymbolChar(name[i]) { assert StableIds.IdChar(name[i]); }
    NotNumeral(name);
  }

  lemma RuleIdStarts(c: Case)
    ensures |RuleId(c)| > 1 && RuleId(c)[0] == 'r'
  {
  }

  lemma OneFact(a: Move, id: string)
    ensures SlotsOf(a, id).Some? && FactsOf([a], id) == Some([SlotsOf(a, id).value]) &&
              PrintableFacts([SlotsOf(a, id).value])
    ensures Produced([SlotsOf(a, id).value]) == [(a, id)]
  {
    FactRecovers(a, id);
    var slots := SlotsOf(a, id).value;
    assert [a][..0] == [] && [slots][..0] == [];
    assert FactsOf([], id) == Some([]) && Produced([]) == [];
    assert [a][0] == a && [] + [slots] == [slots];
    assert FactsOf([a], id) == Some([slots]);
  }

  /**
   * A compiled rule of an accepted document, printed and read by the engine, is its name,
   * its patterns and its action.
   */
  lemma RuleLoads(c: Case)
    requires StableIds.Accepted(c.source) && StableIds.Accepted(RuleId(c))
    ensures Defrule(RuleOf(c)).Defined? && ReadRule(Defrule(RuleOf(c)).text) == Some(ReadOf(c))
    ensures Produced(ReadOf(c).facts) == [(ActionOf(c), RuleId(c))]
  {
    AcceptedIsNode(c.source);
    CondsRead(c);
    RuleIdStarts(c);
    AcceptedIsRuleName(RuleId(c));
    OneFact(ActionOf(c), RuleId(c));
    RuleReadsBack(RuleId(c), WhenOf(c).conds, [SlotsOf(ActionOf(c), RuleId(c)).value]);
  }

  function VerdictIn(fields: map<string, string>): Option<string> {
    if VERDICT in fields then Some(fields[VERDICT]) else None
  }

  /** The pattern of a node condition is the fact of exactly the node it spells, unless that is a numeral. */
  lemma NodeFactExactly(source: string, node: string, fields: map<string, string>, others: set<Fact>)
    requires Unrelated(others, fields)
    ensures NodeRead(source) in TickFacts(node, fields, others) <==> !Numeral(Chomp(source)) && Chomp(source) == node
  {
    var p := NodeRead(source);
    assert Mirrored(p.template, fields) && p !in others;
    assert p.kind != Quoted && p !in FieldFacts(fields);
  }

  lemma FieldFactExactly(field: string, value: string, node: string, fields: map<string, string>, others: set<Fact>)
    requires Unrelated(others, fields) && field in fields && '-' !in field && '.' !in field
    ensures FieldFact(field, value) in TickFacts(node, fields, others) <==> fields[field] == value
  {
    var p := FieldFact(field, value);
    NoDots(field);
    assert Mirrored(p.template, fields) && p !in others;
    if p in FieldFacts(fields) {
      var f :| f in fields && FieldFact(f, fields[f]) == p;
      assert Mangle(f) == field;
      MangledWithoutDash(f);
    }
    assert p.kind == Quoted && NodeFact(node).kind == Name;
  }

  lemma MatchesTwo(r: Read, a: Pattern, bs: seq<Pattern>, facts: set<Fact>)
    requires r.patterns == [a] + bs
    ensures Matches(r, facts) <==> a in facts && forall b <- bs :: b in facts
  {
  }

  /** Read back as itself: the engine takes it for a name, and for the whole of it. */
  predicate Plain(name: string) { !EndsInNewline(name) && !Numeral(name) }

  /** Does the rule of this arrow fire at the node and verdict? */
  predicate FiresAt(c: Case, node: string, verdict: Option<string>) {
    !Numeral(Chomp(c.source)) && Chomp(c.source) == node && (c.verdict.None? || c.verdict == verdict)
  }

  lemma PlainFiresWhereItApplies(c: Case, node: string, verdict: Option<string>)
    requires Plain(c.source)
    ensures FiresAt(c, node, verdict) <==> Applies(c, node, verdict)
  {
    ChompExactly(c.source);
  }

  /** On the facts of a tick a rule matches exactly if its arrow fires there. */
  lemma RuleMatchesExactly(c: Case, node: string, fields: map<string, string>, others: set<Fact>)
    requires Unrelated(others, fields) && (c.verdict.Some? ==> VERDICT in fields)
    ensures Matches(ReadOf(c), TickFacts(node, fields, others)) <==> FiresAt(c, node, VerdictIn(fields))
  {
    var facts, r := TickFacts(node, fields, others), ReadOf(c);
    hide TickFacts;
    hide NodeRead;
    hide FieldFact;
    hide Numeral;
    hide Chomp;
    NodeFactExactly(c.source, node, fields, others);
    if c.verdict.Some? {
      var field, v := VERDICT, c.verdict.value;
      assert '-' !in field && '.' !in field;
      FieldFactExactly(field, v, node, fields, others);
      MatchesTwo(r, NodeRead(c.source), [FieldFact(field, v)], facts);
    } else {
      MatchesTwo(r, NodeRead(c.source), [], facts);
    }
  }

  /** The last case that compiles to a rule read under this name. */
  ghost predicate LastNamed(cs: seq<Case>, name: string, i: nat) {
    i < |cs| && RuleNameOf(cs[i]) == name && forall j :: i < j < |cs| ==> RuleNameOf(cs[j]) != name
  }

  /** What loading leaves under a name: the last rule compiled to it. */
  ghost predicate HoldsLast(m: map<string, Read>, cs: seq<Case>, name: string) {
    && (name in m <==> exists i :: 0 <= i < |cs| && RuleNameOf(cs[i]) == name)
    && (name in m ==> exists i: nat :: LastNamed(cs, name, i) && m[name] == ReadOf(cs[i]))
  }

  lemma LastStays(cs: seq<Case>, n: nat, name: string, i: nat)
    requires n + 1 == |cs| && LastNamed(cs[..n], name, i) && RuleNameOf(cs[n]) != name
    ensures LastNamed(cs, name, i) && cs[..n][i] == cs[i]
  {
    forall j | i < j < |cs| ensures RuleNameOf(cs[j]) != name {
      if j < n { assert cs[..n][j] == cs[j]; }
    }
  }

  lemma NoneStays(cs: seq<Case>, n: nat, name: string)
    requires n + 1 == |cs| && RuleNameOf(cs[n]) != name && forall i :: 0 <= i < n ==> RuleNameOf(cs[..n][i]) != name
    ensures forall i :: 0 <= i < |cs| ==> RuleNameOf(cs[i]) != name
  {
    forall i | 0 <= i < |cs| ensures RuleNameOf(cs[i]) != name {
      if i < n { assert cs[..n][i] == cs[i]; }
    }
  }

  lemma HoldsOther(before: map<string, Read>, cs: seq<Case>, n: nat, name: string)
    requires n + 1 == |cs| && HoldsLast(before, cs[..n], name) && RuleNameOf(cs[n]) != name
    ensures HoldsLast(before, cs, name)
  {
    if name in before {
      var i: nat :| LastNamed(cs[..n], name, i) && before[name] == ReadOf(cs[..n][i]);
      LastStays(cs, n, name, i);
    } else {
      NoneStays(cs, n, name);
    }
  }

  lemma HoldsNext(before: map<string, Read>, m: map<string, Read>, cs: seq<Case>, name: string)
    requires cs != [] && HoldsLast(before, cs[..|cs| - 1], name)
    requires m == before[RuleNameOf(cs[|cs| - 1]) := ReadOf(cs[|cs| - 1])]
    ensures HoldsLast(m, cs, name)
  {
    var n := |cs| - 1;
    if RuleNameOf(cs[n]) == name {
      assert LastNamed(cs, name, n);
    } else {
      HoldsOther(before, cs, n, name);
    }
  }

  /** Sources and rule ids pass the document's id check. */
  ghost predicate AcceptedCases(cs: seq<Case>) {
    forall c <- cs :: StableIds.Accepted(c.source) && StableIds.Accepted(RuleId(c))
  }

  lemma LoadLast(rules: seq<Rule>, read: Read)
    requires rules != [] && Load(rules[..|rules| - 1]).Some? && Defrule(rules[|rules| - 1]).Defined?
    requires ReadRule(Defrule(rules[|rules| - 1]).text) == Some(read)
    ensures Load(rules) == Some(Load(rules[..|rules| - 1]).value[read.name := read])
  {
    hide Defrule;
    hide ReadRule;
  }

  lemma LoadStep(cs: seq<Case>)
    requires cs != [] && AcceptedCases(cs) && Load(RulesOf(cs[..|cs| - 1])).Some?
    ensures var c := cs[|cs| - 1];
            Load(RulesOf(cs)) == Some(Load(RulesOf(cs[..|cs| - 1])).value[RuleNameOf(c) := ReadOf(c)])
  {
    hide Load;
    hide Defrule;
    hide ReadRule;
    var n := |cs| - 1;
    assert cs[n] in cs;
    RuleLoads(cs[n]);
    var rules := RulesOf(cs);
    assert rules[..|rules| - 1] == RulesOf(cs[..n]) && rules[|rules| - 1] == RuleOf(cs[n]);
    LoadLast(rules, ReadOf(cs[n]));
  }

  /** All rules of an accepted document load, and each name holds the last rule compiled to it. */
  lemma {:induction false} LoadedExactly(cs: seq<Case>, name: string)
    requires AcceptedCases(cs)
    ensures Load(RulesOf(cs)).Some? && HoldsLast(Load(RulesOf(cs)).value, cs, name)
  {
    if cs != [] {
      var init := cs[..|cs| - 1];
      assert AcceptedCases(init);
      LoadedExactly(init, name);
      LoadStep(cs);
      HoldsNext(Load(RulesOf(init)).value, Load(RulesOf(cs)).value, cs, name);
    }
  }

  /** No two rules are read under one name. */
  ghost predicate DistinctNames(cs: seq<Case>) {
    forall i, j :: 0 <= i < j < |cs| ==> RuleNameOf(cs[i]) != RuleNameOf(cs[j])
  }

  /** Every source is read back as itself and no rule takes another's name. */
  ghost predicate Followable(routes: seq<Route>) {
    (forall c <- Cases(routes) :: Plain(c.source)) && DistinctNames(Cases(routes))
  }

  /** The engine with these rules does what the table says, at every node, for every verdict. */
  ghost predicate Agrees(rules: map<string, Read>, routes: seq<Route>, routed: set<string>) {
    forall node, fields: map<string, string>, others ::
      fields.Keys == routed && Unrelated(others, fields) ==>
        Fires(rules, TickFacts(node, fields, others), TableAction(routes, node, VerdictIn(fields)))
  }

  function Known(nodes: seq<string>): set<string> { set n <- nodes }

  /** The table compiles, and a graph can be built from the document it compiles to. */
  ghost predicate Accepts(routes: seq<Route>, nodes: seq<string>, routed: set<string>) {
    && UniqueKeys(routes) && CompileRoutes(routes, Known(nodes), routed).Compiled?
    && Documents.Valid(nodes, CompileRoutes(routes, Known(nodes), routed).rules)
  }

  /** The engine's rules for a table. */
  function Loaded(routes: seq<Route>): Option<map<string, Read>> { Load(RulesOf(Cases(routes))) }

  lemma AcceptedTable(routes: seq<Route>, nodes: seq<string>, routed: set<string>)
    requires Accepts(routes, nodes, routed)
    ensures CompileRoutes(routes, Known(nodes), routed).rules == RulesOf(Cases(routes))
    ensures AcceptedCases(Cases(routes)) && Loaded(routes).Some?
  {
    CompiledRulesAre(routes, Known(nodes), routed);
    var cs := Cases(routes);
    forall c <- cs ensures StableIds.Accepted(c.source) && StableIds.Accepted(RuleId(c)) {
      var i :| 0 <= i < |cs| && cs[i] == c;
      assert RulesOf(cs)[i] in RulesOf(cs);
    }
    LoadedExactly(cs, "");
  }

  lemma {:induction false} VerdictsAreRouted(routes: seq<Route>, known: set<string>, routed: set<string>, c: Case)
    requires CompileRoutes(routes, known, routed).Compiled? && c in Cases(routes)
    ensures c.verdict.Some? ==> VERDICT in routed
  {
    if routes != [] && c in Cases(routes[..|routes| - 1]) {
      VerdictsAreRouted(routes[..|routes| - 1], known, routed, c);
    }
  }

  lemma OwnCasesDiffer(r: Route, i: nat, j: nat)
    requires UniqueKeys([r]) && i < j < |CasesOf(r)|
    ensures CasesOf(r)[i] != CasesOf(r)[j]
  {
    assert r in [r];
  }

  lemma RoutesDiffer(routes: seq<Route>, a: Case, b: Case)
    requires UniqueKeys(routes) && routes != []
    requires a in Cases(routes[..|routes| - 1]) && b in CasesOf(routes[|routes| - 1])
    ensures a != b
  {
    var n := |routes| - 1;
    CaseComesFrom(routes[..n], a);
    var r :| r in routes[..n] && a in CasesOf(r);
    SourceOfCase(r, a);
    SourceOfCase(routes[n], b);
    var k :| 0 <= k < n && routes[k] == r;
    assert routes[k].source != routes[n].source;
  }

  lemma InitKeys(routes: seq<Route>)
    requires UniqueKeys(routes) && routes != []
    ensures UniqueKeys(routes[..|routes| - 1]) && UniqueKeys([routes[|routes| - 1]])
  {
    assert routes[|routes| - 1] in routes;
  }

  lemma {:induction false} CasesDiffer(routes: seq<Route>, i: nat, j: nat)
    requires UniqueKeys(routes) && i < j < |Cases(routes)|
    ensures Cases(routes)[i] != Cases(routes)[j]
  {
    if routes != [] {
      InitKeys(routes);
      var init, last := routes[..|routes| - 1], routes[|routes| - 1];
      var m := |Cases(init)|;
      if j < m {
        CasesDiffer(init, i, j);
      } else if i < m {
        RoutesDiffer(routes, Cases(init)[i], CasesOf(last)[j - m]);
      } else {
        OwnCasesDiffer(last, i - m, j - m);
      }
    }
  }

  lemma NamesFire(routes: seq<Route>, nodes: seq<string>, routed: set<string>, node: string,
                  fields: map<string, string>, others: set<Fact>, name: string)
    requires Accepts(routes, nodes, routed) && fields.Keys == routed && Unrelated(others, fields)
    ensures var cs := Cases(routes);
            && Loaded(routes).Some?
            && (name in FiredIds(Loaded(routes).value, TickFacts(node, fields, others)) <==>
                  exists i: nat :: LastNamed(cs, name, i) && FiresAt(cs[i], node, VerdictIn(fields)))
  {
    var cs := Cases(routes);
    AcceptedTable(routes, nodes, routed);
    LoadedExactly(cs, name);
    forall i | 0 <= i < |cs|
      ensures Matches(ReadOf(cs[i]), TickFacts(node, fields, others)) <==> FiresAt(cs[i], node, VerdictIn(fields))
    {
      VerdictsAreRouted(routes, Known(nodes), routed, cs[i]);
      RuleMatchesExactly(cs[i], node, fields, others);
    }
  }

  lemma NothingFires(routes: seq<Route>, nodes: seq<string>, routed: set<string>, node: string,
                     fields: map<string, string>, others: set<Fact>)
    requires Accepts(routes, nodes, routed) && Followable(routes) && fields.Keys == routed && Unrelated(others, fields)
    requires TableAction(routes, node, VerdictIn(fields)).None?
    ensures Loaded(routes).Some? && FiredIds(Loaded(routes).value, TickFacts(node, fields, others)) == {}
  {
    AcceptedTable(routes, nodes, routed);
    hide *;
    var fired := FiredIds(Loaded(routes).value, TickFacts(node, fields, others));
    forall name ensures name !in fired {
      NamesFire(routes, nodes, routed, node, fields, others, name);
      if i: nat :| LastNamed(Cases(routes), name, i) && FiresAt(Cases(routes)[i], node, VerdictIn(fields)) {
        PlainFiresWhereItApplies(Cases(routes)[i], node, VerdictIn(fields));
        TableExactly(routes, Cases(routes)[i], node, VerdictIn(fields));
      }
    }
  }

  lemma OwnNameFires(routes: seq<Route>, nodes: seq<string>, routed: set<string>, node: string,
                     fields: map<string, string>, others: set<Fact>, c: Case, name: string)
    requires Accepts(routes, nodes, routed) && Followable(routes) && fields.Keys == routed && Unrelated(others, fields)
    requires c in Cases(routes) && Applies(c, node, VerdictIn(fields))
    ensures Loaded(routes).Some?
    ensures name in FiredIds(Loaded(routes).value, TickFacts(node, fields, others)) <==> name == RuleNameOf(c)
  {
    NamesFire(routes, nodes, routed, node, fields, others, name);
    var cs, v := Cases(routes), VerdictIn(fields);
    if name == RuleNameOf(c) {
      var i: nat :| i < |cs| && cs[i] == c;
      PlainFiresWhereItApplies(c, node, v);
      assert LastNamed(cs, name, i);
    } else if j: nat :| LastNamed(cs, name, j) && FiresAt(cs[j], node, v) {
      PlainFiresWhereItApplies(cs[j], node, v);
      OneCaseApplies(routes, c, cs[j], node, v);
    }
  }

  lemma OwnRuleLoaded(cs: seq<Case>, c: Case)
    requires DistinctNames(cs) && c in cs && AcceptedCases(cs)
    ensures Load(RulesOf(cs)).Some?
    ensures var m := Load(RulesOf(cs)).value;
            RuleNameOf(c) in m && m[RuleNameOf(c)] == ReadOf(c)
  {
    var name := RuleNameOf(c);
    LoadedExactly(cs, name);
    var m := Load(RulesOf(cs)).value;
    var i :| 0 <= i < |cs| && cs[i] == c;
    var k: nat :| LastNamed(cs, name, k) && m[name] == ReadOf(cs[k]);
    assert k == i;
  }

  lemma OnlyMember<T>(s: set<T>, x: T)
    requires forall y :: y in s <==> y == x
    ensures s == {x}
  {
  }

  lemma OnlyOwnFires(routes: seq<Route>, nodes: seq<string>, routed: set<string>, node: string,
                     fields: map<string, string>, others: set<Fact>, c: Case)
    requires Accepts(routes, nodes, routed) && Followable(routes) && fields.Keys == routed && Unrelated(others, fields)
    requires c in Cases(routes) && Applies(c, node, VerdictIn(fields))
    ensures Loaded(routes).Some? && FiredIds(Loaded(routes).value, TickFacts(node, fields, others)) == {RuleNameOf(c)}
  {
    AcceptedTable(routes, nodes, routed);
    hide *;
    var fired := FiredIds(Loaded(routes).value, TickFacts(node, fields, others));
    forall name ensures name in fired <==> name == RuleNameOf(c) {
      OwnNameFires(routes, nodes, routed, node, fields, others, c, name);
    }
    OnlyMember(fired, RuleNameOf(c));
  }

  lemma OneFires(rules: map<string, Read>, facts: set<Fact>, name: string, a: Move, id: string)
    requires FiredIds(rules, facts) == {name} && Produced(rules[name].facts) == [(a, id)]
    ensures Fires(rules, facts, Some(a))
  {
  }

  lemma AgreesAt(routes: seq<Route>, nodes: seq<string>, routed: set<string>, node: string, fields: map<string, string>,
                 others: set<Fact>)
    requires Accepts(routes, nodes, routed) && Followable(routes) && fields.Keys == routed && Unrelated(others, fields)
    ensures Loaded(routes).Some?
    ensures Fires(Loaded(routes).value, TickFacts(node, fields, others), TableAction(routes, node, VerdictIn(fields)))
  {
    var v := VerdictIn(fields);
    AcceptedTable(routes, nodes, routed);
    if TableAction(routes, node, v).None? {
      NothingFires(routes, nodes, routed, node, fields, others);
    } else {
      var c := TableNames(routes, node, v);
      TableExactly(routes, c, node, v);
      OnlyOwnFires(routes, nodes, routed, node, fields, others, c);
      OwnRuleLoaded(Cases(routes), c);
      RuleLoads(c);
      OneFires(Loaded(routes).value, TickFacts(node, fields, others), RuleNameOf(c), ActionOf(c), RuleId(c));
    }
  }

  /** A verdict, and the routed fields holding it, at which an arrow applies. */
  function Witness(c: Case, routed: set<string>): map<string, string> {
    map f | f in routed :: if c.verdict.Some? then c.verdict.value else ""
  }

  lemma WitnessApplies(routes: seq<Route>, nodes: seq<string>, routed: set<string>, c: Case)
    requires Accepts(routes, nodes, routed) && c in Cases(routes)
    ensures var fields := Witness(c, routed);
            && fields.Keys == routed && Unrelated({}, fields) && Applies(c, c.source, VerdictIn(fields))
            && TableAction(routes, c.source, VerdictIn(fields)) == Some(ActionOf(c))
  {
    VerdictsAreRouted(routes, Known(nodes), routed, c);
    TableExactly(routes, c, c.source, VerdictIn(Witness(c, routed)));
  }

  lemma SilenceDisagrees(routes: seq<Route>, nodes: seq<string>, routed: set<string>, c: Case)
    requires Accepts(routes, nodes, routed) && c in Cases(routes) && Loaded(routes).Some?
    requires FiredIds(Loaded(routes).value, TickFacts(c.source, Witness(c, routed), {})) == {}
    ensures !Agrees(Loaded(routes).value, routes, routed)
  {
    WitnessApplies(routes, nodes, routed, c);
    var fields := Witness(c, routed);
    assert !Fires(Loaded(routes).value, TickFacts(c.source, fields, {}),
           TableAction(routes, c.source, VerdictIn(fields)));
  }

  /** A source that is a numeral, or ends in a newline, is a node at which no rule fires. */
  lemma UnreadableSourceIsSilent(routes: seq<Route>, nodes: seq<string>, routed: set<string>, c: Case)
    requires Accepts(routes, nodes, routed) && c in Cases(routes) && !Plain(c.source)
    ensures Loaded(routes).Some? && !Agrees(Loaded(routes).value, routes, routed)
  {
    var cs, fields := Cases(routes), Witness(c, routed);
    AcceptedTable(routes, nodes, routed);
    WitnessApplies(routes, nodes, routed, c);
    forall name ensures name !in FiredIds(Loaded(routes).value, TickFacts(c.source, fields, {})) {
      NamesFire(routes, nodes, routed, c.source, fields, {}, name);
      if k: nat :| LastNamed(cs, name, k) && FiresAt(cs[k], c.source, VerdictIn(fields)) {
        assert cs[k] in cs;
        SpelledNodeIsPlain(cs[k].source);
      }
    }
    SilenceDisagrees(routes, nodes, routed, c);
  }

  lemma SpelledNodeIsPlain(source: string)
    requires StableIds.Accepted(source) && !Numeral(Chomp(source))
    ensures Plain(Chomp(source))
  {
    assert StableIds.IdChar(Chomp(source)[|Chomp(source)| - 1]);
  }

  /** A rule whose name is taken by a later one is gone: at its own node and verdict nothing fires. */
  lemma LostRuleDisagrees(routes: seq<Route>, nodes: seq<string>, routed: set<string>, i: nat, j: nat)
    requires Accepts(routes, nodes, routed) && i < j < |Cases(routes)| && forall c <- Cases(routes) :: Plain(c.source)
    requires RuleNameOf(Cases(routes)[i]) == RuleNameOf(Cases(routes)[j])
    ensures Loaded(routes).Some? && !Agrees(Loaded(routes).value, routes, routed)
  {
    var cs := Cases(routes);
    var c, fields := cs[i], Witness(cs[i], routed);
    AcceptedTable(routes, nodes, routed);
    WitnessApplies(routes, nodes, routed, c);
    forall name ensures name !in FiredIds(Loaded(routes).value, TickFacts(c.source, fields, {})) {
      NamesFire(routes, nodes, routed, c.source, fields, {}, name);
      if k: nat :| LastNamed(cs, name, k) && FiresAt(cs[k], c.source, VerdictIn(fields)) {
        LostIsNotLast(routes, i, j, name, k, VerdictIn(fields));
      }
    }
    SilenceDisagrees(routes, nodes, routed, c);
  }

  lemma LostIsNotLast(routes: seq<Route>, i: nat, j: nat, name: string, k: nat, verdict: Option<string>)
    requires UniqueKeys(routes) && i < j < |Cases(routes)| &&
               RuleNameOf(Cases(routes)[i]) == RuleNameOf(Cases(routes)[j])
    requires LastNamed(Cases(routes), name, k) && Plain(Cases(routes)[k].source)
    requires Applies(Cases(routes)[i], Cases(routes)[i].source, verdict)
    ensures !FiresAt(Cases(routes)[k], Cases(routes)[i].source, verdict)
  {
    var cs := Cases(routes);
    PlainFiresWhereItApplies(cs[k], cs[i].source, verdict);
    if Applies(cs[k], cs[i].source, verdict) {
      OneCaseApplies(routes, cs[i], cs[k], cs[i].source, verdict);
      if k < i { CasesDiffer(routes, k, i); }
      if i < k { CasesDiffer(routes, i, k); }
    }
  }

  /**
   * Compilation preserves meaning, exactly. From a table whose document is accepted, all
   * rules load; printed, read and matched on the facts of a tick, they fire the action
   * the table names and nothing else, at every node and verdict, if and only if no
   * source is a numeral or ends in a newline and no two rule ids differ only in that.
   */
  lemma CompilationPreservesMeaning(routes: seq<Route>, nodes: seq<string>, routed: set<string>)
    requires Accepts(routes, nodes, routed)
    ensures Load(CompileRoutes(routes, Known(nodes), routed).rules) == Loaded(routes) && Loaded(routes).Some?
    ensures Agrees(Loaded(routes).value, routes, routed) <==> Followable(routes)
  {
    AcceptedTable(routes, nodes, routed);
    if Followable(routes) {
      forall node, fields: map<string, string>, others | fields.Keys == routed && Unrelated(others, fields)
        ensures Fires(Loaded(routes).value, TickFacts(node, fields, others),
                  TableAction(routes, node, VerdictIn(fields)))
      {
        AgreesAt(routes, nodes, routed, node, fields, others);
      }
    } else if c :| c in Cases(routes) && !Plain(c.source) {
      UnreadableSourceIsSilent(routes, nodes, routed, c);
    } else {
      var i, j :| 0 <= i < j < |Cases(routes)| && RuleNameOf(Cases(routes)[i]) == RuleNameOf(Cases(routes)[j]);
      LostRuleDisagrees(routes, nodes, routed, i, j);
    }
  }

  /** No id condition is left once names and verdicts do not end in newlines: equal ids are not accepted. */
  lemma AcceptedIdsSuffice(routes: seq<Route>, nodes: seq<string>, routed: set<string>)
    requires Accepts(routes, nodes, routed) && forall c <- Cases(routes) :: !EndsInNewline(RuleId(c))
    ensures DistinctNames(Cases(routes))
  {
    AcceptedTable(routes, nodes, routed);
    var cs := Cases(routes);
    forall i, j | 0 <= i < j < |cs| ensures RuleNameOf(cs[i]) != RuleNameOf(cs[j]) {
      assert cs[i] in cs && cs[j] in cs;
      ChompExactly(RuleId(cs[i]));
      ChompExactly(RuleId(cs[j]));
      var ids := Documents.RuleIds(RulesOf(cs));
      assert ids[i] == RuleId(cs[i]) && ids[j] == RuleId(cs[j]);
    }
  }

  // ------------------------------------------------------------ which are accepted

  ghost predicate DistinctIds(cs: seq<Case>) {
    forall i, j :: 0 <= i < j < |cs| ==> RuleId(cs[i]) != RuleId(cs[j])
  }

  lemma WhensFit(cs: seq<Case>, nodes: seq<string>)
    requires forall c <- cs :: StableIds.Accepted(c.source) && c.source in nodes
    ensures forall r <- RulesOf(cs) :: Documents.WhenFits(r.when, nodes)
  {
    forall r <- RulesOf(cs) ensures Documents.WhenFits(r.when, nodes) {
      var c := CaseOfRule(cs, r);
      AcceptedIsNode(c.source);
      CondsRead(c);
    }
  }

  lemma CaseOfRule(cs: seq<Case>, r: Rule) returns (c: Case)
    requires r in RulesOf(cs)
    ensures c in cs && r == RuleOf(c)
  {
    var i :| 0 <= i < |cs| && RulesOf(cs)[i] == r;
    c := cs[i];
  }

  lemma RuleOfCase(cs: seq<Case>, c: Case)
    requires c in cs
    ensures RuleOf(c) in RulesOf(cs)
  {
    var i :| 0 <= i < |cs| && cs[i] == c;
    assert RulesOf(cs)[i] == RuleOf(c);
  }

  lemma IdsAccepted(cs: seq<Case>)
    ensures (forall r <- RulesOf(cs) :: StableIds.Accepted(r.id)) <==> forall c <- cs :: StableIds.Accepted(RuleId(c))
  {
    if forall r <- RulesOf(cs) :: StableIds.Accepted(r.id) {
      forall c <- cs ensures StableIds.Accepted(RuleId(c)) { RuleOfCase(cs, c); }
    }
    if forall c <- cs :: StableIds.Accepted(RuleId(c)) {
      forall r <- RulesOf(cs) ensures StableIds.Accepted(r.id) { var c := CaseOfRule(cs, r); }
    }
  }

  lemma IdsRepeat(cs: seq<Case>)
    ensures Documents.NoRepeats(Documents.RuleIds(RulesOf(cs))) <==> DistinctIds(cs)
  {
    var ids := Documents.RuleIds(RulesOf(cs));
    assert |ids| == |cs|;
    forall i | 0 <= i < |cs| ensures ids[i] == RuleId(cs[i]) { }
  }

  /** A compiled table is accepted exactly if its nodes and rule ids pass the id check and none repeats. */
  lemma AcceptedExactly(routes: seq<Route>, nodes: seq<string>, routed: set<string>)
    requires UniqueKeys(routes) && CompileRoutes(routes, Known(nodes), routed).Compiled?
    ensures Accepts(routes, nodes, routed) <==>
              && (forall n <- nodes :: StableIds.Accepted(n)) && Documents.NoRepeats(nodes)
              && (forall c <- Cases(routes) :: StableIds.Accepted(RuleId(c))) && DistinctIds(Cases(routes))
  {
    CompiledRulesAre(routes, Known(nodes), routed);
    IdsAccepted(Cases(routes));
    IdsRepeat(Cases(routes));
    if forall n <- nodes :: StableIds.Accepted(n) { WhensFit(Cases(routes), nodes); }
  }

  lemma SameId(a: string, b: string, c: string, target: string)
    ensures RuleId(Case(a, Some(b + ("-" + c)), target)) == RuleId(Case(a + ("-" + b), Some(c), target))
  {
  }

  lemma RepeatedId(cs: seq<Case>, i: nat, j: nat)
    requires i < j < |cs| && RuleId(cs[i]) == RuleId(cs[j])
    ensures !DistinctIds(cs)
  {
  }

  /** A route with one verdict, leading to the end. */
  function OneVerdict(source: string, verdict: string): Route { Route(source, ByVerdict([(verdict, DONE)])) }

  lemma OneVerdictCases(source: string, verdict: string, known: set<string>)
    ensures CasesOf(OneVerdict(source, verdict)) == [Case(source, Some(verdict), DONE)]
    ensures TargetError(CasesOf(OneVerdict(source, verdict)), known).None?
  {
    OneTarget(OneVerdict(source, verdict), known);
  }

  /** Two arrows with one rule id: the table compiles, and no graph is built from it. */
  lemma CollisionIsRefused(a: string, b: string, c: string, routed: set<string>)
    requires VERDICT in routed
    ensures var nodes := [a, a + ("-" + b)];
            var routes := [OneVerdict(a, b + ("-" + c)), OneVerdict(a + ("-" + b), c)];
            UniqueKeys(routes) && CompileRoutes(routes, Known(nodes), routed).Compiled? &&
                !Accepts(routes, nodes, routed)
  {
    var long := a + ("-" + b);
    var nodes, r, q := [a, long], OneVerdict(a, b + ("-" + c)), OneVerdict(long, c);
    assert |a| < |long| && a in nodes && long in nodes;
    OneVerdictCases(a, b + ("-" + c), Known(nodes));
    OneVerdictCases(long, c, Known(nodes));
    TwoRoutesCompile(r, q, Known(nodes), routed);
    SameId(a, b, c, DONE);
    RepeatedId(Cases([r, q]), 0, 1);
    AcceptedExactly([r, q], nodes, routed);
  }

  lemma OneRouteCompiles(r: Route, known: set<string>, routed: set<string>)
    requires RouteError(r, known, routed).None?
    ensures CompileRoutes([r], known, routed) == Compiled(RulesOf(CasesOf(r))) && Cases([r]) == CasesOf(r)
  {
    assert [r][..0] == [] && CompileRoutes([], known, routed) == Compiled([]);
    assert [] + RulesOf(CasesOf(r)) == RulesOf(CasesOf(r)) && [] + CasesOf(r) == CasesOf(r);
  }

  lemma TwoRoutesCompile(r: Route, q: Route, known: set<string>, routed: set<string>)
    requires RouteError(r, known, routed).None? && RouteError(q, known, routed).None?
    ensures CompileRoutes([r, q], known, routed).Compiled? && Cases([r, q]) == CasesOf(r) + CasesOf(q)
  {
    OneRouteCompiles(r, known, routed);
    assert [r, q][..1] == [r];
  }

  lemma OneTarget(r: Route, known: set<string>)
    requires |CasesOf(r)| == 1 && CasesOf(r)[0].target == DONE
    ensures TargetError(CasesOf(r), known).None?
  {
    assert CasesOf(r)[1..] == [];
  }

  lemma SpacedIsNotAccepted(id: string, k: nat)
    requires k < |id| && id[k] == ' '
    ensures !StableIds.Accepted(id)
  {
    assert !StableIds.IdChar(Chomp(id)[k]);
  }

  lemma IdEndsInVerdict(c: Case, i: nat)
    requires c.verdict.Some? && i < |c.verdict.value|
    ensures var k := |RuleId(c)| - |c.verdict.value| + i; 0 <= k < |RuleId(c)| && RuleId(c)[k] == c.verdict.value[i]
  {
    var head := "r-" + c.source + "-";
    assert RuleId(c) == head + c.verdict.value;
  }

  lemma SpacedVerdictSpacesId(c: Case)
    requires c.verdict.Some? && ' ' in c.verdict.value
    ensures !StableIds.Accepted(RuleId(c))
  {
    var i: nat :| i < |c.verdict.value| && c.verdict.value[i] == ' ';
    IdEndsInVerdict(c, i);
    SpacedIsNotAccepted(RuleId(c), |RuleId(c)| - |c.verdict.value| + i);
  }

  /** A verdict with a space in it is refused, and would have printed no rule. */
  lemma SpacedVerdictIsRefused(routes: seq<Route>, nodes: seq<string>, routed: set<string>, c: Case)
    requires UniqueKeys(routes) && CompileRoutes(routes, Known(nodes), routed).Compiled?
    requires c in Cases(routes) && c.verdict.Some? && ' ' in c.verdict.value
    ensures !Accepts(routes, nodes, routed)
  {
    hide *;
    AcceptedExactly(routes, nodes, routed);
    SpacedVerdictSpacesId(c);
  }

  /** An accepted table gets an engine exactly if it has an arrow. */
  lemma TableBuildsExactly(routes: seq<Route>, nodes: seq<string>, routed: set<string>)
    requires Accepts(routes, nodes, routed)
    ensures AllSkipped(CompileRoutes(routes, Known(nodes), routed).rules) <==> Cases(routes) == []
  {
    AcceptedTable(routes, nodes, routed);
    var cs := Cases(routes);
    if cs != [] {
      RuleLoads(cs[0]);
      assert RulesOf(cs)[0] == RuleOf(cs[0]) && RulesOf(cs)[0] in RulesOf(cs);
    }
  }

  lemma DirectIsAccepted(node: string, routed: set<string>)
    requires StableIds.Accepted(node) && StableIds.Accepted(RuleId(Case(node, None, DONE)))
    ensures var routes := [Route(node, Direct(DONE))];
            Accepts(routes, [node], routed) && Case(node, None, DONE) in Cases(routes)
  {
    var r := Route(node, Direct(DONE));
    assert node in [node];
    OneTarget(r, Known([node]));
    OneRouteCompiles(r, Known([node]), routed);
    AcceptedExactly([r], [node], routed);
  }

  /** A table of one node, named by a numeral: accepted, loaded, and not followed. */
  lemma NumeralNodeIsNotRouted(node: string, routed: set<string>)
    requires StableIds.Accepted(node) && Numeral(node) && StableIds.Accepted(RuleId(Case(node, None, DONE)))
    ensures var routes := [Route(node, Direct(DONE))];
            && Accepts(routes, [node], routed) && Loaded(routes).Some?
            && !Agrees(Loaded(routes).value, routes, routed)
  {
    DirectIsAccepted(node, routed);
    UnreadableSourceIsSilent([Route(node, Direct(DONE))], [node], routed, Case(node, None, DONE));
  }

  lemma SevenIsNumeral()
    ensures Numeral("7") && StableIds.Accepted("7") && StableIds.Accepted(RuleId(Case("7", None, DONE)))
  {
    var s, id := "7", "r-7";
    assert RuleId(Case("7", None, DONE)) == id;
    assert Unsigned(s) == s && Run(s[1..], IsNumeric) == 0 && Run(s, IsNumeric) == 1 && s[1..] == [];
    assert Chomp(s) == s && Chomp(id) == id;
  }

  /** A route with a verdict and the same verdict with a newline behind it. */
  function Twins(node: string, verdict: string): Route {
    Route(node, ByVerdict([(verdict, DONE), (verdict + "\n", DONE)]))
  }

  lemma TwinsCompile(node: string, verdict: string, known: set<string>, routed: set<string>)
    requires node in known && VERDICT in routed
    ensures UniqueKeys([Twins(node, verdict)]) && CompileRoutes([Twins(node, verdict)], known, routed).Compiled?
    ensures Cases([Twins(node, verdict)]) == [Case(node, Some(verdict), DONE), Case(node, Some(verdict + "\n"), DONE)]
  {
    var r := Twins(node, verdict);
    var x, y := Case(node, Some(verdict), DONE), Case(node, Some(verdict + "\n"), DONE);
    assert CasesOf(r) == [x, y] && [x, y][1..] == [y] && [y][1..] == [];
    var all := [x, y];
    assert TargetError([y][1..], known).None? && TargetError([y], known).None?;
    assert all[0] == x && all[1..] == [y] && TargetError(all[1..], known).None?;
    assert TargetError(all, known).None?;
    assert |verdict| != |verdict + "\n"|;
    OneRouteCompiles(r, known, routed);
  }

  lemma TwinIds(node: string, verdict: string)
    requires !EndsInNewline(verdict)
    ensures var x, y := Case(node, Some(verdict), DONE), Case(node, Some(verdict + "\n"), DONE);
            RuleId(x) != RuleId(y) && RuleNameOf(x) == RuleNameOf(y)
  {
    var x, y := Case(node, Some(verdict), DONE), Case(node, Some(verdict + "\n"), DONE);
    var head := "r-" + node + "-";
    assert RuleId(x) == head + verdict && RuleId(y) == head + verdict + "\n";
    assert !EndsInNewline(head + verdict);
    ChompedTwin(head + verdict, head + verdict + "\n");
    assert |head + verdict| != |head + verdict + "\n"|;
  }

  /** Two verdicts that differ in a final newline: accepted, and the first rule is lost. */
  lemma NewlineTwinIsLost(node: string, verdict: string, routed: set<string>)
    requires VERDICT in routed && StableIds.Accepted(node) && Plain(node) && !EndsInNewline(verdict)
    requires StableIds.Accepted(RuleId(Case(node, Some(verdict), DONE))) &&
               StableIds.Accepted(RuleId(Case(node, Some(verdict + "\n"), DONE)))
    ensures var routes := [Twins(node, verdict)];
            && Accepts(routes, [node], routed) && Loaded(routes).Some?
            && !Agrees(Loaded(routes).value, routes, routed)
  {
    var routes := [Twins(node, verdict)];
    assert node in [node];
    TwinsCompile(node, verdict, Known([node]), routed);
    TwinIds(node, verdict);
    hide RuleId;
    hide RuleNameOf;
    hide Twins;
    hide Accepts;
    AcceptedExactly(routes, [node], routed);
    LostRuleDisagrees(routes, [node], routed, 0, 1);
  }

  lemma ChompedTwin(a: string, b: string)
    requires b == a + "\n" && !EndsInNewline(a)
    ensures Chomp(a) == Chomp(b)
  {
  }

  // ----------------------------------------------------------------- whole runs

  /** The static edge: the node after `cur` in declaration order. */
  function NextNode(nodes: seq<string>, cur: string): Option<string> {
    if |nodes| < 2 then None
    else if nodes[0] == cur then Some(nodes[1])
    else NextNode(nodes[1..], cur)
  }

  function After(nodes: seq<string>, cur: string, decision: Option<Move>): Option<string> {
    match decision
    case None => NextNode(nodes, cur)
    case Some(Goto(target)) => Some(target)
    case Some(Halt(_)) => None
  }

  /** The nodes visited in `n` ticks by the table alone; `mirrored` gives the routed fields after each tick. */
  function TableRun(routes: seq<Route>, nodes: seq<string>, cur: string, mirrored: nat -> map<string, string>, k: nat,
                    n: nat): seq<string>
    decreases n
  {
    if n == 0 then []
    else
      match After(nodes, cur, TableAction(routes, cur, VerdictIn(mirrored(k))))
      case None => [cur]
      case Some(next) => [cur] + TableRun(routes, nodes, next, mirrored, k + 1, n - 1)
  }

  /** The working memory after a tick's mirroring. */
  function Remember(facts: set<Fact>, node: string, fields: map<string, string>): set<Fact> {
    TickFacts(node, fields, set p | p in facts && !Mirrored(p.template, fields))
  }

  /** `visited` is what the live engine does: memory carries over, and each decision is one its rules fire. */
  ghost predicate EngineRun(rules: map<string, Read>, nodes: seq<string>, cur: string,
                            mirrored: nat -> map<string, string>,
                            k: nat, n: nat, facts: set<Fact>, visited: seq<string>)
    decreases n
  {
    if n == 0 then visited == []
    else
      var now := Remember(facts, cur, mirrored(k));
      visited != [] && visited[0] == cur
      && exists d: Option<Move> :: Fires(rules, now, d)
           && match After(nodes, cur, d)
              case None => |visited| == 1
              case Some(next) => EngineRun(rules, nodes, next, mirrored, k + 1, n - 1, now, visited[1..])
  }

  lemma FiresOnce(rules: map<string, Read>, facts: set<Fact>, a: Option<Move>, b: Option<Move>)
    requires Fires(rules, facts, a) && Fires(rules, facts, b)
    ensures a == b
  {
    if a.Some? && b.Some? {
      var m, i :| FiredIds(rules, facts) == {m} && Produced(rules[m].facts) == [(a.value, i)];
      var n, j :| FiredIds(rules, facts) == {n} && Produced(rules[n].facts) == [(b.value, j)];
      assert m in {n};
    }
  }

  /** One tick: the rules decide as the table does, and decide nothing else. */
  lemma TickDecides(routes: seq<Route>, nodes: seq<string>, routed: set<string>, cur: string,
                    fields: map<string, string>, facts: set<Fact>, d: Option<Move>)
    requires Accepts(routes, nodes, routed) && Followable(routes) && fields.Keys == routed
    ensures Loaded(routes).Some?
    ensures Fires(Loaded(routes).value, Remember(facts, cur, fields), d) <==>
              d == TableAction(routes, cur, VerdictIn(fields))
  {
    AcceptedTable(routes, nodes, routed);
    var rules, now := Loaded(routes).value, Remember(facts, cur, fields);
    AgreesAt(routes, nodes, routed, cur, fields, set p | p in facts && !Mirrored(p.template, fields));
    if Fires(rules, now, d) { FiresOnce(rules, now, d, TableAction(routes, cur, VerdictIn(fields))); }
  }

  /** The first tick of an engine run, once it is known which decision its rules fire. */
  lemma EngineStep(rules: map<string, Read>, nodes: seq<string>, cur: string, mirrored: nat -> map<string, string>,
                   k: nat, n: nat, facts: set<Fact>, visited: seq<string>, d: Option<Move>)
    requires n > 0 && forall e :: Fires(rules, Remember(facts, cur, mirrored(k)), e) <==> e == d
    ensures EngineRun(rules, nodes, cur, mirrored, k, n, facts, visited) <==>
              (visited != [] && visited[0] == cur
               && match After(nodes, cur, d)
                  case None => |visited| == 1
                  case Some(next) => EngineRun(rules, nodes, next, mirrored, k + 1, n - 1,
                      Remember(facts, cur, mirrored(k)), visited[1..]))
  {
  }

  /** At every tick, from any memory, these rules decide as the table does and decide nothing else. */
  ghost predicate Obeys(rules: map<string, Read>, routes: seq<Route>, mirrored: nat -> map<string, string>) {
    forall cur, k: nat, facts, d: Option<Move> ::
      Fires(rules, Remember(facts, cur, mirrored(k)), d) <==> d == TableAction(routes, cur, VerdictIn(mirrored(k)))
  }

  lemma {:induction false} ObedientRuns(rules: map<string, Read>, routes: seq<Route>, nodes: seq<string>, cur: string,
                        mirrored: nat -> map<string, string>, k: nat, n: nat, facts: set<Fact>, visited: seq<string>)
    requires Obeys(rules, routes, mirrored)
    ensures EngineRun(rules, nodes, cur, mirrored, k, n, facts, visited) <==>
              visited == TableRun(routes, nodes, cur, mirrored, k, n)
    decreases n
  {
    if n > 0 {
      var d := TableAction(routes, cur, VerdictIn(mirrored(k)));
      var now := Remember(facts, cur, mirrored(k));
      EngineStep(rules, nodes, cur, mirrored, k, n, facts, visited, d);
      var next := After(nodes, cur, d);
      if next.Some? {
        if visited != [] { ObedientRuns(rules, routes, nodes, next.value, mirrored, k + 1, n - 1, now, visited[1..]); }
        SameSplit(visited, cur, TableRun(routes, nodes, next.value, mirrored, k + 1, n - 1));
      }
    }
  }

  /** Whole runs follow the table: whatever the engine does from any memory, it visits the table's nodes. */
  lemma RunsFollowTable(routes: seq<Route>, nodes: seq<string>, routed: set<string>, cur: string,
                        mirrored: nat -> map<string, string>, k: nat, n: nat, facts: set<Fact>, visited: seq<string>)
    requires Accepts(routes, nodes, routed) && Followable(routes)
    requires forall i: nat :: mirrored(i).Keys == routed
    ensures Loaded(routes).Some?
    ensures EngineRun(Loaded(routes).value, nodes, cur, mirrored, k, n, facts, visited) <==>
              visited == TableRun(routes, nodes, cur, mirrored, k, n)
  {
    AcceptedTable(routes, nodes, routed);
    var rules := Loaded(routes).value;
    forall at, i: nat, memory, d: Option<Move>
      ensures Fires(rules, Remember(memory, at, mirrored(i)), d) <==>
                d == TableAction(routes, at, VerdictIn(mirrored(i)))
    {
      TickDecides(routes, nodes, routed, at, mirrored(i), memory, d);
    }
    ObedientRuns(rules, routes, nodes, cur, mirrored, k, n, facts, visited);
  }

  lemma SameSplit(s: seq<string>, x: string, t: seq<string>)
    ensures s == [x] + t <==> s != [] && s[0] == x && s[1..] == t
  {
    if s != [] && s[0] == x && s[1..] == t { assert s == [s[0]] + s[1..]; }
  }

  /** Declared after the first `cur`. */
  ghost predicate DeclaredNext(nodes: seq<string>, cur: string, next: string) {
    exists j :: 0 <= j < |nodes| - 1 && nodes[j] == cur && nodes[j + 1] == next && cur !in nodes[..j]
  }

  lemma {:induction false} NextNodeExactly(nodes: seq<string>, cur: string, next: string)
    ensures NextNode(nodes, cur) == Some(next) <==> DeclaredNext(nodes, cur, next)
  {
    if |nodes| >= 2 {
      if nodes[0] == cur {
        assert cur !in nodes[..0];
        if DeclaredNext(nodes, cur, next) {
          forall j | 0 < j < |nodes| ensures cur in nodes[..j] { assert nodes[..j][0] == nodes[0]; }
          var j :| 0 <= j < |nodes| - 1 && nodes[j] == cur && nodes[j + 1] == next && cur !in nodes[..j];
        }
      } else {
        var rest := nodes[1..];
        NextNodeExactly(rest, cur, next);
        if DeclaredNext(rest, cur, next) {
          var j :| 0 <= j < |rest| - 1 && rest[j] == cur && rest[j + 1] == next && cur !in rest[..j];
          assert nodes[..j + 1] == [nodes[0]] + rest[..j];
          assert nodes[j + 1] == rest[j] && nodes[j + 2] == rest[j + 1];
        }
        if DeclaredNext(nodes, cur, next) {
          var j :| 0 <= j < |nodes| - 1 && nodes[j] == cur && nodes[j + 1] == next && cur !in nodes[..j];
          assert nodes[..j] == [nodes[0]] + rest[..j - 1];
          assert rest[j - 1] == cur && rest[j] == next;
        }
      }
    }
  }

  /** A run may go from `a` to `b`: the table says so, or says nothing and `b` is declared after `a`. */
  ghost predicate MayGo(routes: seq<Route>, nodes: seq<string>, fields: map<string, string>, a: string, b: string) {
    match TableAction(routes, a, VerdictIn(fields))
    case Some(Goto(target)) => target == b
    case Some(Halt(_)) => false
    case None => DeclaredNext(nodes, a, b)
  }

  ghost predicate Stuck(routes: seq<Route>, nodes: seq<string>, fields: map<string, string>, a: string) {
    forall b :: !MayGo(routes, nodes, fields, a, b)
  }

  lemma AfterExactly(routes: seq<Route>, nodes: seq<string>, fields: map<string, string>, a: string, b: string)
    ensures After(nodes, a, TableAction(routes, a, VerdictIn(fields))) == Some(b)
       <==> MayGo(routes, nodes, fields, a, b)
  {
    NextNodeExactly(nodes, a, b);
  }

  /** What a run by the table is: it starts at its node, goes only where it may, and stops early only where it must. */
  lemma {:induction false} RunIsWalk(routes: seq<Route>, nodes: seq<string>, cur: string,
                                     mirrored: nat -> map<string, string>, k: nat, n: nat)
    ensures var v := TableRun(routes, nodes, cur, mirrored, k, n);
            && |v| <= n && (n > 0 ==> v != [] && v[0] == cur)
            && (forall i :: 0 <= i < |v| - 1 ==> MayGo(routes, nodes, mirrored(k + i), v[i], v[i + 1]))
            && (0 < |v| < n ==> Stuck(routes, nodes, mirrored(k + |v| - 1), v[|v| - 1]))
    decreases n
  {
    if n > 0 {
      var fields := mirrored(k);
      forall b
        ensures After(nodes, cur, TableAction(routes, cur, VerdictIn(fields))) == Some(b) <==>
                  MayGo(routes, nodes, fields, cur, b)
      {
        AfterExactly(routes, nodes, fields, cur, b);
      }
      var next := After(nodes, cur, TableAction(routes, cur, VerdictIn(fields)));
      if next.Some? {
        RunIsWalk(routes, nodes, next.value, mirrored, k + 1, n - 1);
        var v, rest := TableRun(routes, nodes, cur, mirrored, k, n),
                       TableRun(routes, nodes, next.value, mirrored, k + 1, n - 1);
        forall i | 0 <= i < |v| - 1 ensures MayGo(routes, nodes, mirrored(k + i), v[i], v[i + 1]) {
          if i > 0 { assert v[i] == rest[i - 1] && v[i + 1] == rest[i] && k + i == k + 1 + (i - 1); }
        }
      }
    }
  }
}
