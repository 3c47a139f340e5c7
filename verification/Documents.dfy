/** What a graph checks of a document's nodes and rules before anything is built from it. */
module Documents {
  import opened Wrappers
  import opened RuleText
  import opened Defrules
  import StableIds

  datatype Complaint =
    | BadNodeId(node: nat)
    | BadRuleId(rule: nat)
    | BadWhen(rule: nat)
    | UnknownNode(rule: nat)
    | RepeatedNode(node: nat, prior: nat)
    | RepeatedRule(rule: nat, prior: nat)

  /** A mapping must print, and its node must be one of the document. Raw text is left to the engine. */
  predicate WhenFits(when: When, nodes: seq<string>) {
    when.Sugar? ==> PrintWhen(when).Ok? && (WhenNodeRef(when).Some? ==> WhenNodeRef(when).value in nodes)
  }

  ghost predicate NoRepeats(ids: seq<string>) { forall i, j :: 0 <= i < j < |ids| ==> ids[i] != ids[j] }

  function RuleIds(rules: seq<Rule>): seq<string> { seq(|rules|, i requires 0 <= i < |rules| => rules[i].id) }

  /** The documents a graph can be built from. */
  ghost predicate Valid(nodes: seq<string>, rules: seq<Rule>) {
    && (forall n <- nodes :: StableIds.Accepted(n)) && (forall r <- rules :: StableIds.Accepted(r.id))
    && (forall r <- rules :: WhenFits(r.when, nodes))
    && NoRepeats(nodes) && NoRepeats(RuleIds(rules))
  }

  /** `prior` is the first place of the id at `i`, and before it. */
  ghost predicate FirstPlace(ids: seq<string>, prior: nat, i: nat) {
    prior < i < |ids| && ids[prior] == ids[i] && forall k :: 0 <= k < prior ==> ids[k] != ids[i]
  }

  /** The complaint is about something that is wrong. */
  ghost predicate Justified(nodes: seq<string>, rules: seq<Rule>, c: Complaint) {
    match c
    case BadNodeId(i) => i < |nodes| && !StableIds.Accepted(nodes[i])
    case BadRuleId(i) => i < |rules| && !StableIds.Accepted(rules[i].id)
    case BadWhen(i) => i < |rules| && Unprintable(rules[i].when)
    case UnknownNode(i) => i < |rules| && Misdirected(rules[i].when, nodes)
    case RepeatedNode(i, prior) => FirstPlace(nodes, prior, i)
    case RepeatedRule(i, prior) => FirstPlace(RuleIds(rules), prior, i)
  }

  predicate Unprintable(when: When) { when.Sugar? && PrintWhen(when).Err? }

  predicate Misdirected(when: When, nodes: seq<string>) {
    when.Sugar? && PrintWhen(when).Ok? && WhenNodeRef(when).Some? && WhenNodeRef(when).value !in nodes
  }

  /** Complaints of a later stage are made only when the earlier ones find nothing. */
  function Stage(c: Complaint): nat {
    match c
    case BadNodeId(_) => 1
    case BadRuleId(_) => 1
    case BadWhen(_) => 2
    case UnknownNode(_) => 2
    case RepeatedNode(_, _) => 3
    case RepeatedRule(_, _) => 3
  }

  // ------------------------------------------------------------------ the stages

  method CheckIds(nodes: seq<string>, rules: seq<Rule>) returns (errors: seq<Complaint>)
    ensures forall e :: e in errors <==> Stage(e) == 1 && Justified(nodes, rules, e)
  {
    errors := [];
    for i := 0 to |nodes|
      invariant forall e :: e in errors <==> e.BadNodeId? && e.node < i && Justified(nodes, rules, e)
    {
      if !StableIds.Accepted(nodes[i]) { errors := errors + [BadNodeId(i)]; }
    }
    for i := 0 to |rules|
      invariant forall e :: e in errors <==>
                  (e.BadNodeId? || (e.BadRuleId? && e.rule < i)) && Justified(nodes, rules, e)
    {
      if !StableIds.Accepted(rules[i].id) { errors := errors + [BadRuleId(i)]; }
    }
  }

  method CheckWhens(nodes: seq<string>, rules: seq<Rule>) returns (errors: seq<Complaint>)
    ensures forall e :: e in errors <==> Stage(e) == 2 && Justified(nodes, rules, e)
  {
    errors := [];
    for i := 0 to |rules|
      invariant forall e :: e in errors <==> Stage(e) == 2 && e.rule < i && Justified(nodes, rules, e)
    {
      var when := rules[i].when;
      if when.Raw? { continue; }
      var text := CompileWhen(when);
      if text.Err? {
        errors := errors + [BadWhen(i)];
        continue;
      }
      var ref := WhenNodeRef(when);
      if ref.Some? && ref.value !in nodes { errors := errors + [UnknownNode(i)]; }
    }
  }

  /** One namespace: the positions of repeated ids, each with the first position of its id. */
  method FindRepeats(ids: seq<string>) returns (repeats: seq<(nat, nat)>)
    ensures forall i: nat, prior: nat :: (i, prior) in repeats <==> FirstPlace(ids, prior, i)
  {
    repeats := [];
    var seen: map<string, nat> := map[];
    for i := 0 to |ids|
      invariant forall s :: s in seen <==> exists k :: 0 <= k < i && ids[k] == s
      invariant forall s <- seen :: seen[s] < i && ids[seen[s]] == s && forall k :: 0 <= k < seen[s] ==> ids[k] != s
      invariant forall n: nat, prior: nat :: (n, prior) in repeats <==> n < i && FirstPlace(ids, prior, n)
    {
      var value := ids[i];
      if value in seen {
        OneFirstPlace(ids, seen[value], i);
        repeats := repeats + [(i, seen[value])];
      } else {
        seen := seen[value := i];
      }
    }
  }

  lemma OneFirstPlace(ids: seq<string>, prior: nat, i: nat)
    requires FirstPlace(ids, prior, i)
    ensures forall k: nat :: FirstPlace(ids, k, i) <==> k == prior
  {
    forall k: nat | FirstPlace(ids, k, i) ensures k == prior {
      assert k < |ids| && ids[k] == ids[prior];
    }
  }

  method CheckRepeats(nodes: seq<string>, rules: seq<Rule>) returns (errors: seq<Complaint>)
    ensures forall e :: e in errors <==> Stage(e) == 3 && Justified(nodes, rules, e)
  {
    var ns := FindRepeats(nodes);
    var rs := FindRepeats(RuleIds(rules));
    errors := [];
    for i := 0 to |ns|
      invariant forall e :: e in errors <==> e.RepeatedNode? && (e.node, e.prior) in ns[..i]
    {
      errors := errors + [RepeatedNode(ns[i].0, ns[i].1)];
      assert ns[..i + 1] == ns[..i] + [ns[i]];
    }
    assert ns[..|ns|] == ns;
    for i := 0 to |rs|
      invariant forall e :: e in errors <==>
                  || (e.RepeatedNode? && (e.node, e.prior) in ns)
                  || (e.RepeatedRule? && (e.rule, e.prior) in rs[..i])
    {
      errors := errors + [RepeatedRule(rs[i].0, rs[i].1)];
      assert rs[..i + 1] == rs[..i] + [rs[i]];
    }
    assert rs[..|rs|] == rs;
  }

  lemma FirstStageExactly(nodes: seq<string>, rules: seq<Rule>)
    ensures (exists e :: Stage(e) == 1 && Justified(nodes, rules, e)) <==>
              (exists n <- nodes :: !StableIds.Accepted(n)) || (exists r <- rules :: !StableIds.Accepted(r.id))
  {
    if n :| n in nodes && !StableIds.Accepted(n) {
      var i: nat :| i < |nodes| && nodes[i] == n;
      assert Stage(BadNodeId(i)) == 1 && Justified(nodes, rules, BadNodeId(i));
    }
    if r :| r in rules && !StableIds.Accepted(r.id) {
      var i: nat :| i < |rules| && rules[i] == r;
      assert Stage(BadRuleId(i)) == 1 && Justified(nodes, rules, BadRuleId(i));
    }
  }

  lemma SecondStageExactly(nodes: seq<string>, rules: seq<Rule>)
    ensures (exists e :: Stage(e) == 2 && Justified(nodes, rules, e)) <==>
              exists r <- rules :: !WhenFits(r.when, nodes)
  {
    hide WhenFits;
    if r :| r in rules && !WhenFits(r.when, nodes) {
      var i: nat :| i < |rules| && rules[i] == r;
      WhensExactly(nodes, rules, i);
      assert Stage(BadWhen(i)) == 2 && Stage(UnknownNode(i)) == 2;
    }
    if e :| Stage(e) == 2 && Justified(nodes, rules, e) {
      var i := e.rule;
      WhensExactly(nodes, rules, i);
      assert rules[i] in rules;
    }
  }

  /** The stages in order: the first that finds something reports all it finds, and nothing else is reported. */
  method Validate(nodes: seq<string>, rules: seq<Rule>) returns (errors: seq<Complaint>)
    ensures errors == [] <==> Valid(nodes, rules)
    ensures forall e :: e in errors <==>
              Justified(nodes, rules, e) && forall d :: Justified(nodes, rules, d) ==> Stage(e) <= Stage(d)
    ensures (exists n <- nodes :: !StableIds.Accepted(n)) || (exists r <- rules :: !StableIds.Accepted(r.id)) ==>
              errors != [] && forall e <- errors :: e.BadNodeId? || e.BadRuleId?
    ensures (forall n <- nodes :: StableIds.Accepted(n)) && (forall r <- rules :: StableIds.Accepted(r.id)) ==>
              if exists r <- rules :: !WhenFits(r.when, nodes)
              then errors != [] && forall e <- errors :: e.BadWhen? || e.UnknownNode?
              else forall e <- errors :: e.RepeatedNode? || e.RepeatedRule?
  {
    ValidExactly(nodes, rules);
    FirstStageExactly(nodes, rules);
    SecondStageExactly(nodes, rules);
    errors := CheckIds(nodes, rules);
    if errors != [] {
      assert errors[0] in errors;
      return;
    }
    errors := CheckWhens(nodes, rules);
    if errors != [] {
      assert errors[0] in errors;
      return;
    }
    errors := CheckRepeats(nodes, rules);
    if errors != [] { assert errors[0] in errors; }
  }

  // ------------------------------------------------------- accepted means no fault

  lemma {:induction false} FirstPlaceBefore(ids: seq<string>, k: nat, i: nat) returns (prior: nat)
    requires k < i < |ids| && ids[k] == ids[i]
    ensures FirstPlace(ids, prior, i)
    decreases k
  {
    if j: nat :| j < k && ids[j] == ids[i] {
      prior := FirstPlaceBefore(ids, j, i);
    } else {
      prior := k;
    }
  }

  lemma RepeatsExactly(ids: seq<string>)
    ensures NoRepeats(ids) <==> forall i: nat, prior: nat :: !FirstPlace(ids, prior, i)
  {
    if k, i :| 0 <= k < i < |ids| && ids[k] == ids[i] {
      var prior := FirstPlaceBefore(ids, k, i);
    }
  }

  lemma WhensExactly(nodes: seq<string>, rules: seq<Rule>, i: nat)
    requires i < |rules|
    ensures WhenFits(rules[i].when, nodes)
       <==> !Justified(nodes, rules, BadWhen(i)) && !Justified(nodes, rules, UnknownNode(i))
  {
  }

  lemma NothingWrong(nodes: seq<string>, rules: seq<Rule>, c: Complaint)
    requires Valid(nodes, rules)
    ensures !Justified(nodes, rules, c)
  {
    RepeatsExactly(nodes);
    RepeatsExactly(RuleIds(rules));
    match c
    case BadWhen(i) => if i < |rules| { WhensExactly(nodes, rules, i); }
    case UnknownNode(i) => if i < |rules| { WhensExactly(nodes, rules, i); }
    case _ =>
  }

  lemma NamedAndFitting(nodes: seq<string>, rules: seq<Rule>)
    requires forall c :: !Justified(nodes, rules, c)
    ensures (forall n <- nodes :: StableIds.Accepted(n))
    ensures forall r <- rules :: StableIds.Accepted(r.id) && WhenFits(r.when, nodes)
  {
    forall n <- nodes ensures StableIds.Accepted(n) {
      var i: nat :| i < |nodes| && nodes[i] == n;
      assert !Justified(nodes, rules, BadNodeId(i));
    }
    forall r <- rules ensures StableIds.Accepted(r.id) && WhenFits(r.when, nodes) {
      var i: nat :| i < |rules| && rules[i] == r;
      assert !Justified(nodes, rules, BadRuleId(i));
      WhensExactly(nodes, rules, i);
    }
  }

  lemma NotRepeated(nodes: seq<string>, rules: seq<Rule>)
    requires forall c :: !Justified(nodes, rules, c)
    ensures NoRepeats(nodes) && NoRepeats(RuleIds(rules))
  {
    RepeatsExactly(nodes);
    RepeatsExactly(RuleIds(rules));
    forall i: nat, prior: nat ensures !FirstPlace(nodes, prior, i) && !FirstPlace(RuleIds(rules), prior, i) {
      assert !Justified(nodes, rules, RepeatedNode(i, prior)) && !Justified(nodes, rules, RepeatedRule(i, prior));
    }
  }

  /** A document is accepted exactly if there is nothing to complain about. */
  lemma ValidExactly(nodes: seq<string>, rules: seq<Rule>)
    ensures Valid(nodes, rules) <==> forall c :: !Justified(nodes, rules, c)
  {
    if Valid(nodes, rules) {
      forall c ensures !Justified(nodes, rules, c) { NothingWrong(nodes, rules, c); }
    }
    if forall c :: !Justified(nodes, rules, c) {
      NamedAndFitting(nodes, rules);
      NotRepeated(nodes, rules);
    }
  }
}
