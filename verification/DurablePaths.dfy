/**
 * What a durable pipeline runs, said of the declared nodes and edges alone: a path through
 * the graph is what a process executes, in one piece or suspended on the way.
 */
module DurablePaths {
  import opened Wrappers
  import opened Actions
  import opened Checkpoints
  import opened DurableGraphs

  /** The edge out of `name` leads to `next`, on the state the node finds. */
  predicate LeadsTo<U>(g: Graph<U>, name: string, u: U, next: string) {
    && name in g.edges && next != "__end__"
    && match g.edges[name] case To(t) => t == next case Router(pick) => pick(u) == next
  }

  /** There is no edge, or it leads to the end. */
  predicate LeadsNowhere<U>(g: Graph<U>, name: string, u: U) {
    name in g.edges ==> match g.edges[name] case To(t) => t == "__end__" case Router(pick) => pick(u) == "__end__"
  }

  /** Where a node's tick leaves the run: its patch applied, and the route the declared edge names. */
  lemma TickFollowsEdge<U>(g: Graph<U>, name: string, st: Facade<U>, next: string)
    requires name in g.nodes
    requires LeadsTo(g, name, st.user, next) || (LeadsNowhere(g, name, st.user) && next == "sg_halt")
    ensures NodeTick(g, name, st) ==
            if st.suspendAfter == name && !st.suspended
            then Facade(g.nodes[name](st.user), "sg_suspend_halt", true, next, st.suspendAfter)
            else Facade(g.nodes[name](st.user), next, st.suspended, st.resumeRoute, st.suspendAfter)
  {
  }

  /** Each node leaves the state the next one finds, and its edge leads to it. */
  ghost predicate Journey<U>(g: Graph<U>, names: seq<string>, users: seq<U>) {
    && |users| == |names| + 1
    && (forall i :: 0 <= i < |names| ==> Runnable(g, names[i]) && users[i + 1] == g.nodes[names[i]](users[i]))
    && forall i, j :: 0 <= i && j == i + 1 < |names| ==> LeadsTo(g, names[i], users[i], names[j])
  }

  /** A node of the graph, under none of the reserved names. */
  predicate Runnable<U>(g: Graph<U>, name: string) {
    name in g.nodes && name !in g.interrupts && name !in {"", "sg-entry", "sg_halt", "sg_suspend_halt"}
  }

  /** How a process ends behind node `name`. */
  predicate EndsBehind<U>(g: Graph<U>, name: string, u: U, o: Outcome) {
    match o
    case Done => LeadsNowhere(g, name, u)
    case Parked(at) => LeadsTo(g, name, u, at) && at in g.interrupts && at !in {"sg_halt", "sg_suspend_halt"}
    case UnknownNode(at) =>
      LeadsTo(g, name, u, at) && at !in g.nodes && at !in g.interrupts &&
          at !in {"sg-entry", "sg_halt", "sg_suspend_halt"}
    case _ => false
  }

  function Executions<U>(names: seq<string>, users: seq<U>): (r: seq<Exec<U>>)
    requires |names| <= |users|
  {
    seq(|names|, i requires 0 <= i < |names| => Exec(names[i], users[i]))
  }

  lemma TailJourney<U>(g: Graph<U>, names: seq<string>, users: seq<U>)
    requires Journey(g, names, users) && names != []
    ensures Journey(g, names[1..], users[1..])
    ensures Executions(names, users) == [Exec(names[0], users[0])] + Executions(names[1..], users[1..])
  {
  }

  /** `names` is what a process standing at its first node has still to run. */
  ghost predicate Ahead<U>(g: Graph<U>, st: Facade<U>, names: seq<string>, users: seq<U>) {
    Journey(g, names, users) && names != [] && st.route == names[0] && st.user == users[0]
  }

  lemma StepAhead<U>(g: Graph<U>, st: Facade<U>, names: seq<string>, users: seq<U>)
    requires Ahead(g, st, names, users) && (st.suspendAfter != names[0] || st.suspended) && |names| > 1
    ensures var after := NodeTick(g, names[0], st);
            && Decision(after.route) == Goto(names[1]) && after.route == names[1]
            && after.suspendAfter == st.suspendAfter && after.suspended == st.suspended
            && Ahead(g, after, names[1..], users[1..])
  {
    assert LeadsTo(g, names[0], users[0], names[1]);
    TickFollowsEdge(g, names[0], st, names[1]);
    TailJourney(g, names, users);
  }

  lemma LastStep<U>(g: Graph<U>, st: Facade<U>, names: seq<string>, users: seq<U>, o: Outcome, budget: nat)
    requires Ahead(g, st, names, users) && |names| == 1 && (st.suspendAfter != names[0] || st.suspended)
    requires EndsBehind(g, names[0], users[0], o) && budget > 0
    ensures var t := Drive(g, st, names[0], budget);
            && t.execs == Executions(names, users) && t.outcome == o
            && t.last.user == users[1] && t.writes == [t.last]
  {
    var name := names[0];
    var next := match o case Done => "sg_halt" case Parked(at) => at case UnknownNode(at) => at;
    TickFollowsEdge(g, name, st, next);
    var after := NodeTick(g, name, st);
    if o.Done? {
      DriveStops(g, st, name, budget);
    } else {
      DriveGoes(g, st, name, budget);
      DriveStops(g, after, next, budget - 1);
    }
    assert Executions(names, users) == [Exec(name, st.user)] + [];
  }

  /** The trace of a process that has these nodes ahead: all of them, or as many as it has ticks for. */
  ghost predicate RunsAhead<U>(t: Trace<U>, names: seq<string>, users: seq<U>, o: Outcome, budget: nat)
    requires |users| == |names| + 1
  {
    && |t.writes| == (if budget < |names| then budget else |names|)
    && (forall i :: 0 <= i < |t.writes| ==> t.writes[i].user == users[i + 1])
    && (if budget < |names|
        then t.execs == Executions(names, users)[..budget] && t.outcome == Crashed && t.last.user == users[budget]
        else t.execs == Executions(names, users) && t.outcome == o && t.last.user == users[|names|])
  }

  lemma MoreAhead<U>(first: Facade<U>, t: Trace<U>, rest: Trace<U>, names: seq<string>, users: seq<U>, o: Outcome,
                     budget: nat)
    requires |users| == |names| + 1 && |names| > 1 && budget > 0
    requires RunsAhead(rest, names[1..], users[1..], o, budget - 1) && first.user == users[1]
    requires t.execs == [Exec(names[0], users[0])] + rest.execs && t.writes == [first] + rest.writes
    requires t.last == rest.last && t.outcome == rest.outcome
    ensures RunsAhead(t, names, users, o, budget)
  {
    var all, tail := Executions(names, users), Executions(names[1..], users[1..]);
    assert all == [Exec(names[0], users[0])] + tail;
    forall i | 0 <= i < |t.writes| ensures t.writes[i].user == users[i + 1] {
      if i > 0 { assert t.writes[i] == rest.writes[i - 1] && users[1..][i] == users[i + 1]; }
    }
    if budget < |names| { assert all[..budget] == [Exec(names[0], users[0])] + tail[..budget - 1]; }
  }

  /** Without a pending suspend request a process runs the journey, to its end or to its own death. */
  lemma {:induction false} JourneyRuns<U>(g: Graph<U>, st: Facade<U>, names: seq<string>, users: seq<U>, o: Outcome,
                                          budget: nat)
    requires Ahead(g, st, names, users) && (st.suspendAfter !in names || st.suspended)
    requires EndsBehind(g, names[|names| - 1], users[|names| - 1], o)
    ensures RunsAhead(Drive(g, st, names[0], budget), names, users, o, budget)
    decreases |names|
  {
    if budget == 0 {
      DriveStops(g, st, names[0], 0);
    } else if |names| == 1 {
      LastStep(g, st, names, users, o, budget);
    } else {
      StepAhead(g, st, names, users);
      var after := NodeTick(g, names[0], st);
      assert names[1..][|names| - 2] == names[|names| - 1] && users[1..][|names| - 2] == users[|names| - 1];
      assert st.suspendAfter !in names ==> after.suspendAfter !in names[1..];
      JourneyRuns(g, after, names[1..], users[1..], o, budget - 1);
      DriveGoes(g, st, names[0], budget);
      TickFollowsEdge(g, names[0], st, names[1]);
      MoreAhead(after, Drive(g, st, names[0], budget), Drive(g, after, names[1], budget - 1), names, users, o, budget);
    }
  }

  lemma EntersFresh<U>(g: Graph<U>, st: Facade<U>, budget: nat)
    requires st.route !in {"sg_halt", "sg_suspend_halt"} && "sg-entry" !in g.interrupts
    ensures var t := Drive(g, st, "sg-entry", budget + 1);
            var rest := Drive(g, st, st.route, budget);
            t.execs == rest.execs && t.writes == [st] + rest.writes && t.last == rest.last && t.outcome == rest.outcome
  {
    DriveGoes(g, st, "sg-entry", budget + 1);
  }

  /**
   * A fresh process runs exactly the path its nodes and edges declare, node by node, each on the
   * state the one before left, and ends as the last edge says.
   */
  lemma FreshRunIsJourney<U>(g: Graph<U>, names: seq<string>, users: seq<U>, o: Outcome, budget: nat)
    requires Journey(g, names, users) && names != [] && names[0] == g.entry && "sg-entry" !in g.interrupts
    requires EndsBehind(g, names[|names| - 1], users[|names| - 1], o)
    ensures var t := Drive(g, Fresh(g, users[0], None), "sg-entry", budget + 1);
            if budget < |names|
            then t.execs == Executions(names, users)[..budget] && t.outcome == Crashed && t.last.user == users[budget]
            else t.execs == Executions(names, users) && t.outcome == o && t.last.user == users[|names|]
    ensures var t := Drive(g, Fresh(g, users[0], None), "sg-entry", budget + 1);
            |t.writes| == 1 + (if budget < |names| then budget else |names|) &&
              forall i :: 0 <= i < |t.writes| ==> t.writes[i].user == users[i]
  {
    var st := Fresh(g, users[0], None);
    assert Runnable(g, names[0]);
    assert "" !in names by {
      forall i | 0 <= i < |names| ensures names[i] != "" { assert Runnable(g, names[i]); }
    }
    EntersFresh(g, st, budget);
    JourneyRuns(g, st, names, users, o, budget);
  }

  // ------------------------------------------------------------ suspended midway

  lemma SuspendsNow<U>(g: Graph<U>, st: Facade<U>, names: seq<string>, users: seq<U>, budget: nat)
    requires Ahead(g, st, names, users) && |names| > 1 && st.suspendAfter == names[0] && !st.suspended && budget > 0
    ensures var t := Drive(g, st, names[0], budget);
            && t.outcome == Suspended && t.execs == [Exec(names[0], users[0])]
            && t.last == Facade(users[1], "sg_suspend_halt", true, names[1], names[0])
  {
    assert LeadsTo(g, names[0], users[0], names[1]);
    TickFollowsEdge(g, names[0], st, names[1]);
    DriveStops(g, st, names[0], budget);
  }

  /** With a request for node `k` pending, the journey is cut behind it and the next node is kept. */
  lemma {:induction false} JourneySuspends<U>(g: Graph<U>, st: Facade<U>, names: seq<string>, users: seq<U>, k: nat,
                                              budget: nat)
    requires Ahead(g, st, names, users) && k + 1 < |names| && k < budget
    requires st.suspendAfter == names[k] && !st.suspended && names[k] !in names[..k]
    ensures var t := Drive(g, st, names[0], budget);
            && t.outcome == Suspended && t.execs == Executions(names, users)[..k + 1]
            && t.last == Facade(users[k + 1], "sg_suspend_halt", true, names[k + 1], names[k])
    decreases k
  {
    TailJourney(g, names, users);
    if k == 0 {
      SuspendsNow(g, st, names, users, budget);
    } else {
      assert names[0] in names[..k];
      StepAhead(g, st, names, users);
      var after := NodeTick(g, names[0], st);
      assert names[1..][..k - 1] == names[..k][1..];
      JourneySuspends(g, after, names[1..], users[1..], k - 1, budget - 1);
      DriveGoes(g, st, names[0], budget);
      var all, tail := Executions(names, users), Executions(names[1..], users[1..]);
      assert all[..k + 1] == [Exec(names[0], users[0])] + tail[..k];
    }
  }

  /** The journey from its `k`th node on. */
  lemma LaterJourney<U>(g: Graph<U>, names: seq<string>, users: seq<U>, k: nat)
    requires Journey(g, names, users) && k <= |names|
    ensures Journey(g, names[k..], users[k..])
    ensures Executions(names, users)[k..] == Executions(names[k..], users[k..])
  {
  }

  lemma EntersSuspended<U>(g: Graph<U>, st: Facade<U>, budget: nat)
    requires st.route == "sg_suspend_halt" && st.resumeRoute !in {"sg_halt", "sg_suspend_halt"}
    requires "sg-entry" !in g.interrupts
    ensures var t := Drive(g, st, "sg-entry", budget + 1);
            var rest := Drive(g, st.(route := st.resumeRoute), st.resumeRoute, budget);
            t.execs == rest.execs && t.last == rest.last && t.outcome == rest.outcome
  {
    DriveGoes(g, st, "sg-entry", budget + 1);
  }

  /**
   * Asked to suspend behind node `k`, a fresh process runs the path that far; a plain resume of what
   * it stored runs the rest, whatever it is asked now, and ends as the uninterrupted run does.
   */
  lemma SuspendedRunIsJourney<U>(g: Graph<U>, names: seq<string>, users: seq<U>, o: Outcome, k: nat, budget: nat,
                                 cp: Checkpoint<Facade<U>>, again: Option<string>, later: nat)
    requires Journey(g, names, users) && k + 1 < |names| && names[0] == g.entry && "sg-entry" !in g.interrupts
    requires EndsBehind(g, names[|names| - 1], users[|names| - 1], o) && names[k] !in names[..k]
    requires k < budget && |names| - k - 1 <= later
    requires cp.state == Drive(g, Fresh(g, users[0], Some(names[k])), "sg-entry", budget + 1).last
    ensures var t := Drive(g, Fresh(g, users[0], Some(names[k])), "sg-entry", budget + 1);
            t.outcome == Suspended && t.execs == Executions(names, users)[..k + 1]
    ensures var st := InitialState(g, Resume(None, x => x), Some(cp), again);
            && st.Some?
            && var t := Drive(g, st.value, "sg-entry", later + 1);
               t.execs == Executions(names, users)[k + 1..] && t.outcome == o && t.last.user == users[|names|]
  {
    var st := Fresh(g, users[0], Some(names[k]));
    assert Runnable(g, names[0]) && Runnable(g, names[k + 1]);
    EntersFresh(g, st, budget);
    JourneySuspends(g, st, names, users, k, budget);
    var resumed := InitialState(g, Resume(None, x => x), Some(cp), again).value;
    EntersSuspended(g, resumed, later);
    LaterJourney(g, names, users, k + 1);
    var ns, us := names[k + 1..], users[k + 1..];
    assert ns[|ns| - 1] == names[|names| - 1] && us[|ns| - 1] == users[|names| - 1] && us[|ns|] == users[|names|];
    JourneyRuns(g, resumed.(route := resumed.resumeRoute), ns, us, o, later);
  }

  /** Resuming elsewhere with an answer: the first node run is the one named, on the patched state. */
  lemma ResumeEntersAt<U>(g: Graph<U>, cp: Checkpoint<Facade<U>>, node: string, patch: U -> U, again: Option<string>,
                          budget: nat)
    requires Runnable(g, node) && "sg-entry" !in g.interrupts
    ensures var st := InitialState(g, Resume(Some(node), patch), Some(cp), again);
            && st.Some? && st.value.suspended == cp.state.suspended
            && st.value.suspendAfter == (if again.Some? then again.value else cp.state.suspendAfter)
            && var t := Drive(g, st.value, "sg-entry", budget + 2);
               t.execs != [] && t.execs[0] == Exec(node, patch(cp.state.user))
    ensures InitialState(g, Resume(Some(node), patch), None, again).None?
  {
    var st := InitialState(g, Resume(Some(node), patch), Some(cp), again).value;
    EntersFresh(g, st, budget + 1);
    DriveStops(g, st, node, budget + 1);
    if Decision(NodeTick(g, node, st).route).Goto? { DriveGoes(g, st, node, budget + 1); }
  }

  // ------------------------------------------------------- launch after launch

  method WriteForeign<U>(store: SQLiteTable<Facade<U>>, foreign: seq<Checkpoint<Facade<U>>>)
    requires store.Valid()
    modifies store
    ensures store.Valid() && store.log == old(store.log) + foreign
  {
    for i := 0 to |foreign|
      invariant store.Valid() && store.log == old(store.log) + foreign[..i]
    {
      store.Write(foreign[i]);
      assert foreign[..i + 1] == foreign[..i] + [foreign[i]];
    }
    assert foreign[..|foreign|] == foreign;
  }

  /** One `run` call after another in a shared table: its log and results are those of the session. */
  method Launches<U>(d: DurableGraph<U>, store: SQLiteTable<Facade<U>>, runId: string, u: U, first: Launch<U>,
                     resumes: seq<Launch<U>>, clock: nat -> int)
    returns (outcomes: seq<Outcome>)
    requires store.Valid() && store.log == []
    modifies store
    ensures store.Valid()
    ensures var s := Session(d.g, runId, u, first, resumes, clock); store.log == s.log && outcomes == s.outcomes
  {
    WriteForeign(store, first.foreign);
    assert [] + first.foreign == first.foreign;
    var r := d.Run(store, runId, FreshStart(u), first.suspendAfter, first.budget, clock);
    outcomes := [r.outcome];
    for i := 0 to |resumes|
      invariant store.Valid()
      invariant var s := Session(d.g, runId, u, first, resumes[..i], clock);
                store.log == s.log && outcomes == s.outcomes
    {
      assert resumes[..i + 1][..i] == resumes[..i];
      WriteForeign(store, resumes[i].foreign);
      r := d.Run(store, runId, Resume(None, x => x), resumes[i].suspendAfter, resumes[i].budget, clock);
      outcomes := outcomes + [if r.CheckpointError? then NoCheckpoint else r.outcome];
    }
    assert resumes[..|resumes|] == resumes;
  }
}
