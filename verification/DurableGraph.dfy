/**
 * Durable, resumable pipelines: the entry node, the user-node wrapper with its
 * suspend cursor, the engine's tick loop, and processes that stop at any
 * checkpoint and are launched again.
 */
module DurableGraphs {
  import opened Wrappers
  import opened Actions
  import opened Checkpoints

  const END := "__end__"
  const HALT := "sg_halt"
  const SUSPEND_HALT := "sg_suspend_halt"
  const ENTRY_ID := "sg-entry"

  datatype Edge<!U> = To(target: string) | Router(pick: U -> string)

  /** A node maps the user state to the user state with the node's patch applied. */
  datatype Graph<!U> = Graph(
    nodes: map<string, U -> U>,
    edges: map<string, Edge<U>>,
    entry: string,
    interrupts: set<string>)

  /** The user's state with the reserved routing fields. */
  datatype Facade<+U> = Facade(user: U, route: string, suspended: bool, resumeRoute: string, suspendAfter: string)

  datatype Patch<+U> = Patch(user: Option<U>, route: Option<string>, suspended: Option<bool>,
           resumeRoute: Option<string>)

  function Apply<U>(st: Facade<U>, p: Patch<U>): Facade<U> {
    Facade(if p.user.Some? then p.user.value else st.user,
           if p.route.Some? then p.route.value else st.route,
           if p.suspended.Some? then p.suspended.value else st.suspended,
           if p.resumeRoute.Some? then p.resumeRoute.value else st.resumeRoute,
           st.suspendAfter)
  }

  function ResolveEdge<U>(g: Graph<U>, name: string, u: U): string {
    var target :=
      if name !in g.edges then END
      else match g.edges[name] case To(t) => t case Router(pick) => pick(u);
    if target == END then HALT else target
  }

  /** One execution of user node `name`: the edge is resolved on the state before the patch. */
  function NodeTick<U>(g: Graph<U>, name: string, st: Facade<U>): Facade<U>
    requires name in g.nodes
  {
    var next := ResolveEdge(g, name, st.user);
    var patched := st.(user := g.nodes[name](st.user));
    if st.suspendAfter == name && !st.suspended
    then patched.(suspended := true, resumeRoute := next, route := SUSPEND_HALT)
    else patched.(route := next)
  }

  function EntryTick<U>(st: Facade<U>): Facade<U> {
    if st.route == SUSPEND_HALT then st.(route := st.resumeRoute) else st
  }

  /** The actions of the three routing rules on the single mirrored route fact. */
  function FiredBy(route: string): seq<Action> {
    (if route != HALT && route != SUSPEND_HALT then [Goto(route)] else [])
    + (if route == HALT then [Halt("done")] else [])
    + (if route == SUSPEND_HALT then [Halt("suspended")] else [])
  }

  function Decision(route: string): Move {
    if route == HALT then Halt("done")
    else if route == SUSPEND_HALT then Halt("suspended")
    else Goto(route)
  }

  /** For every route exactly one rule fires, so the tick never falls back to the static edge. */
  lemma OneRuleFires(route: string, d: Option<Action>)
    ensures FiredBy(route) == [Decision(route)]
    ensures Decides(FiredBy(route), d) <==> d == Some(Decision(route))
  {
    assert FiredBy(route) == [Decision(route)];
    OneActionDecides(Decision(route), d);
  }

  function Tick<U>(g: Graph<U>, cur: string, st: Facade<U>): Facade<U>
    requires cur == ENTRY_ID || cur in g.nodes
  {
    if cur == ENTRY_ID then EntryTick(st) else NodeTick(g, cur, st)
  }

  // ------------------------------------------------------------- one process

  datatype Exec<+U> = Exec(name: string, before: U)

  datatype Outcome = Crashed | Done | Suspended | Parked(at: string) | UnknownNode(at: string) | NoCheckpoint

  datatype Trace<+U> = Trace(execs: seq<Exec<U>>, writes: seq<Facade<U>>, last: Facade<U>, outcome: Outcome)

  /** A process that dies after `budget` ticks; each tick ends in one checkpoint. */
  function Drive<U>(g: Graph<U>, st: Facade<U>, cur: string, budget: nat): Trace<U>
    decreases budget
  {
    if cur in g.interrupts then Trace([], [], st, Parked(cur))
    else if cur != ENTRY_ID && cur !in g.nodes then Trace([], [], st, UnknownNode(cur))
    else if budget == 0 then Trace([], [], st, Crashed)
    else
      var after := Tick(g, cur, st);
      var ran := if cur == ENTRY_ID then [] else [Exec(cur, st.user)];
      match Decision(after.route)
      case Halt(_) => Trace(ran, [after], after, if after.route == SUSPEND_HALT then Suspended else Done)
      case Goto(next) =>
        var rest := Drive(g, after, next, budget - 1);
        Trace(ran + rest.execs, [after] + rest.writes, rest.last, rest.outcome)
  }

  function Fresh<U>(g: Graph<U>, u: U, suspendAfter: Option<string>): Facade<U> {
    Facade(u, g.entry, false, "", if suspendAfter.Some? then suspendAfter.value else "")
  }

  function Reloaded<U>(stored: Facade<U>, suspendAfter: Option<string>): Facade<U> {
    if suspendAfter.Some? then stored.(suspendAfter := suspendAfter.value) else stored
  }

  /** The checkpoints of one process: its step numbers start at 0 again. */
  function Stamp<U>(run: string, writes: seq<Facade<U>>, clock: nat -> int): seq<Checkpoint<Facade<U>>> {
    if writes == [] then []
    else
      var n := |writes| - 1;
      Stamp(run, writes[..n], clock) + [Checkpoint(run, n, None, clock(n), writes[n])]
  }

  /** One checkpoint a tick, numbered from 0, outside branches. */
  lemma {:induction false} StampExactly<U>(run: string, writes: seq<Facade<U>>, clock: nat -> int)
    ensures var cps := Stamp(run, writes, clock);
            |cps| == |writes| &&
              forall i :: 0 <= i < |cps| ==> cps[i] == Checkpoint(run, i, None, clock(i), writes[i])
  {
    if writes != [] { StampExactly(run, writes[..|writes| - 1], clock); }
  }

  lemma {:induction false} LatestAfterProcess<U>(log: seq<Checkpoint<Facade<U>>>, run: string, writes: seq<Facade<U>>,
          clock: nat -> int, other: string)
    ensures var r := Latest(log + Stamp(run, writes, clock), other);
            if other != run || writes == [] then r == Latest(log, other)
            else r.Some? && r.value.state == writes[|writes| - 1]
  {
    var all := log + Stamp(run, writes, clock);
    if writes == [] {
      assert all == log;
    } else {
      var n := |writes| - 1;
      assert all[..|all| - 1] == log + Stamp(run, writes[..n], clock);
      LatestAfterProcess(log, run, writes[..n], clock, other);
    }
  }

  lemma {:induction false} LatestSkipsForeign<U>(log: seq<Checkpoint<Facade<U>>>, foreign: seq<Checkpoint<Facade<U>>>,
          run: string)
    requires forall c <- foreign :: c.runId != run
    ensures Latest(log + foreign, run) == Latest(log, run)
  {
    if foreign == [] {
      assert log + foreign == log;
    } else {
      var all, n := log + foreign, |foreign| - 1;
      assert all[|all| - 1] == foreign[n];
      assert all[..|all| - 1] == log + foreign[..n];
      LatestSkipsForeign(log, foreign[..n], run);
    }
  }

  datatype EntryMode<!U> = FreshStart(start: U) | Resume(resumeTo: Option<string>, patch: U -> U)

  datatype StepResult<+U> = CheckpointError | StepResult(outcome: Outcome, state: Facade<U>)

  function InitialState<U>(g: Graph<U>, mode: EntryMode<U>, stored: Option<Checkpoint<Facade<U>>>,
                           suspendAfter: Option<string>): Option<Facade<U>> {
    match mode
    case FreshStart(u) => Some(Fresh(g, u, suspendAfter))
    case Resume(to, patch) =>
      if stored.None? then None
      else
        var st := Reloaded(stored.value.state, suspendAfter);
        var patched := st.(user := patch(st.user));
        Some(if to.Some? then patched.(route := to.value) else patched)
  }

  class DurableGraph<U> {
    const g: Graph<U>

    constructor (g: Graph<U>)
      ensures this.g == g
    {
      this.g := g;
    }

    method ExecuteNode(name: string, st: Facade<U>) returns (patch: Patch<U>)
      requires name in g.nodes
      ensures Apply(st, patch) == NodeTick(g, name, st)
    {
      patch := Patch(Some(g.nodes[name](st.user)), None, None, None);
      var next := ResolveEdge(g, name, st.user);
      if st.suspendAfter == name && !st.suspended {
        patch := patch.(suspended := Some(true), resumeRoute := Some(next), route := Some(SUSPEND_HALT));
      } else {
        patch := patch.(route := Some(next));
      }
    }

    method ExecuteEntry(st: Facade<U>) returns (patch: Patch<U>)
      ensures Apply(st, patch) == EntryTick(st)
    {
      patch := Patch(None, None, None, None);
      if st.route == SUSPEND_HALT {
        patch := patch.(route := Some(st.resumeRoute));
      }
    }

    /** One tick: run the node, apply its patch, decide, and commit the checkpoint. */
    method Dispatch(store: SQLiteTable<Facade<U>>, runId: string, cur: string, st: Facade<U>, step: nat, ts: int)
      returns (after: Facade<U>, decision: Move)
      requires store.Valid() && (cur == ENTRY_ID || cur in g.nodes)
      modifies store
      ensures store.Valid() && store.log == old(store.log) + [Checkpoint(runId, step, None, ts, after)]
      ensures after == Tick(g, cur, st) && decision == Decision(after.route)
    {
      var patch;
      if cur == ENTRY_ID { patch := ExecuteEntry(st); } else { patch := ExecuteNode(cur, st); }
      after := Apply(st, patch);
      var decided := TranslateActions(FiredBy(after.route));
      OneRuleFires(after.route, decided);
      decision := decided.value;
      store.Write(Checkpoint(runId, step, None, ts, after));
    }

    /** The engine loop of one process, until a boundary or its death after `budget` ticks. */
    method Execute(store: SQLiteTable<Facade<U>>, runId: string, initial: Facade<U>, budget: nat, clock: nat -> int)
      returns (st: Facade<U>, outcome: Outcome)
      requires store.Valid()
      modifies store
      ensures store.Valid()
      ensures var t := Drive(g, initial, ENTRY_ID, budget);
              st == t.last && outcome == t.outcome && store.log == old(store.log) + Stamp(runId, t.writes, clock)
    {
      ghost var full := Drive(g, initial, ENTRY_ID, budget);
      ghost var writes: seq<Facade<U>> := [];
      st := initial;
      var cur, step := ENTRY_ID, 0;
      NothingYet(g, store.log, runId, st, cur, budget, clock);
      while true
        invariant step <= budget && step == |writes|
        invariant store.Valid() && Logged(old(store.log), runId, writes, clock, store.log)
        invariant Remains(g, full, writes, st, cur, budget - step)
        decreases budget - step
      {
        StopsHere(g, full, writes, st, cur, budget - step);
        if cur in g.interrupts { return st, Parked(cur); }
        if cur != ENTRY_ID && cur !in g.nodes { return st, UnknownNode(cur); }
        if step == budget { return st, Crashed; }
        GoesOn(g, full, writes, st, cur, budget - step);
        ghost var before := store.log;
        var decision;
        st, decision := Dispatch(store, runId, cur, st, step, clock(step));
        LogGrows(old(store.log), runId, writes, st, clock, before, store.log);
        writes := writes + [st];
        step := step + 1;
        match decision {
          case Halt(_) => return st, if st.route == SUSPEND_HALT then Suspended else Done;
          case Goto(next) => cur := next;
        }
      }
    }

    /** Create or load the state, then drive it to the next boundary. */
    method Run(store: SQLiteTable<Facade<U>>, runId: string, mode: EntryMode<U>, suspendAfter: Option<string>,
               budget: nat, clock: nat -> int)
      returns (r: StepResult<U>)
      requires store.Valid()
      modifies store
      ensures store.Valid()
      ensures var start := InitialState(g, mode, Latest(old(store.log), runId), suspendAfter);
              if start.None? then r == CheckpointError && store.log == old(store.log)
              else
                var t := Drive(g, start.value, ENTRY_ID, budget);
                && r == StepResult(t.outcome, t.last)
                && store.log == old(store.log) + Stamp(runId, t.writes, clock)
    {
      var st: Facade<U>;
      match mode {
        case FreshStart(u) =>
          st := Facade(u, g.entry, false, "", "");
          st := st.(suspendAfter := if suspendAfter.Some? then suspendAfter.value else "");
        case Resume(to, patch) =>
          var loaded := store.ReadLatest(runId);
          if loaded.None? {
            return CheckpointError;
          }
          st := loaded.value.state;
          if suspendAfter.Some? { st := st.(suspendAfter := suspendAfter.value); }
          st := st.(user := patch(st.user));
          if to.Some? { st := st.(route := to.value); }
      }
      var outcome;
      st, outcome := Execute(store, runId, st, budget, clock);
      r := StepResult(outcome, st);
    }
  }

  // The bookkeeping of `Execute`, one lemma per way through its loop body.

  ghost predicate Logged<U>(base: seq<Checkpoint<Facade<U>>>, run: string, writes: seq<Facade<U>>, clock: nat -> int,
                            log: seq<Checkpoint<Facade<U>>>) {
    log == base + Stamp(run, writes, clock)
  }

  ghost predicate Remains<U>(g: Graph<U>, full: Trace<U>, writes: seq<Facade<U>>, st: Facade<U>, cur: string,
                             left: nat) {
    var rest := Drive(g, st, cur, left);
    full.writes == writes + rest.writes && full.last == rest.last && full.outcome == rest.outcome
  }

  lemma NothingYet<U>(g: Graph<U>, log: seq<Checkpoint<Facade<U>>>, run: string, st: Facade<U>, cur: string, left: nat,
                      clock: nat -> int)
    ensures Logged(log, run, [], clock, log)
    ensures Remains(g, Drive(g, st, cur, left), [], st, cur, left)
  {
  }

  lemma LogGrows<U>(base: seq<Checkpoint<Facade<U>>>, run: string, writes: seq<Facade<U>>, st: Facade<U>,
                    clock: nat -> int,
                    before: seq<Checkpoint<Facade<U>>>, after: seq<Checkpoint<Facade<U>>>)
    requires Logged(base, run, writes, clock, before)
    requires after == before + [Checkpoint(run, |writes|, None, clock(|writes|), st)]
    ensures Logged(base, run, writes + [st], clock, after)
  {
    assert (writes + [st])[..|writes|] == writes;
  }

  lemma StopsHere<U>(g: Graph<U>, full: Trace<U>, writes: seq<Facade<U>>, st: Facade<U>, cur: string, left: nat)
    requires Remains(g, full, writes, st, cur, left)
    ensures cur in g.interrupts || (cur != ENTRY_ID && cur !in g.nodes) || left == 0 ==>
              && full.writes == writes && full.last == st
              && full.outcome == (if cur in g.interrupts then Parked(cur)
                                 else if cur != ENTRY_ID && cur !in g.nodes then UnknownNode(cur) else Crashed)
  {
  }

  lemma GoesOn<U>(g: Graph<U>, full: Trace<U>, writes: seq<Facade<U>>, st: Facade<U>, cur: string, left: nat)
    requires Remains(g, full, writes, st, cur, left)
    requires cur !in g.interrupts && (cur == ENTRY_ID || cur in g.nodes) && left > 0
    ensures var after := Tick(g, cur, st);
            match Decision(after.route)
            case Goto(next) => Remains(g, full, writes + [after], after, next, left - 1)
            case Halt(_) =>
              && full.writes == writes + [after] && full.last == after
              && full.outcome == (if after.route == SUSPEND_HALT then Suspended else Done)
  {
  }

  // ------------------------------------------------------- many processes

  /** A later launch of the same run; other runs may have written meanwhile. */
  datatype Launch<+U> = Launch(budget: nat, suspendAfter: Option<string>, foreign: seq<Checkpoint<Facade<U>>>)

  datatype Progress<+U> = Progress(log: seq<Checkpoint<Facade<U>>>, execs: seq<Exec<U>>, outcomes: seq<Outcome>)

  function AfterProcess<U>(g: Graph<U>, run: string, p: Progress<U>, start: Option<Facade<U>>, budget: nat,
                           clock: nat -> int): Progress<U> {
    if start.None? then p.(outcomes := p.outcomes + [NoCheckpoint])
    else
      var t := Drive(g, start.value, ENTRY_ID, budget);
      Progress(p.log + Stamp(run, t.writes, clock), p.execs + t.execs, p.outcomes + [t.outcome])
  }

  /** A fresh process and any number of plain resumes, each from the stored checkpoint. */
  function Session<U>(g: Graph<U>, run: string, u: U, first: Launch<U>, resumes: seq<Launch<U>>,
                      clock: nat -> int): Progress<U> {
    if resumes == [] then
      AfterProcess(g, run, Progress(first.foreign, [], []), Some(Fresh(g, u, first.suspendAfter)), first.budget, clock)
    else
      var p := Session(g, run, u, first, resumes[..|resumes| - 1], clock);
      var l := resumes[|resumes| - 1];
      var q := p.(log := p.log + l.foreign);
      AfterProcess(g, run, q, InitialState(g, Resume(None, x => x), Latest(q.log, run), l.suspendAfter),
          l.budget, clock)
  }

  ghost predicate ForeignOnly<U>(run: string, first: Launch<U>, resumes: seq<Launch<U>>) {
    && (forall c <- first.foreign :: c.runId != run)
    && forall l <- resumes, c <- l.foreign :: c.runId != run
  }

  // ------------------------------------ the machine without any bookkeeping

  /** User state and the node to run next. */
  datatype Pos<+U> = Pos(user: U, at: string)

  predicate CanStep<U>(g: Graph<U>, p: Pos<U>) {
    p.at != HALT && p.at in g.nodes && p.at !in g.interrupts
  }

  function Next<U>(g: Graph<U>, p: Pos<U>): Pos<U>
    requires CanStep(g, p)
  {
    Pos(g.nodes[p.at](p.user), ResolveEdge(g, p.at, p.user))
  }

  predicate Steps<U>(g: Graph<U>, p: Pos<U>, n: nat)
    decreases n
  {
    n == 0 || (CanStep(g, p) && Steps(g, Next(g, p), n - 1))
  }

  function PosAt<U>(g: Graph<U>, p: Pos<U>, n: nat): Pos<U>
    requires Steps(g, p, n)
    decreases n
  {
    if n == 0 then p else PosAt(g, Next(g, p), n - 1)
  }

  function ExecsOf<U>(g: Graph<U>, p: Pos<U>, n: nat): (r: seq<Exec<U>>)
    requires Steps(g, p, n)
    ensures |r| == n
    decreases n
  {
    if n == 0 then [] else [Exec(p.at, p.user)] + ExecsOf(g, Next(g, p), n - 1)
  }

  lemma {:induction false} StepsCompose<U>(g: Graph<U>, p: Pos<U>, m: nat, n: nat)
    requires Steps(g, p, m) && Steps(g, PosAt(g, p, m), n)
    ensures Steps(g, p, m + n)
    ensures PosAt(g, p, m + n) == PosAt(g, PosAt(g, p, m), n)
    ensures ExecsOf(g, p, m + n) == ExecsOf(g, p, m) + ExecsOf(g, PosAt(g, p, m), n)
    decreases m
  {
    if m > 0 { StepsCompose(g, Next(g, p), m - 1, n); }
  }

  // --------------------------------------------------------------- refinement

  /** The reserved names are not used as node names or edge targets. */
  ghost predicate WellFormed<U(!new)>(g: Graph<U>) {
    && ENTRY_ID !in g.nodes && ENTRY_ID !in g.interrupts && "" !in g.nodes
    && SUSPEND_HALT !in g.nodes && g.entry != SUSPEND_HALT
    && forall name, u :: ResolveEdge(g, name, u) != SUSPEND_HALT
  }

  function PosOf<U>(st: Facade<U>): Pos<U> {
    Pos(st.user, if st.route == SUSPEND_HALT then st.resumeRoute else st.route)
  }

  ghost predicate Consistent<U>(st: Facade<U>) {
    st.route == SUSPEND_HALT ==> st.suspended && st.resumeRoute != SUSPEND_HALT
  }

  /** Where the engine may stand when the state is `st`. */
  ghost predicate Stands<U>(st: Facade<U>, cur: string) {
    Consistent(st) && (cur == ENTRY_ID || (cur == st.route && cur != SUSPEND_HALT && cur != HALT))
  }

  /** The entry tick moves nothing; a node tick is one step of the bare machine, suspended or not. */
  lemma TickIsStep<U(!new)>(g: Graph<U>, cur: string, st: Facade<U>)
    requires WellFormed(g) && Stands(st, cur) && cur !in g.interrupts
    requires cur == ENTRY_ID || cur in g.nodes
    ensures var after := Tick(g, cur, st);
            && Consistent(after)
            && (Decision(after.route).Goto? ==> Stands(after, after.route))
            && (if cur == ENTRY_ID
                then PosOf(after) == PosOf(st) && after.route != SUSPEND_HALT && after.suspended == st.suspended
                else CanStep(g, PosOf(st)) && PosOf(after) == Next(g, PosOf(st)) && cur == PosOf(st).at)
            && (st.suspended ==> after.suspended && after.route != SUSPEND_HALT)
  {
  }

  ghost predicate Refines<U>(g: Graph<U>, st: Facade<U>, t: Trace<U>) {
    var n := |t.execs|;
    && Steps(g, PosOf(st), n)
    && t.execs == ExecsOf(g, PosOf(st), n)
    && PosOf(t.last) == PosAt(g, PosOf(st), n)
    && (t.outcome == Done ==> PosOf(t.last).at == HALT)
  }

  ghost predicate Keeps<U>(st: Facade<U>, t: Trace<U>) {
    && Consistent(t.last)
    && (st.suspended ==> t.last.suspended && t.outcome != Suspended)
    && (t.outcome == Suspended ==> t.last.suspended)
    && (if t.writes == [] then t.last == st else t.last == t.writes[|t.writes| - 1])
  }

  lemma OneMore<U>(g: Graph<U>, p: Pos<U>, n: nat)
    requires CanStep(g, p) && Steps(g, Next(g, p), n)
    ensures Steps(g, p, n + 1)
    ensures ExecsOf(g, p, n + 1) == [Exec(p.at, p.user)] + ExecsOf(g, Next(g, p), n)
    ensures PosAt(g, p, n + 1) == PosAt(g, Next(g, p), n)
  {
  }

  /** A process makes exactly the steps of the bare machine, wherever it stops. */
  lemma {:induction false} DriveRefines<U(!new)>(g: Graph<U>, st: Facade<U>, cur: string, budget: nat)
    requires WellFormed(g) && Stands(st, cur)
    ensures Refines(g, st, Drive(g, st, cur, budget)) && Keeps(st, Drive(g, st, cur, budget))
    decreases budget
  {
    var t := Drive(g, st, cur, budget);
    if cur !in g.interrupts && (cur == ENTRY_ID || cur in g.nodes) && budget > 0 {
      TickIsStep(g, cur, st);
      var after := Tick(g, cur, st);
      if Decision(after.route).Goto? {
        DriveRefines(g, after, after.route, budget - 1);
        var rest := Drive(g, after, after.route, budget - 1);
        if cur == ENTRY_ID {
          assert t.execs == rest.execs;
        } else {
          OneMore(g, PosOf(st), |rest.execs|);
          assert t.execs == [Exec(cur, st.user)] + rest.execs;
        }
      } else if cur != ENTRY_ID {
        OneMore(g, PosOf(st), 0);
        assert t.execs == [Exec(cur, st.user)] + [];
      }
    }
  }

  /** Without a pending suspend request, a process given enough ticks makes all the steps there are. */
  lemma {:induction false} DriveReaches<U(!new)>(g: Graph<U>, st: Facade<U>, n: nat, budget: nat)
    requires WellFormed(g) && Stands(st, st.route) && Steps(g, PosOf(st), n) && n <= budget
    requires st.suspendAfter !in g.nodes || st.suspended
    ensures n <= |Drive(g, st, st.route, budget).execs|
    decreases n
  {
    if n > 0 {
      TickIsStep(g, st.route, st);
      var after := Tick(g, st.route, st);
      if Decision(after.route).Goto? { DriveReaches(g, after, n - 1, budget - 1); }
    }
  }

  /** The same run in one process that is neither suspended nor killed before `n` user-node ticks. */
  function Uninterrupted<U>(g: Graph<U>, u: U, n: nat): Trace<U> {
    Drive(g, Fresh(g, u, None), ENTRY_ID, n + 1)
  }

  lemma UninterruptedReaches<U(!new)>(g: Graph<U>, u: U, n: nat, m: nat)
    requires WellFormed(g) && Steps(g, Pos(u, g.entry), n) && n <= m
    ensures var t := Uninterrupted(g, u, m); n <= |t.execs| <= m && Refines(g, Fresh(g, u, None), t)
  {
    var st := Fresh(g, u, None);
    DriveRefines(g, st, ENTRY_ID, m + 1);
    DriveIsBounded(g, st, ENTRY_ID, m + 1);
    if g.entry != HALT {
      DriveReaches(g, st, n, m);
      assert Drive(g, st, ENTRY_ID, m + 1).execs == [] + Drive(g, st, g.entry, m).execs;
    }
  }

  lemma {:induction false} DriveIsBounded<U>(g: Graph<U>, st: Facade<U>, cur: string, budget: nat)
    ensures |Drive(g, st, cur, budget).execs| <= |Drive(g, st, cur, budget).writes| <= budget
    ensures cur == ENTRY_ID && budget > 0 ==> |Drive(g, st, cur, budget).execs| < budget
    decreases budget
  {
    var t := Drive(g, st, cur, budget);
    if cur !in g.interrupts && (cur == ENTRY_ID || cur in g.nodes) && budget > 0 {
      var after := Tick(g, cur, st);
      if Decision(after.route).Goto? { DriveIsBounded(g, after, after.route, budget - 1); }
    }
  }

  lemma {:induction false} PrefixOfSteps<U>(g: Graph<U>, p: Pos<U>, n: nat, m: nat)
    requires Steps(g, p, m) && n <= m
    ensures Steps(g, p, n) && ExecsOf(g, p, n) <= ExecsOf(g, p, m)
    ensures PosAt(g, p, n).at == HALT ==> n == m
    decreases n
  {
    if n > 0 { PrefixOfSteps(g, Next(g, p), n - 1, m - 1); }
  }

  ghost predicate AtMostOneSuspension(outcomes: seq<Outcome>) {
    forall i, j :: 0 <= i < j < |outcomes| ==> !(outcomes[i] == Suspended && outcomes[j] == Suspended)
  }

  /** What a run's history keeps, whatever processes it is made of. */
  ghost predicate Faithful<U>(g: Graph<U>, start: Pos<U>, p: Progress<U>, stored: Option<Checkpoint<Facade<U>>>) {
    var n := |p.execs|;
    && Steps(g, start, n)
    && p.execs == ExecsOf(g, start, n)
    && (stored.None? ==> n == 0 && Suspended !in p.outcomes)
    && (stored.Some? ==> PosOf(stored.value.state) == PosAt(g, start, n) && Consistent(stored.value.state))
    && (stored.Some? && Suspended in p.outcomes ==> stored.value.state.suspended)
    && AtMostOneSuspension(p.outcomes)
    && p.outcomes != [] && (p.outcomes[|p.outcomes| - 1] == Done ==> PosAt(g, start, n).at == HALT)
  }

  /** `st` may be loaded from the stored checkpoint and continues the history `p`. */
  ghost predicate Continues<U>(g: Graph<U>, start: Pos<U>, p: Progress<U>, stored: Option<Checkpoint<Facade<U>>>,
                               st: Facade<U>) {
    && Steps(g, start, |p.execs|) && p.execs == ExecsOf(g, start, |p.execs|)
    && Consistent(st) && PosOf(st) == PosAt(g, start, |p.execs|)
    && AtMostOneSuspension(p.outcomes) && (Suspended in p.outcomes ==> st.suspended)
    && (stored.None? ==> p.execs == [] && Suspended !in p.outcomes)
    && (stored.Some? ==> PosOf(stored.value.state) == PosOf(st) && Consistent(stored.value.state)
                         && stored.value.state.suspended == st.suspended)
  }

  lemma TraceStaysFaithful<U>(g: Graph<U>, start: Pos<U>, p: Progress<U>, stored: Option<Checkpoint<Facade<U>>>,
                              st: Facade<U>,
                              t: Trace<U>, q: Progress<U>, after: Option<Checkpoint<Facade<U>>>)
    requires Continues(g, start, p, stored, st)
    requires Refines(g, st, t) && Keeps(st, t)
    requires t.writes == [] ==> t.execs == [] && t.outcome != Done && t.outcome != Suspended && after == stored
    requires t.writes != [] ==> after.Some? && after.value.state == t.last
    requires q.execs == p.execs + t.execs && q.outcomes == p.outcomes + [t.outcome]
    ensures Faithful(g, start, q, after)
  {
    StepsCompose(g, start, |p.execs|, |t.execs|);
    OutcomesGrow(p.outcomes, t.outcome);
  }

  lemma ProcessStaysFaithful<U(!new)>(g: Graph<U>, run: string, start: Pos<U>, p: Progress<U>, st: Facade<U>,
                                      budget: nat, clock: nat -> int)
    requires WellFormed(g) && Continues(g, start, p, Latest(p.log, run), st)
    ensures var q := AfterProcess(g, run, p, Some(st), budget, clock); Faithful(g, start, q, Latest(q.log, run))
  {
    var t := Drive(g, st, ENTRY_ID, budget);
    DriveRefines(g, st, ENTRY_ID, budget);
    LatestAfterProcess(p.log, run, t.writes, clock, run);
    NoWritesNoExecs(g, st, ENTRY_ID, budget);
    var q := AfterProcess(g, run, p, Some(st), budget, clock);
    TraceStaysFaithful(g, start, p, Latest(p.log, run), st, t, q, Latest(q.log, run));
  }

  lemma OutcomesGrow(outcomes: seq<Outcome>, o: Outcome)
    requires AtMostOneSuspension(outcomes)
    requires o == Suspended ==> Suspended !in outcomes
    ensures AtMostOneSuspension(outcomes + [o])
    ensures Suspended in outcomes + [o] <==> Suspended in outcomes || o == Suspended
  {
  }

  lemma {:induction false} SessionIsFaithful<U(!new)>(g: Graph<U>, run: string, u: U, first: Launch<U>,
          resumes: seq<Launch<U>>, clock: nat -> int)
    requires WellFormed(g) && ForeignOnly(run, first, resumes)
    ensures var p := Session(g, run, u, first, resumes, clock);
            Faithful(g, Pos(u, g.entry), p, Latest(p.log, run))
    decreases |resumes|
  {
    if resumes == [] {
      assert [] + first.foreign == first.foreign;
      LatestSkipsForeign([], first.foreign, run);
      ProcessStaysFaithful(g, run, Pos(u, g.entry), Progress(first.foreign, [], []), Fresh(g, u, first.suspendAfter),
          first.budget, clock);
    } else {
      var front, l := resumes[..|resumes| - 1], resumes[|resumes| - 1];
      assert ForeignOnly(run, first, front);
      SessionIsFaithful(g, run, u, first, front, clock);
      var p := Session(g, run, u, first, front, clock);
      LatestSkipsForeign(p.log, l.foreign, run);
      var q := p.(log := p.log + l.foreign);
      var stored := Latest(q.log, run);
      if stored.Some? {
        ProcessStaysFaithful(g, run, Pos(u, g.entry), q, Reloaded(stored.value.state, l.suspendAfter), l.budget, clock);
      }
    }
  }

  /**
   * Durable resume. Whatever processes a run is made of -- each killed after any
   * checkpoint, asked to suspend anywhere, and restarting its step numbers at 0 in
   * a table shared with other runs -- the user-node executions are those of one
   * uninterrupted process, in the same order on the same inputs, the stored user
   * state is the one that process has there, and once a process reaches the halt
   * no uninterrupted run executes anything more.
   */
  lemma DurableResume<U(!new)>(g: Graph<U>, run: string, u: U, first: Launch<U>, resumes: seq<Launch<U>>,
                               clock: nat -> int, m: nat)
    requires WellFormed(g) && ForeignOnly(run, first, resumes)
    requires |Session(g, run, u, first, resumes, clock).execs| <= m
    ensures var p := Session(g, run, u, first, resumes, clock);
            var n := |p.execs|;
            var stored := Latest(p.log, run);
            && p.execs <= Uninterrupted(g, u, m).execs
            && p.execs == Uninterrupted(g, u, n).execs
            && (stored.Some? ==> stored.value.state.user == Uninterrupted(g, u, n).last.user)
            && (p.outcomes[|p.outcomes| - 1] == Done ==> p.execs == Uninterrupted(g, u, m).execs)
  {
    SessionIsFaithful(g, run, u, first, resumes, clock);
    var p := Session(g, run, u, first, resumes, clock);
    var n, start := |p.execs|, Pos(u, g.entry);
    UninterruptedReaches(g, u, n, n);
    UninterruptedReaches(g, u, n, m);
    PrefixOfSteps(g, start, n, |Uninterrupted(g, u, m).execs|);
  }

  /** Over the whole life of a run at most one process ends suspended, whatever later launches ask for. */
  lemma SuspendsAtMostOnce<U(!new)>(g: Graph<U>, run: string, u: U, first: Launch<U>, resumes: seq<Launch<U>>,
                                    clock: nat -> int, i: nat, j: nat)
    requires WellFormed(g) && ForeignOnly(run, first, resumes)
    requires var o := Session(g, run, u, first, resumes, clock).outcomes;
             i < |o| && j < |o| && o[i] == o[j] == Suspended
    ensures i == j
  {
    SessionIsFaithful(g, run, u, first, resumes, clock);
  }

  predicate Ran<U>(execs: seq<Exec<U>>, name: string) {
    exists i :: 0 <= i < |execs| && execs[i].name == name
  }

  /** `t` is `q`, or `q` cut right after the first execution of `name`. */
  ghost predicate CutsAfterFirst<U>(t: Trace<U>, q: Trace<U>, name: string) {
    && (t.outcome == Suspended <==> Ran(q.execs, name))
    && (t.outcome == Suspended ==>
          && t.execs != [] && t.execs <= q.execs
          && t.execs[|t.execs| - 1].name == name && !Ran(t.execs[..|t.execs| - 1], name))
    && (t.outcome != Suspended ==> t.execs == q.execs && t.outcome == q.outcome && t.last.user == q.last.user)
  }

  lemma CutPrepends<U>(ran: seq<Exec<U>>, t': Trace<U>, q': Trace<U>, t: Trace<U>, q: Trace<U>, name: string)
    requires CutsAfterFirst(t', q', name)
    requires ran == [] || (|ran| == 1 && ran[0].name != name)
    requires t.execs == ran + t'.execs && t.outcome == t'.outcome && t.last == t'.last
    requires q.execs == ran + q'.execs && q.outcome == q'.outcome && q.last == q'.last
    ensures CutsAfterFirst(t, q, name)
  {
    if ran == [] {
      assert t.execs == t'.execs && q.execs == q'.execs;
    } else {
      RanCons(ran[0], q'.execs, name);
      assert ran == [ran[0]];
      if t'.execs != [] {
        var k := |t'.execs| - 1;
        assert t.execs[..k + 1] == ran + t'.execs[..k];
        RanCons(ran[0], t'.execs[..k], name);
      }
    }
  }

  lemma DriveGoes<U>(g: Graph<U>, st: Facade<U>, cur: string, budget: nat)
    requires cur !in g.interrupts && (cur == ENTRY_ID || cur in g.nodes) && budget > 0
    requires Decision(Tick(g, cur, st).route).Goto?
    ensures var t, after := Drive(g, st, cur, budget), Tick(g, cur, st);
            var rest := Drive(g, after, after.route, budget - 1);
            && t.execs == (if cur == ENTRY_ID then [] else [Exec(cur, st.user)]) + rest.execs
            && t.writes == [after] + rest.writes && t.last == rest.last && t.outcome == rest.outcome
  {
  }

  lemma DriveStops<U>(g: Graph<U>, st: Facade<U>, cur: string, budget: nat)
    ensures var t := Drive(g, st, cur, budget);
            if cur in g.interrupts || (cur != ENTRY_ID && cur !in g.nodes) || budget == 0 then
              && t.execs == [] && t.writes == [] && t.last == st
              && t.outcome == (if cur in g.interrupts then Parked(cur)
                                 else if cur != ENTRY_ID && cur !in g.nodes then UnknownNode(cur) else Crashed)
            else
              var after := Tick(g, cur, st);
              Decision(after.route).Halt? ==>
                && t.execs == (if cur == ENTRY_ID then [] else [Exec(cur, st.user)])
                && t.writes == [after] && t.last == after
                && t.outcome == (if after.route == SUSPEND_HALT then Suspended else Done)
  {
  }

  lemma SuspendsHere<U(!new)>(g: Graph<U>, st: Facade<U>, budget: nat)
    requires WellFormed(g) && st.suspendAfter in g.nodes && st.suspendAfter !in g.interrupts && !st.suspended &&
               budget > 0
    ensures var n := st.suspendAfter;
              CutsAfterFirst(Drive(g, st, n, budget), Drive(g, st.(suspended := true), n, budget), n)
  {
    var n, spent := st.suspendAfter, st.(suspended := true);
    DriveStops(g, st, n, budget);
    var t, q := Drive(g, st, n, budget), Drive(g, spent, n, budget);
    assert t.execs == [Exec(n, st.user)] && t.outcome == Suspended;
    assert q.execs != [] && q.execs[0] == Exec(n, st.user);
  }

  /**
   * Suspend after side effects, once: compare a process with the same process whose
   * suspension is spent. It is suspended exactly if the other one runs the named
   * node, and then right after the first execution of it; else nothing differs.
   */
  lemma {:induction false} SuspendsAfterFirst<U(!new)>(g: Graph<U>, st: Facade<U>, cur: string, budget: nat)
    requires WellFormed(g) && Stands(st, cur) && !st.suspended
    ensures CutsAfterFirst(Drive(g, st, cur, budget), Drive(g, st.(suspended := true), cur, budget), st.suspendAfter)
    decreases budget
  {
    var n, spent := st.suspendAfter, st.(suspended := true);
    if cur in g.interrupts || (cur != ENTRY_ID && cur !in g.nodes) || budget == 0 {
      DriveStops(g, st, cur, budget);
      DriveStops(g, spent, cur, budget);
    } else if cur == n && cur != ENTRY_ID {
      SuspendsHere(g, st, budget);
    } else {
      TickIsStep(g, cur, st);
      var after, over := Tick(g, cur, st), Tick(g, cur, spent);
      assert over == after.(suspended := true) && after.suspendAfter == n && !after.suspended;
      if Decision(after.route).Goto? {
        SuspendsAfterFirst(g, after, after.route, budget - 1);
        DriveGoes(g, st, cur, budget);
        DriveGoes(g, spent, cur, budget);
        CutPrepends(if cur == ENTRY_ID then [] else [Exec(cur, st.user)],
                    Drive(g, after, after.route, budget - 1), Drive(g, over, over.route, budget - 1),
                    Drive(g, st, cur, budget), Drive(g, spent, cur, budget), n);
      } else {
        DriveStops(g, st, cur, budget);
        DriveStops(g, spent, cur, budget);
      }
    }
  }

  lemma RanCons<U>(e: Exec<U>, execs: seq<Exec<U>>, name: string)
    ensures Ran([e] + execs, name) <==> e.name == name || Ran(execs, name)
  {
    var all := [e] + execs;
    if e.name == name { assert all[0].name == name; }
    if i :| 0 <= i < |execs| && execs[i].name == name { assert all[i + 1].name == name; }
  }

  /**
   * `suspend_after` on a resume is honoured exactly while the run has never been
   * suspended: `sg_suspended` is written once and never cleared.
   */
  lemma SuspendHonouredExactly<U(!new)>(g: Graph<U>, stored: Facade<U>, name: string, budget: nat)
    requires WellFormed(g) && Consistent(stored) && name in g.nodes
    ensures var st := Reloaded(stored, Some(name));
            Drive(g, st, ENTRY_ID, budget).outcome == Suspended <==>
              !stored.suspended && Ran(Drive(g, st.(suspended := true), ENTRY_ID, budget).execs, name)
  {
    var st := Reloaded(stored, Some(name));
    if stored.suspended {
      DriveRefines(g, st, ENTRY_ID, budget);
    } else {
      SuspendsAfterFirst(g, st, ENTRY_ID, budget);
    }
  }

  /**
   * A suspension nobody asked for: without a pending request, a process ends suspended
   * exactly if some node it executes resolves its edge to the reserved sentinel, and
   * what it stores as the position to resume is not a successor but the old value.
   */
  lemma {:induction false} SuspendsUnaskedExactly<U>(g: Graph<U>, st: Facade<U>, cur: string, budget: nat)
    requires ENTRY_ID !in g.nodes && st.suspendAfter !in g.nodes && st.route != SUSPEND_HALT
    ensures var t := Drive(g, st, cur, budget);
            && (t.outcome == Suspended <==> exists e <- t.execs :: ResolveEdge(g, e.name, e.before) == SUSPEND_HALT)
            && (t.outcome == Suspended ==> t.last.route == SUSPEND_HALT && t.last.resumeRoute == st.resumeRoute)
    decreases budget
  {
    DriveStops(g, st, cur, budget);
    if cur !in g.interrupts && (cur == ENTRY_ID || cur in g.nodes) && budget > 0 {
      var after := Tick(g, cur, st);
      var ran := if cur == ENTRY_ID then [] else [Exec(cur, st.user)];
      if Decision(after.route).Goto? {
        SuspendsUnaskedExactly(g, after, after.route, budget - 1);
        DriveGoes(g, st, cur, budget);
        var rest := Drive(g, after, after.route, budget - 1).execs;
        assert forall e :: e in ran + rest <==> e in ran || e in rest;
      }
    }
  }

  /** Resuming after it finds no node to go to: the position is lost, however far the run had come. */
  lemma UnaskedSuspensionLosesPosition<U>(g: Graph<U>, u: U, budget: nat, later: nat)
    requires ENTRY_ID !in g.nodes && "" !in g.nodes && g.entry != SUSPEND_HALT && later > 0
    requires "" !in g.interrupts && ENTRY_ID !in g.interrupts
    requires Drive(g, Fresh(g, u, None), ENTRY_ID, budget).outcome == Suspended
    ensures Drive(g, Drive(g, Fresh(g, u, None), ENTRY_ID, budget).last, ENTRY_ID, later).outcome == UnknownNode("")
  {
    var st := Fresh(g, u, None);
    SuspendsUnaskedExactly(g, st, ENTRY_ID, budget);
    var stuck := Drive(g, st, ENTRY_ID, budget).last;
    assert EntryTick(stuck).route == "";
    DriveGoes(g, stuck, ENTRY_ID, later);
    DriveStops(g, EntryTick(stuck), "", later - 1);
  }

  /** An edge to the reserved suspend sentinel breaks the contract: a suspend nobody asked for, then a lost position. */
  lemma ReservedTargetLosesPosition(name: string, f: int -> int, u: int)
    requires name != ENTRY_ID && name != HALT && name != SUSPEND_HALT && name != ""
    ensures var g := Graph(map[name := f], map[name := To(SUSPEND_HALT)], name, {});
            var t := Drive(g, Fresh(g, u, None), ENTRY_ID, 2);
            t.outcome == Suspended && Drive(g, t.last, ENTRY_ID, 1).outcome == UnknownNode("")
  {
    var g := Graph(map[name := f], map[name := To(SUSPEND_HALT)], name, {});
    var st := Fresh(g, u, None);
    var one := NodeTick(g, name, st);
    assert one.route == SUSPEND_HALT && one.resumeRoute == "";
    assert Drive(g, st, name, 1).outcome == Suspended && Drive(g, st, name, 1).last == one;
    assert Decision(st.route) == Goto(name);
    assert EntryTick(st) == st;
    assert Drive(g, st, ENTRY_ID, 2).last == one;
    var restored := EntryTick(one);
    assert restored.route == "";
    assert Drive(g, restored, "", 0).outcome == UnknownNode("");
  }

  // ------------------------------------------------- the edge and the patch

  /** A target with the two spellings of the end taken for one. */
  function Ended(target: string): string { if target == END then HALT else target }

  /** A node tick that would resolve the edge on the state the node leaves. */
  function LateTick<U>(g: Graph<U>, name: string, st: Facade<U>): Facade<U>
    requires name in g.nodes
  {
    var next := ResolveEdge(g, name, g.nodes[name](st.user));
    var patched := st.(user := g.nodes[name](st.user));
    if st.suspendAfter == name && !st.suspended
    then patched.(suspended := true, resumeRoute := next, route := SUSPEND_HALT)
    else patched.(route := next)
  }

  /** Does the edge lead to the same place before and after the node `f`? */
  ghost predicate UnmovedBy<U(!new)>(e: Edge<U>, f: U -> U) {
    e.To? || forall u :: Ended(e.pick(u)) == Ended(e.pick(f(u)))
  }

  lemma TicksDiffer<U>(g: Graph<U>, name: string, st: Facade<U>)
    requires name in g.nodes
    ensures NodeTick(g, name, st) == LateTick(g, name, st)
       <==> ResolveEdge(g, name, st.user) == ResolveEdge(g, name, g.nodes[name](st.user))
  {
    var a, b := NodeTick(g, name, st), LateTick(g, name, st);
    if st.suspendAfter == name && !st.suspended {
      assert a.resumeRoute == ResolveEdge(g, name, st.user);
    } else {
      assert a.route == ResolveEdge(g, name, st.user);
    }
  }

  lemma TicksDifferAt<U(!new)>(g: Graph<U>, name: string, st: Facade<U>)
    requires name in g.nodes
    ensures NodeTick(g, name, st) == LateTick(g, name, st)
       <==> name !in g.edges || g.edges[name].To?
            || Ended(g.edges[name].pick(st.user)) == Ended(g.edges[name].pick(g.nodes[name](st.user)))
  {
    TicksDiffer(g, name, st);
  }

  lemma MovedEdgeDiffers<U(!new)>(g: Graph<U>, name: string)
    requires name in g.nodes && name in g.edges && !UnmovedBy(g.edges[name], g.nodes[name])
    ensures exists st :: NodeTick(g, name, st) != LateTick(g, name, st)
  {
    var u :| Ended(g.edges[name].pick(u)) != Ended(g.edges[name].pick(g.nodes[name](u)));
    TicksDifferAt(g, name, Fresh(g, u, None));
  }

  /** For one node: resolving before the patch is resolving after it exactly if its router agrees along the node. */
  lemma EdgeOrderOfNodeExactly<U(!new)>(g: Graph<U>, name: string)
    requires name in g.nodes
    ensures (forall st :: NodeTick(g, name, st) == LateTick(g, name, st))
       <==> name !in g.edges || UnmovedBy(g.edges[name], g.nodes[name])
  {
    if name !in g.edges || UnmovedBy(g.edges[name], g.nodes[name]) {
      forall st: Facade<U> ensures NodeTick(g, name, st) == LateTick(g, name, st) { TicksDifferAt(g, name, st); }
    } else {
      MovedEdgeDiffers(g, name);
    }
  }

  /** The graph with another function at one node. */
  function WithNode<U>(g: Graph<U>, name: string, f: U -> U): Graph<U> { g.(nodes := g.nodes[name := f]) }

  /** For every node function: the order is immaterial exactly if the edge is static or its router constant. */
  lemma EdgeOrderExactly<U(!new)>(g: Graph<U>, name: string)
    ensures (forall f: U -> U, st ::
              NodeTick(WithNode(g, name, f), name, st) == LateTick(WithNode(g, name, f), name, st))
       <==> name !in g.edges || g.edges[name].To?
            || forall u, v :: Ended(g.edges[name].pick(u)) == Ended(g.edges[name].pick(v))
  {
    forall f: U -> U
      ensures (forall st :: NodeTick(WithNode(g, name, f), name, st) == LateTick(WithNode(g, name, f), name, st))
         <==> name !in g.edges || UnmovedBy(g.edges[name], f)
    {
      EdgeOrderOfNodeExactly(WithNode(g, name, f), name);
    }
    if name in g.edges && g.edges[name].Router? {
      var pick := g.edges[name].pick;
      if u, v :| Ended(pick(u)) != Ended(pick(v)) {
        var f: U -> U := _ => v;
        assert f(u) == v && !UnmovedBy(g.edges[name], f);
      }
    }
  }

  /** A router that reads what its own node writes: the run goes where the old value says. */
  lemma RouterMissesOwnWrite(name: string, stay: string, go: string)
    requires name != ENTRY_ID && name != "" && stay != go && stay != END && go != END
    ensures var pick := (u: int) => if u == 0 then stay else go;
            var g := Graph(map[name := (u: int) => u + 1], map[name := Router(pick)], name, {});
            && NodeTick(g, name, Fresh(g, 0, None)).route == stay
            && LateTick(g, name, Fresh(g, 0, None)).route == go
  {
    var pick := (u: int) => if u == 0 then stay else go;
    var g := Graph(map[name := (u: int) => u + 1], map[name := Router(pick)], name, {});
    assert g.nodes[name](0) == 1 && g.edges[name].pick(0) == stay && g.edges[name].pick(1) == go;
  }

  lemma NoWritesNoExecs<U>(g: Graph<U>, st: Facade<U>, cur: string, budget: nat)
    ensures var t := Drive(g, st, cur, budget);
            t.writes == [] ==>
                t.execs == [] && t.last == st && (t.outcome == Crashed || t.outcome.Parked? || t.outcome.UnknownNode?)
  {
  }
}
