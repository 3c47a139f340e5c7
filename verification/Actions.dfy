/** The actions a tick can fire, and the one routing decision taken from them. */
module Actions {
  import opened Wrappers

  datatype Action =
    | Interrupt(prompt: string)
    | Halt(reason: string)
    | Goto(target: string)
    | Parallel(targets: seq<string>)
    | SideEffect(kind: string)

  /** What routing rules fire: a goto or a halt. */
  type Move = a: Action | a.Goto? || a.Halt? witness Goto("")

  /** Precedence, the strongest first; the last rank carries no routing. */
  function Rank(a: Action): nat {
    match a
    case Interrupt(_) => 0
    case Halt(_) => 1
    case Goto(_) => 2
    case Parallel(_) => 3
    case SideEffect(_) => 4
  }

  /** Action `i` is the first of its rank. */
  predicate IsFirst(actions: seq<Action>, i: nat) {
    i < |actions| && forall j :: 0 <= j < i ==> Rank(actions[j]) != Rank(actions[i])
  }

  /**
   * The first action of the strongest rank fired; with none that routes, the run
   * continues along the static edge.
   */
  ghost predicate Decides(actions: seq<Action>, d: Option<Action>) {
    match d
    case None => forall a <- actions :: a.SideEffect?
    case Some(a) =>
      !a.SideEffect? && (exists i: nat :: IsFirst(actions, i) && a == actions[i]) &&
          forall b <- actions :: Rank(a) <= Rank(b)
  }

  /** The first action of one rank among the first `n`. */
  ghost predicate Holds(actions: seq<Action>, n: nat, rank: nat, slot: Option<Action>)
    requires n <= |actions|
  {
    match slot
    case None => forall j :: 0 <= j < n ==> Rank(actions[j]) != rank
    case Some(a) => Rank(a) == rank && exists i: nat :: i < n && IsFirst(actions, i) && a == actions[i]
  }

  method TranslateActions(actions: seq<Action>) returns (d: Option<Action>)
    ensures Decides(actions, d)
  {
    var interrupt: Option<Action>, halt: Option<Action>, goto: Option<Action>, parallel: Option<Action> :=
        None, None, None, None;
    for i := 0 to |actions|
      invariant Holds(actions, i, 0, interrupt) && Holds(actions, i, 1, halt)
      invariant Holds(actions, i, 2, goto) && Holds(actions, i, 3, parallel)
    {
      HoldsNext(actions, i, 0, interrupt);
      HoldsNext(actions, i, 1, halt);
      HoldsNext(actions, i, 2, goto);
      HoldsNext(actions, i, 3, parallel);
      var action := actions[i];
      if action.Interrupt? && interrupt.None? {
        interrupt := Some(action);
      } else if action.Halt? && halt.None? {
        halt := Some(action);
      } else if action.Goto? && goto.None? {
        goto := Some(action);
      } else if action.Parallel? && parallel.None? {
        parallel := Some(action);
      }
    }
    d := if interrupt.Some? then interrupt else if halt.Some? then halt else if goto.Some? then goto else parallel;
  }

  lemma HoldsNext(actions: seq<Action>, n: nat, rank: nat, slot: Option<Action>)
    requires n < |actions| && Holds(actions, n, rank, slot)
    ensures Holds(actions, n + 1, rank, if Rank(actions[n]) == rank && slot.None? then Some(actions[n]) else slot)
  {
    if Rank(actions[n]) == rank && slot.None? { assert IsFirst(actions, n); }
  }

  /** The rule leaves exactly one decision. */
  lemma DecisionIsUnique(actions: seq<Action>, d: Option<Action>, e: Option<Action>)
    requires Decides(actions, d) && Decides(actions, e)
    ensures d == e
  {
    if d.Some? && e.Some? {
      var i: nat :| IsFirst(actions, i) && d.value == actions[i];
      var j: nat :| IsFirst(actions, j) && e.value == actions[j];
      assert d.value in actions && e.value in actions;
    }
  }

  /** A single routing action is the decision. */
  lemma OneActionDecides(a: Action, d: Option<Action>)
    requires !a.SideEffect?
    ensures Decides([a], d) <==> d == Some(a)
  {
    assert IsFirst([a], 0);
    assert a in [a];
  }

  /** None of the kinds asked for is among the actions. */
  predicate NoneOf(actions: seq<Action>, interrupts: bool, halts: bool, gotos: bool) {
    forall a <- actions :: !(interrupts && a.Interrupt?) && !(halts && a.Halt?) && !(gotos && a.Goto?)
  }

  /** Action `i` is the first of its kind, and no stronger kind was fired. */
  predicate Chosen(actions: seq<Action>, i: nat) {
    && i < |actions|
    && match actions[i]
       case Interrupt(_) => forall j :: 0 <= j < i ==> !actions[j].Interrupt?
       case Halt(_) => NoneOf(actions, true, false, false) && forall j :: 0 <= j < i ==> !actions[j].Halt?
       case Goto(_) => NoneOf(actions, true, true, false) && forall j :: 0 <= j < i ==> !actions[j].Goto?
       case Parallel(_) => NoneOf(actions, true, true, true) && forall j :: 0 <= j < i ==> !actions[j].Parallel?
       case SideEffect(_) => false
  }

  lemma ChosenExactly(actions: seq<Action>, i: nat)
    requires i < |actions|
    ensures Chosen(actions, i) <==>
              !actions[i].SideEffect? && IsFirst(actions, i) && forall b <- actions :: Rank(actions[i]) <= Rank(b)
  {
    assert actions[i] in actions;
  }

  /** The precedence kind by kind: interrupt over halt over goto over parallel, and the first of its kind. */
  lemma PrecedenceExactly(actions: seq<Action>, d: Option<Action>)
    ensures Decides(actions, d) <==>
              match d
              case None => forall a <- actions :: a.SideEffect?
              case Some(a) => exists i: nat :: Chosen(actions, i) && actions[i] == a
  {
    forall i: nat | i < |actions|
      ensures Chosen(actions, i) <==>
                !actions[i].SideEffect? && IsFirst(actions, i) && forall b <- actions :: Rank(actions[i]) <= Rank(b)
    {
      ChosenExactly(actions, i);
    }
  }
}
