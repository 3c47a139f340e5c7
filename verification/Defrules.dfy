/** Whole rules: printing an IR rule as a `defrule`, and reading such text back. */
module Defrules {
  import opened Wrappers
  import opened Actions
  import opened RuleText

  const DEFRULE := "defrule"
  const ASSERT := "assert"
  const ACTION := "stargraph_action"
  const KIND := "kind"
  const TARGET := "target"
  const REASON := "reason"
  const RULE_ID := "rule_id"

  /** An IR rule: its id, its left-hand side and its actions. */
  datatype Rule = Rule(id: string, when: When, actions: seq<Action>)

  /** One slot of an asserted action fact. */
  datatype Slot = Slot(name: string, kind: Kind, value: string)

  /** What the engine holds of a rule: its name, its patterns and the action facts it asserts. */
  datatype Read = Read(name: string, patterns: seq<Pattern>, facts: seq<seq<Slot>>)

  // ------------------------------------------------------------------- printing

  /** The action fact a rule asserts; the other kinds of action cannot be routed live. */
  function SlotsOf(a: Action, id: string): Option<seq<Slot>> {
    match a
    case Goto(target) => Some([Slot(KIND, Name, "goto"), Slot(TARGET, Quoted, target), Slot(RULE_ID, Quoted, id)])
    case Halt(reason) => Some([Slot(KIND, Name, "halt"), Slot(REASON, Quoted, reason), Slot(RULE_ID, Quoted, id)])
    case _ => None
  }

  function ValueText(s: Slot): string {
    if s.kind == Quoted then "\"" + (ClipsString(s.value) + "\"") else s.value
  }

  function SlotText(s: Slot): string { Wrap(s.name, " ", ValueText(s) + ")") }

  function SlotTexts(slots: seq<Slot>): seq<string> {
    if slots == [] then [] else [SlotText(slots[0])] + SlotTexts(slots[1..])
  }

  function AssertText(slots: seq<Slot>): string {
    Wrap(ASSERT, " ", Wrap(ACTION, " ", Join(SlotTexts(slots)) + "))"))
  }

  function AssertTexts(facts: seq<seq<Slot>>): seq<string> {
    if facts == [] then [] else [AssertText(facts[0])] + AssertTexts(facts[1..])
  }

  function DefruleText(id: string, lhs: string, facts: seq<seq<Slot>>): string {
    Wrap(DEFRULE, " ", id + (" " + (lhs + (" => " + (Join(AssertTexts(facts)) + ")")))))
  }

  /** The facts of all actions, or None when one of them cannot be routed live. */
  function FactsOf(actions: seq<Action>, id: string): Option<seq<seq<Slot>>> {
    if actions == [] then Some([])
    else
      var n := |actions| - 1;
      match FactsOf(actions[..n], id)
      case None => None
      case Some(facts) =>
        match SlotsOf(actions[n], id)
        case None => None
        case Some(slots) => Some(facts + [slots])
  }

  datatype Compiled = Defined(text: string) | Skipped | Refused(error: Error)

  function Defrule(rule: Rule): Compiled {
    match FactsOf(rule.actions, rule.id)
    case None => Skipped
    case Some(facts) =>
      match PrintWhen(rule.when)
      case Err(e) => Refused(e)
      case Ok(lhs) => Defined(DefruleText(rule.id, lhs, facts))
  }

  method CompileRule(rule: Rule) returns (c: Compiled)
    ensures c == Defrule(rule)
  {
    var rhs: seq<seq<Slot>> := [];
    for i := 0 to |rule.actions|
      invariant FactsOf(rule.actions[..i], rule.id) == Some(rhs)
    {
      assert rule.actions[..i + 1][..i] == rule.actions[..i];
      var slots := SlotsOf(rule.actions[i], rule.id);
      if slots.None? {
        StaysSkipped(rule.actions, rule.id, i + 1);
        return Skipped;
      }
      rhs := rhs + [slots.value];
    }
    assert rule.actions[..|rule.actions|] == rule.actions;
    var lhs := CompileWhen(rule.when);
    if lhs.Err? { return Refused(lhs.error); }
    c := Defined(DefruleText(rule.id, lhs.value, rhs));
  }

  lemma JoinThree(a: string, b: string, c: string)
    ensures Join([a, b, c]) == a + (" " + (b + (" " + c)))
  {
    assert [a, b, c][1..] == [b, c] && [b, c][1..] == [c];
    assert Join([b, c]) == b + " " + c;
  }

  lemma SlotInFront(x: Slot, rest: seq<Slot>)
    ensures SlotTexts([x] + rest) == [SlotText(x)] + SlotTexts(rest)
  {
    assert ([x] + rest)[1..] == rest;
  }

  lemma ThreeSlots(x: Slot, y: Slot, z: Slot)
    ensures Join(SlotTexts([x, y, z])) == SlotText(x) + (" " + (SlotText(y) + (" " + SlotText(z))))
  {
    hide SlotText;
    SlotInFront(z, []);
    SlotInFront(y, [z]);
    SlotInFront(x, [y, z]);
    assert [y] + [z] == [y, z] && [x] + [y, z] == [x, y, z] && [z] + [] == [z];
    assert SlotTexts([]) == [];
    var a, b, c := SlotText(x), SlotText(y), SlotText(z);
    assert [c] + [] == [c] && [b] + [c] == [b, c] && [a] + [b, c] == [a, b, c];
    JoinThree(a, b, c);
  }

  lemma TwoWords(p: string, q: string, tail: string)
    ensures p + (q + tail) == (p + q) + tail
  {
  }

  lemma AssertSpelled(x: string)
    ensures Wrap(ASSERT, " ", Wrap(ACTION, " ", x)) == "(assert (stargraph_action " + x
  {
    var p, q := "(" + ASSERT + " ", "(" + ACTION + " ";
    TwoWords(p, q, x);
    var a, b, c := "(assert ", "(stargraph_action ", "(assert (stargraph_action ";
    assert p == a && q == b && a + b == c;
  }

  lemma OneAssert(slots: seq<Slot>)
    ensures Join(AssertTexts([slots])) == "(assert (stargraph_action " + (Join(SlotTexts(slots)) + "))")
  {
    hide Wrap;
    assert [slots][1..] == [] && AssertTexts([]) == [] && AssertTexts([slots]) == [AssertText(slots)] + [];
    assert [AssertText(slots)] + [] == [AssertText(slots)];
    AssertSpelled(Join(SlotTexts(slots)) + "))");
  }

  lemma WordSlotSpelled(name: string, value: string)
    ensures SlotText(Slot(name, Name, value)) == "(" + (name + (" " + (value + ")")))
  {
  }

  lemma TextSlotSpelled(name: string, value: string)
    ensures SlotText(Slot(name, Quoted, value)) == "(" + (name + (" " + ("\"" + (ClipsString(value) + ("\"" + ")")))))
  {
    var q, c := ("\"" + (ClipsString(value) + "\"")), "\"" + (ClipsString(value) + ("\"" + ")"));
    assert q + ")" == c;
    hide ClipsString;
  }

  /** An asserted fact: its kind, a word, and two texts in quotes, escaped. */
  function FactText(kind: string, key: string, text: string, id: string): string {
    "(assert (stargraph_action "
    + (("(" + ("kind" + (" " + (kind + ")"))))
       + (" " + (("(" + (key + (" " + ("\"" + (ClipsString(text) + ("\"" + ")"))))))
                 + (" " + ("(" + ("rule_id" + (" " + ("\"" + (ClipsString(id) + ("\"" + ")"))))))))))
    + "))"
  }

  lemma FactSpelled(kind: string, key: string, text: string, id: string)
    ensures Join(AssertTexts([[Slot(KIND, Name, kind), Slot(key, Quoted, text), Slot(RULE_ID, Quoted, id)]]))
         == FactText(kind, key, text, id)
  {
    var x, y, z := Slot(KIND, Name, kind), Slot(key, Quoted, text), Slot(RULE_ID, Quoted, id);
    hide SlotText;
    hide Join;
    hide SlotTexts;
    hide ClipsString;
    OneAssert([x, y, z]);
    ThreeSlots(x, y, z);
    WordSlotSpelled(KIND, kind);
    TextSlotSpelled(key, text);
    TextSlotSpelled(RULE_ID, id);
    var head, body, end := "(assert (stargraph_action ", Join(SlotTexts([x, y, z])), "))";
    assert head + (body + end) == head + body + end;
  }

  /** What a goto and a halt assert, as the engine is given it. */
  lemma ActionsSpelled(text: string, id: string)
    ensures SlotsOf(Goto(text), id).Some? && SlotsOf(Halt(text), id).Some?
    ensures Join(AssertTexts([SlotsOf(Goto(text), id).value])) == FactText("goto", "target", text, id)
    ensures Join(AssertTexts([SlotsOf(Halt(text), id).value])) == FactText("halt", "reason", text, id)
  {
    hide FactText;
    hide Join;
    hide AssertTexts;
    FactSpelled("goto", TARGET, text, id);
    FactSpelled("halt", REASON, text, id);
  }

  lemma {:induction false} StaysSkipped(actions: seq<Action>, id: string, i: nat)
    requires i <= |actions| && FactsOf(actions[..i], id).None?
    ensures FactsOf(actions, id).None?
    decreases |actions|
  {
    if i < |actions| {
      assert actions[..|actions| - 1][..i] == actions[..i];
      StaysSkipped(actions[..|actions| - 1], id, i);
    } else {
      assert actions[..i] == actions;
    }
  }

  /** A rule is skipped exactly if it has an action that is neither a goto nor a halt. */
  lemma {:induction false} SkippedExactly(actions: seq<Action>, id: string)
    ensures FactsOf(actions, id).None? <==> exists a <- actions :: !a.Goto? && !a.Halt?
  {
    if actions != [] {
      var n := |actions| - 1;
      SkippedExactly(actions[..n], id);
      assert actions == actions[..n] + [actions[n]];
    }
  }

  /** A rule with such an action is skipped whatever its mapping; of the others those are refused whose mapping is. */
  lemma CompiledExactly(rule: Rule, e: Error)
    ensures Defrule(rule).Skipped? <==> exists a <- rule.actions :: !a.Goto? && !a.Halt?
    ensures Defrule(rule) == Refused(e) <==>
              (forall a <- rule.actions :: a.Goto? || a.Halt?) && PrintWhen(rule.when) == Err(e)
  {
    SkippedExactly(rule.actions, rule.id);
    hide PrintWhen;
    hide FactsOf;
    hide DefruleText;
  }

  // -------------------------------------------------------------------- reading

  function ReadSlotItem(s: string): (r: Option<(Slot, string)>)
    ensures r.Some? ==> |r.value.1| < |s|
  {
    match ReadSlot(s)
    case None => None
    case Some((name, kind, value, rest)) => Some((Slot(name, kind, value), rest))
  }

  function ReadAssert(s: string): Option<(seq<Slot>, string)> {
    match ReadOpen(s)
    case None => None
    case Some((word, inner)) =>
      if word != ASSERT then None
      else
        match ReadOpen(inner)
        case None => None
        case Some((template, body)) =>
          if template != ACTION then None
          else
            match ReadMany(ReadSlotItem, body)
            case None => None
            case Some((slots, end)) => ReadCloses(slots, end)
  }

  function ReadCloses<T>(x: T, s: string): Option<(T, string)> {
    match ReadClose(s)
    case None => None
    case Some(t) =>
      match ReadClose(t)
      case None => None
      case Some(u) => Some((x, u))
  }

  predicate Arrow(s: string) { |s| >= 2 && s[0] == '=' && s[1] == '>' }

  /** The part of a rule after its name. */
  function ReadBody(name: string, s: string): Option<Read> {
    match ReadPatterns(s)
    case None => None
    case Some((patterns, t)) =>
      if !Arrow(t) then None
      else
        match ReadMany(ReadAssert, t[2..])
        case None => None
        case Some((facts, u)) =>
          match ReadClose(u)
          case None => None
          case Some(v) => if Skip(v) == [] then Some(Read(name, patterns, facts)) else None
  }

  /** A rule is read exactly as far as its closing parenthesis; its name must be a symbol. */
  function ReadRule(s: string): Option<Read> {
    match ReadOpen(s)
    case None => None
    case Some((word, t)) =>
      var n := Run(t, SymbolChar);
      if word != DEFRULE || n == 0 || Numeral(t[..n]) then None else ReadBody(t[..n], t[n..])
  }

  // ----------------------------------------------------------------- round trip

  /** A slot that can be printed and read: its name is a symbol, an unquoted value a name. */
  predicate Printable(s: Slot) {
    && s.name != [] && AllIn(s.name, SymbolChar)
    && (s.kind != Quoted ==> s.kind == Name && s.value != [] && AllIn(s.value, SymbolChar) && !Numeral(s.value))
  }

  lemma QuotedSlotText(s: Slot, after: string)
    requires s.kind == Quoted
    ensures SlotText(s) + after == Wrap(s.name, " ", "\"" + (ClipsString(s.value) + "\"" + (")" + after)))
  {
  }

  lemma WordSlotText(s: Slot, after: string)
    requires s.kind != Quoted
    ensures SlotText(s) + after == Wrap(s.name, " ", s.value + ("" + (")" + after)))
  {
  }

  lemma SlotReads(s: Slot, after: string)
    requires Printable(s)
    ensures ReadSlotItem(SlotText(s) + after) == Some((s, after))
  {
    if s.kind == Quoted {
      QuotedSlotText(s, after);
      hide Wrap;
      hide ReadSlot;
      QuotedSlotReads(s.name, s.value, after);
    } else {
      WordSlotText(s, after);
      hide Wrap;
      hide ReadSlot;
      WordSlotReads(s.name, s.value, "", after);
    }
  }

  lemma SlotStarts(s: Slot)
    ensures SlotText(s) != [] && SlotText(s)[0] == '('
  {
    WrapStarts(s.name, ValueText(s) + ")");
  }

  lemma {:induction false} SlotsRead(slots: seq<Slot>, suffix: string)
    requires Ends(suffix) && forall s <- slots :: Printable(s)
    ensures ReadsAs(ReadSlotItem, SlotTexts(slots), slots, suffix)
    ensures ReadMany(ReadSlotItem, Join(SlotTexts(slots)) + suffix) == Some((slots, Skip(suffix)))
  {
    if slots == [] {
      NothingReads(ReadSlotItem, suffix);
    } else {
      var ps := SlotTexts(slots[1..]);
      assert SlotTexts(slots) == [SlotText(slots[0])] + ps;
      assert slots == [slots[0]] + slots[1..];
      SlotStarts(slots[0]);
      hide *;
      SlotsRead(slots[1..], suffix);
      SlotReads(slots[0], Tail(ps) + suffix);
      FrontReads(ReadSlotItem, SlotText(slots[0]), slots[0], ps, slots[1..], suffix);
    }
  }

  lemma TwoCloses<T>(x: T, after: string)
    ensures ReadCloses(x, "))" + after) == Some((x, after))
  {
    assert "))" + after == ")" + (")" + after);
    ReadsPlainClose(")" + after);
    ReadsPlainClose(after);
  }

  lemma ClosesEnd(after: string)
    ensures Ends("))" + after) && Skip("))" + after) == "))" + after
  {
    SkipOver("", "))" + after);
    assert "" + ("))" + after) == "))" + after;
  }

  lemma AssertComposes(s: string, inner: string, body: string, slots: seq<Slot>, end: string, after: string)
    requires ReadOpen(s) == Some((ASSERT, inner)) && ReadOpen(inner) == Some((ACTION, body))
    requires ReadMany(ReadSlotItem, body) == Some((slots, end)) && ReadCloses(slots, end) == Some((slots, after))
    ensures ReadAssert(s) == Some((slots, after))
  {
  }

  lemma WordsAreSymbols()
    ensures DEFRULE != [] && AllIn(DEFRULE, SymbolChar) && ASSERT != [] && AllIn(ASSERT, SymbolChar)
    ensures ACTION != [] && AllIn(ACTION, SymbolChar)
  {
  }

  lemma NestedOpens(a: string, b: string, body: string)
    requires a != [] && AllIn(a, SymbolChar) && b != [] && AllIn(b, SymbolChar) && body != [] && body[0] == '('
    ensures ReadOpen(Wrap(a, " ", Wrap(b, " ", body))) == Some((a, Wrap(b, " ", body)))
    ensures ReadOpen(Wrap(b, " ", body)) == Some((b, body))
  {
    WrapStarts(b, body);
    ReadsOpen(b, " ", body);
    ReadsOpen(a, " ", Wrap(b, " ", body));
  }

  lemma NestText(a: string, b: string, x: string, after: string)
    ensures Wrap(a, " ", Wrap(b, " ", x + "))")) + after == Wrap(a, " ", Wrap(b, " ", x + ("))" + after)))
  {
  }

  lemma AssertReads(slots: seq<Slot>, after: string)
    requires slots != [] && forall s <- slots :: Printable(s)
    ensures ReadAssert(AssertText(slots) + after) == Some((slots, after))
  {
    var x := Join(SlotTexts(slots));
    var body := x + ("))" + after);
    WordsAreSymbols();
    ClosesEnd(after);
    SlotsRead(slots, "))" + after);
    TwoCloses(slots, after);
    StartsJoined(slots);
    NestText(ASSERT, ACTION, x, after);
    NestedOpens(ASSERT, ACTION, body);
    AssertComposes(AssertText(slots) + after, Wrap(ACTION, " ", body), body, slots, "))" + after, after);
  }

  lemma StartsJoined(slots: seq<Slot>)
    requires slots != []
    ensures var t := Join(SlotTexts(slots)); t != [] && t[0] == '('
  {
    JoinTail(SlotText(slots[0]), SlotTexts(slots[1..]));
    WrapStarts(slots[0].name, ValueText(slots[0]) + ")");
  }

  lemma AssertStarts(slots: seq<Slot>)
    ensures AssertText(slots) != [] && AssertText(slots)[0] == '('
  {
    WrapStarts(ASSERT, Wrap(ACTION, " ", Join(SlotTexts(slots)) + "))"));
  }

  lemma TailFacts(facts: seq<seq<Slot>>)
    requires PrintableFacts(facts) && facts != []
    ensures PrintableFacts(facts[1..]) && facts[0] != [] && (forall s <- facts[0] :: Printable(s)) &&
              facts == [facts[0]] + facts[1..]
  {
    assert facts[0] in facts && forall f <- facts[1..] :: f in facts;
  }

  predicate PrintableFacts(facts: seq<seq<Slot>>) { forall f <- facts :: f != [] && forall s <- f :: Printable(s) }

  lemma {:induction false} AssertsRead(facts: seq<seq<Slot>>, suffix: string)
    requires Ends(suffix) && PrintableFacts(facts)
    ensures ReadsAs(ReadAssert, AssertTexts(facts), facts, suffix)
    ensures ReadMany(ReadAssert, Join(AssertTexts(facts)) + suffix) == Some((facts, Skip(suffix)))
  {
    if facts == [] {
      NothingReads(ReadAssert, suffix);
    } else {
      var ps := AssertTexts(facts[1..]);
      TailFacts(facts);
      AssertsRead(facts[1..], suffix);
      AssertReads(facts[0], Tail(ps) + suffix);
      AssertStarts(facts[0]);
      FrontReads(ReadAssert, AssertText(facts[0]), facts[0], ps, facts[1..], suffix);
    }
  }

  lemma BodyComposes(name: string, s: string, patterns: seq<Pattern>, t: string, facts: seq<seq<Slot>>, u: string)
    requires ReadPatterns(s) == Some((patterns, t)) && Arrow(t)
    requires ReadMany(ReadAssert, t[2..]) == Some((facts, u)) && ReadClose(u) == Some("")
    ensures ReadBody(name, s) == Some(Read(name, patterns, facts))
  {
    assert Skip("") == [];
  }

  /** What follows the left-hand side: the arrow, the facts, and the end of the rule. */
  function RightSide(facts: seq<seq<Slot>>): string { " => " + (Join(AssertTexts(facts)) + ")") }

  lemma ArrowSkips(rest: string)
    ensures Skip(" => " + rest) == "=> " + rest && Ends(" => " + rest)
    ensures Arrow("=> " + rest) && ("=> " + rest)[2..] == " " + rest
  {
    assert " => " + rest == " " + ("=> " + rest);
    SkipOver(" ", "=> " + rest);
  }

  lemma RightSideReads(facts: seq<seq<Slot>>)
    requires PrintableFacts(facts)
    ensures ReadMany(ReadAssert, " " + (Join(AssertTexts(facts)) + ")")) == Some((facts, ")")) &&
              ReadClose(")") == Some("")
  {
    var all := Join(AssertTexts(facts)) + ")";
    ReadsPlainClose("");
    assert ")" + "" == ")" && "" + ")" == ")";
    SkipOver("", ")");
    AssertsRead(facts, ")");
    ManySkips(ReadAssert, " ", all);
  }

  lemma BodyReads(name: string, space: string, conds: seq<Cond>, facts: seq<seq<Slot>>)
    requires AllIn(space, IsSpace) && PrintWhen(Sugar(conds)).Ok? && PrintableFacts(facts)
    ensures ReadBody(name, space + (PrintWhen(Sugar(conds)).value + RightSide(facts)))
              == Some(Read(name, Expected(conds), facts))
  {
    var lhs, rest := PrintWhen(Sugar(conds)).value, Join(AssertTexts(facts)) + ")";
    ArrowSkips(rest);
    PrintedReadsBack(conds, RightSide(facts));
    ManySkips(ReadPattern, space, lhs + RightSide(facts));
    RightSideReads(facts);
    BodyComposes(name, space + (lhs + RightSide(facts)), Expected(conds), "=> " + rest, facts, ")");
  }

  /** An id that is one symbol, a final newline apart. */
  predicate RuleName(id: string) { Chomp(id) != [] && AllIn(Chomp(id), SymbolChar) && !Numeral(Chomp(id)) }

  lemma OpensName(word: string, name: string, rest: string)
    requires word != [] && AllIn(word, SymbolChar) && name != [] && AllIn(name, SymbolChar) && rest != [] &&
               !SymbolChar(rest[0])
    ensures ReadOpen(Wrap(word, " ", name + rest)) == Some((word, name + rest))
    ensures Run(name + rest, SymbolChar) == |name| && (name + rest)[..|name|] == name && (name + rest)[|name|..] == rest
  {
    assert (name + rest)[0] == name[0] && SymbolChar(name[0]);
    ReadsOpen(word, " ", name + rest);
    RunOf(name, rest, SymbolChar);
  }

  lemma RuleComposes(s: string, name: string, rest: string)
    requires ReadOpen(s) == Some((DEFRULE, name + rest)) && name != [] && !Numeral(name)
    requires Run(name + rest, SymbolChar) == |name| && (name + rest)[..|name|] == name &&
               (name + rest)[|name|..] == rest
    ensures ReadRule(s) == ReadBody(name, rest)
  {
  }

  lemma HeadReads(id: string, body: string)
    requires RuleName(id) && body != [] && IsSpace(body[0])
    ensures ReadRule(Wrap(DEFRULE, " ", id + body)) == ReadBody(Chomp(id), Newline(id) + body)
  {
    var name, rest := Chomp(id), Newline(id) + body;
    ChompAndNewline(id);
    WordsAreSymbols();
    assert id + body == name + rest;
    assert rest[0] == (if Newline(id) == [] then body[0] else '\n');
    OpensName(DEFRULE, name, rest);
    RuleComposes(Wrap(DEFRULE, " ", name + rest), name, rest);
  }

  /**
   * Round trip of a whole rule: reading the printed text gives the rule's name, the
   * patterns of its mapping and the facts of its actions.
   */
  lemma RuleReadsBack(id: string, conds: seq<Cond>, facts: seq<seq<Slot>>)
    requires RuleName(id) && PrintWhen(Sugar(conds)).Ok? && PrintableFacts(facts)
    ensures ReadRule(DefruleText(id, PrintWhen(Sugar(conds)).value, facts))
              == Some(Read(Chomp(id), Expected(conds), facts))
  {
    var lhs := PrintWhen(Sugar(conds)).value;
    var body := " " + (lhs + RightSide(facts));
    ChompAndNewline(id);
    HeadReads(id, body);
    assert Newline(id) + body == (Newline(id) + " ") + (lhs + RightSide(facts));
    BodyReads(Chomp(id), Newline(id) + " ", conds, facts);
  }

  lemma NoArrowNoBody(name: string, s: string)
    requires Skip(s) != [] && Skip(s)[0] != '(' && Skip(s)[0] != '='
    ensures ReadBody(name, s).None?
  {
  }

  /** An id with a space in it does not print a rule at all, for a reader without pattern bindings. */
  lemma SpacedIdIsNoRule(a: string, b: string, lhs: string, facts: seq<seq<Slot>>)
    requires a != [] && AllIn(a, SymbolChar) && b != [] && SymbolChar(b[0]) && b[0] != '='
    ensures ReadRule(DefruleText(a + " " + b, lhs, facts)).None?
  {
    var rest := " " + (b + (" " + (lhs + RightSide(facts))));
    WordsAreSymbols();
    assert DefruleText(a + " " + b, lhs, facts) == Wrap(DEFRULE, " ", a + rest);
    hide DefruleText;
    hide RightSide;
    hide Wrap;
    OpensName(DEFRULE, a, rest);
    SkipOver(" ", b + (" " + (lhs + RightSide(facts))));
    if !Numeral(a) {
      RuleComposes(Wrap(DEFRULE, " ", a + rest), a, rest);
      NoArrowNoBody(a, rest);
    }
  }

  // -------------------------------------------------------------- action facts

  function SlotValue(slots: seq<Slot>, name: string): Option<Slot> {
    if slots == [] then None else if slots[0].name == name then Some(slots[0]) else SlotValue(slots[1..], name)
  }

  function TextOf(s: Option<Slot>): string { if s.None? then "" else s.value.value }

  /** The action a fact stands for, by its kind; unknown kinds are refused. */
  function ActionOfFact(slots: seq<Slot>): Option<Action> {
    var kind := TextOf(SlotValue(slots, KIND));
    if kind == "goto" then Some(Goto(TextOf(SlotValue(slots, TARGET))))
    else if kind == "halt" then Some(Halt(TextOf(SlotValue(slots, REASON))))
    else None
  }

  function RuleIdOf(slots: seq<Slot>): string { TextOf(SlotValue(slots, RULE_ID)) }

  lemma NotNumeral(w: string)
    requires w != [] && !IsNumeric(w[0]) && !IsSign(w[0]) && w[0] != '.'
    ensures !Numeral(w)
  {
  }

  lemma QuotedPrints(name: string, value: string)
    requires name != [] && AllIn(name, SymbolChar)
    ensures Printable(Slot(name, Quoted, value))
  {
  }

  lemma NamePrints(name: string, value: string)
    requires name != [] && AllIn(name, SymbolChar) && value != [] && AllIn(value, SymbolChar)
    requires !IsNumeric(value[0]) && !IsSign(value[0]) && value[0] != '.'
    ensures Printable(Slot(name, Name, value))
  {
    NotNumeral(value);
  }

  lemma SlotOfThree(a: Slot, b: Slot, c: Slot)
    requires a.name != b.name && a.name != c.name && b.name != c.name
    ensures var s := [a, b, c];
            && SlotValue(s, a.name) == Some(a) && SlotValue(s, b.name) == Some(b) && SlotValue(s, c.name) == Some(c)
  {
    var s := [a, b, c];
    assert s[1..] == [b, c] && [b, c][1..] == [c];
    assert SlotValue([c], c.name) == Some(c) && SlotValue([b, c], c.name) == Some(c);
  }

  /** The words of an action fact. */
  lemma SlotWords(word: string)
    requires word in [KIND, TARGET, REASON, RULE_ID, "goto", "halt"]
    ensures word != [] && AllIn(word, SymbolChar) && 'a' <= word[0] <= 'z'
  {
    var w := word;
    assert AllIn(w, SymbolChar);
  }

  lemma ThreePrint(a: Slot, b: Slot, c: Slot)
    requires Printable(a) && Printable(b) && Printable(c)
    ensures forall s <- [a, b, c] :: Printable(s)
  {
  }

  /** The fact of a live action prints, reads back, and stands for the action and the rule that asserted it. */
  lemma FactRecovers(a: Action, id: string)
    requires SlotsOf(a, id).Some?
    ensures var slots := SlotsOf(a, id).value;
            && slots != [] && (forall s <- slots :: Printable(s))
            && ActionOfFact(slots) == Some(a) && RuleIdOf(slots) == id
  {
    var verb := if a.Goto? then "goto" else "halt";
    var key := if a.Goto? then TARGET else REASON;
    var value := if a.Goto? then a.target else a.reason;
    var x, y, z := Slot(KIND, Name, verb), Slot(key, Quoted, value), Slot(RULE_ID, Quoted, id);
    SlotWords(KIND);
    SlotWords(key);
    SlotWords(RULE_ID);
    SlotWords(verb);
    NamePrints(KIND, verb);
    QuotedPrints(key, value);
    QuotedPrints(RULE_ID, id);
    ThreePrint(x, y, z);
    SlotOfThree(x, y, z);
  }
}
