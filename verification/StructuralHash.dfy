/**
 * The structural hash: the payload built from a document, the float check, and the
 * normal form handed to the canonical JSON encoder.
 */
module StructuralHash {
  import opened Wrappers
  import opened Ordering
  import opened Decimals

  /** Payload values. An object is a map: the encoder sorts its keys. */
  datatype Json =
    | Null
    | Bool(b: bool)
    | Int(n: int)
    | Float(x: real)
    | Str(s: string)
    | List(items: seq<Json>)
    | Tuple(items: seq<Json>)
    | Obj(fields: map<string, Json>)

  const TOPOLOGY := "topology"
  const NODES := "nodes"
  const EDGES := "edges"

  // ------------------------------------------------------------------- integers

  const INT_MAX := 9007199254740991

  /** Outside the integers RFC 7493 section 2.2 lets a JSON number carry exactly. */
  predicate Big(n: int) { n > INT_MAX || n < -INT_MAX }

  function Printed(n: int): string { if n < 0 then "-" + Digits(-n) else Digits(n) }

  function Tag(n: int): string { "__stargraph_bigint__:" + Printed(n) }

  lemma PrintedApart(n: int, m: int)
    ensures Printed(n) == Printed(m) <==> n == m
  {
    assert IsDigit(Digits(if n < 0 then -n else n)[0]) && IsDigit(Digits(if m < 0 then -m else m)[0]);
    if n < 0 && m < 0 {
      assert Printed(n)[1..] == Digits(-n) && Printed(m)[1..] == Digits(-m);
      DigitsApart(-n, -m);
    } else if n >= 0 && m >= 0 {
      DigitsApart(n, m);
    }
  }

  lemma TagApart(prefix: string, a: string, b: string)
    ensures prefix + a == prefix + b <==> a == b
  {
    assert (prefix + a)[|prefix|..] == a && (prefix + b)[|prefix|..] == b;
  }

  // -------------------------------------------------------------- normalisation

  /** Items compare as they print. */
  function ByText(text: Json -> string): (Json, Json) -> bool { (a, b) => StringLeq(text(a), text(b)) }

  datatype Edge = Edge(src: string, dst: string, port: string)

  /** Tuples of strings compare slot by slot. */
  predicate EdgeLeq(a: Edge, b: Edge) {
    if a.src != b.src then StringLeq(a.src, b.src)
    else if a.dst != b.dst then StringLeq(a.dst, b.dst)
    else StringLeq(a.port, b.port)
  }

  function EdgeSortKey(text: Json -> string, e: Json): Edge {
    if (e.List? || e.Tuple?) && |e.items| >= 3 then Edge(text(e.items[0]), text(e.items[1]), text(e.items[2]))
    else if (e.List? || e.Tuple?) && |e.items| == 2 then Edge(text(e.items[0]), text(e.items[1]), "")
    else Edge(text(e), "", "")
  }

  function ByEdge(text: Json -> string): (Json, Json) -> bool {
    (a, b) => EdgeLeq(EdgeSortKey(text, a), EdgeSortKey(text, b))
  }

  /** The order in which a topology entry's list is put; other entries keep theirs. */
  function OrderFor(text: Json -> string, key: string): Option<(Json, Json) -> bool> {
    if key == NODES then Some(ByText(text)) else if key == EDGES then Some(ByEdge(text)) else None
  }

  function Arrange(order: Option<(Json, Json) -> bool>, v: Json): Json {
    if v.List? && order.Some? then List(StableSort(order.value, v.items)) else v
  }

  /** `text` is Python's `str`. */
  function Normalize(text: Json -> string, v: Json): Json {
    match v
    case Int(n) => if Big(n) then Str(Tag(n)) else v
    case List(items) => List(seq(|items|, i requires 0 <= i < |items| => Normalize(text, items[i])))
    case Obj(fields) =>
      Obj(map k | k in fields ::
        if k == TOPOLOGY && fields[k].Obj? then
          Obj(map t | t in fields[k].fields :: Arrange(OrderFor(text, t), Normalize(text, fields[k].fields[t])))
        else Normalize(text, fields[k]))
    case _ => v
  }

  function NormalizeAll(text: Json -> string, items: seq<Json>): seq<Json> {
    seq(|items|, i requires 0 <= i < |items| => Normalize(text, items[i]))
  }

  function NormalizeTopology(text: Json -> string, fields: map<string, Json>): map<string, Json> {
    map t | t in fields :: Arrange(OrderFor(text, t), Normalize(text, fields[t]))
  }

  function NormalizeField(text: Json -> string, k: string, v: Json): Json {
    if k == TOPOLOGY && v.Obj? then Obj(NormalizeTopology(text, v.fields)) else Normalize(text, v)
  }

  lemma NormalObj(text: Json -> string, fields: map<string, Json>)
    ensures Normalize(text, Obj(fields)) == Obj(map k | k in fields :: NormalizeField(text, k, fields[k]))
  {
  }

  method NormalizeValue(text: Json -> string, v: Json) returns (r: Json)
    ensures r == Normalize(text, v)
    decreases v, 1
  {
    if v.Int? && Big(v.n) { return Str(Tag(v.n)); }
    if v.Obj? {
      var out: map<string, Json> := map[];
      var todo := v.fields.Keys;
      while todo != {}
        invariant todo <= v.fields.Keys
        invariant out == map k | k in v.fields.Keys - todo :: NormalizeField(text, k, v.fields[k])
      {
        var k :| k in todo;
        todo := todo - {k};
        var w := v.fields[k];
        if k == TOPOLOGY && w.Obj? {
          var topo := NormalizeTopologyValue(text, w);
          out := out[k := Obj(topo)];
        } else {
          var n := NormalizeValue(text, w);
          out := out[k := n];
        }
      }
      NormalObj(text, v.fields);
      return Obj(out);
    }
    if v.List? {
      var items := NormalizeItems(text, v);
      return List(items);
    }
    return v;
  }

  method NormalizeItems(text: Json -> string, v: Json) returns (items: seq<Json>)
    requires v.List?
    ensures items == NormalizeAll(text, v.items)
    decreases v, 0
  {
    items := [];
    for i := 0 to |v.items|
      invariant items == NormalizeAll(text, v.items[..i])
    {
      var n := NormalizeValue(text, v.items[i]);
      items := items + [n];
    }
    assert v.items[..|v.items|] == v.items;
  }

  method NormalizeTopologyValue(text: Json -> string, v: Json) returns (topo: map<string, Json>)
    requires v.Obj?
    ensures topo == NormalizeTopology(text, v.fields)
    decreases v, 0
  {
    topo := map[];
    var todo := v.fields.Keys;
    while todo != {}
      invariant todo <= v.fields.Keys
      invariant topo == map t | t in v.fields.Keys - todo :: Arrange(OrderFor(text, t), Normalize(text, v.fields[t]))
    {
      var t :| t in todo;
      todo := todo - {t};
      var w := v.fields[t];
      if t == NODES && w.List? {
        var items := NormalizeItems(text, w);
        topo := topo[t := List(StableSort(ByText(text), items))];
      } else if t == EDGES && w.List? {
        var items := NormalizeItems(text, w);
        topo := topo[t := List(StableSort(ByEdge(text), items))];
      } else {
        var n := NormalizeValue(text, w);
        topo := topo[t := n];
      }
    }
  }

  // ------------------------------------------------------- what normalising does

  lemma EdgeOrder()
    ensures TotalPreorder(EdgeLeq) && Antisymmetric(EdgeLeq)
  {
    StringOrder();
  }

  lemma OrdersAreTotal(text: Json -> string, key: string)
    ensures OrderFor(text, key).Some? ==> TotalPreorder(OrderFor(text, key).value)
  {
    StringOrder();
    EdgeOrder();
  }

  /** Sorting a list of normal items leaves it normal. */
  lemma ArrangedIsNormal(text: Json -> string, order: Option<(Json, Json) -> bool>, v: Json)
    requires order.Some? ==> TotalPreorder(order.value)
    requires Normalize(text, v) == v
    ensures Normalize(text, Arrange(order, v)) == Arrange(order, v)
    ensures Arrange(order, Arrange(order, v)) == Arrange(order, v)
  {
    if v.List? && order.Some? {
      var sorted := StableSort(order.value, v.items);
      SortSorts(order.value, v.items);
      SortedIsFixed(order.value, sorted);
      forall i | 0 <= i < |sorted| ensures Normalize(text, sorted[i]) == sorted[i] {
        SameItems(sorted, v.items, sorted[i]);
        var j :| 0 <= j < |v.items| && v.items[j] == sorted[i];
        assert Normalize(text, v).items[j] == v.items[j];
      }
      assert NormalizeAll(text, sorted) == sorted;
    }
  }

  lemma {:induction false} TopologyIdempotent(text: Json -> string, v: Json)
    requires v.Obj?
    ensures NormalizeTopology(text, NormalizeTopology(text, v.fields)) == NormalizeTopology(text, v.fields)
    decreases v, 0
  {
    forall t | t in v.fields
      ensures var w := NormalizeTopology(text, v.fields)[t];
              Arrange(OrderFor(text, t), Normalize(text, w)) == w
    {
      NormalizeIdempotent(text, v.fields[t]);
      OrdersAreTotal(text, t);
      ArrangedIsNormal(text, OrderFor(text, t), Normalize(text, v.fields[t]));
    }
  }

  lemma {:induction false} FieldIdempotent(text: Json -> string, k: string, v: Json)
    ensures NormalizeField(text, k, NormalizeField(text, k, v)) == NormalizeField(text, k, v)
    decreases v, 2
  {
    if k == TOPOLOGY && v.Obj? {
      TopologyIdempotent(text, v);
    } else {
      NormalizeIdempotent(text, v);
      assert Normalize(text, v).Obj? ==> v.Obj?;
    }
  }

  /** Normalising twice is normalising once. */
  lemma {:induction false} NormalizeIdempotent(text: Json -> string, v: Json)
    ensures Normalize(text, Normalize(text, v)) == Normalize(text, v)
    decreases v, 1
  {
    match v {
      case List(items) =>
        forall i | 0 <= i < |items| ensures Normalize(text, Normalize(text, items[i])) == Normalize(text, items[i]) {
          NormalizeIdempotent(text, items[i]);
        }
        var once := NormalizeAll(text, items);
        assert NormalizeAll(text, once) == once;
      case Obj(fields) =>
        NormalObj(text, fields);
        var once := Normalize(text, v).fields;
        NormalObj(text, once);
        forall k | k in fields ensures NormalizeField(text, k, once[k]) == once[k] {
          FieldIdempotent(text, k, fields[k]);
        }
      case _ =>
    }
  }

  /** No integer outside the exact range, at any depth. */
  predicate Clean(v: Json) {
    match v
    case Int(n) => !Big(n)
    case List(items) => forall x <- items :: Clean(x)
    case Tuple(items) => forall x <- items :: Clean(x)
    case Obj(fields) => forall k <- fields :: Clean(fields[k])
    case _ => true
  }

  /** The same, but looking only inside tuples. */
  predicate TuplesClean(v: Json) {
    match v
    case List(items) => forall x <- items :: TuplesClean(x)
    case Tuple(items) => Clean(v)
    case Obj(fields) => forall k <- fields :: TuplesClean(fields[k])
    case _ => true
  }

  lemma ArrangeKeepsClean(order: Option<(Json, Json) -> bool>, v: Json)
    requires order.Some? ==> TotalPreorder(order.value)
    ensures Clean(Arrange(order, v)) <==> Clean(v)
  {
    if v.List? && order.Some? {
      var sorted := StableSort(order.value, v.items);
      SortSorts(order.value, v.items);
      forall x ensures x in sorted <==> x in v.items {
        if x in sorted { SameItems(sorted, v.items, x); }
        if x in v.items { SameItems(v.items, sorted, x); }
      }
    }
  }

  lemma {:induction false} TopologyCleanExactly(text: Json -> string, v: Json)
    requires v.Obj?
    ensures Clean(Obj(NormalizeTopology(text, v.fields))) <==> TuplesClean(v)
    decreases v, 0
  {
    var n := NormalizeTopology(text, v.fields);
    forall t | t in v.fields ensures Clean(n[t]) <==> TuplesClean(v.fields[t]) {
      NormalCleanExactly(text, v.fields[t]);
      OrdersAreTotal(text, t);
      ArrangeKeepsClean(OrderFor(text, t), Normalize(text, v.fields[t]));
    }
  }

  /** After normalising, no integer is out of range -- exactly if no tuple holds one: tuples are passed through. */
  lemma {:induction false} NormalCleanExactly(text: Json -> string, v: Json)
    ensures Clean(Normalize(text, v)) <==> TuplesClean(v)
    decreases v, 1
  {
    match v {
      case List(items) =>
        var n := NormalizeAll(text, items);
        forall i | 0 <= i < |items| ensures Clean(n[i]) <==> TuplesClean(items[i]) {
          NormalCleanExactly(text, items[i]);
        }
        assert forall i | 0 <= i < |n| :: n[i] in n;
      case Obj(fields) =>
        NormalObj(text, fields);
        var n := Normalize(text, v).fields;
        forall k | k in fields ensures Clean(n[k]) <==> TuplesClean(fields[k]) {
          if k == TOPOLOGY && fields[k].Obj? {
            TopologyCleanExactly(text, fields[k]);
          } else {
            NormalCleanExactly(text, fields[k]);
          }
        }
      case _ =>
    }
  }

  /** Different integers stay different, tagged or not. */
  lemma IntegersStayApart(text: Json -> string, n: int, m: int)
    ensures Normalize(text, Int(n)) == Normalize(text, Int(m)) <==> n == m
  {
    PrintedApart(n, m);
    TagApart("__stargraph_bigint__:", Printed(n), Printed(m));
  }

  // --------------------------------------------------------------------- floats

  predicate HasFloat(v: Json) {
    match v
    case Float(_) => true
    case List(items) => exists x <- items :: HasFloat(x)
    case Tuple(items) => exists x <- items :: HasFloat(x)
    case Obj(fields) => exists k <- fields :: HasFloat(fields[k])
    case _ => false
  }

  /** `_coerce_schema_floats` */
  function Coerce(text: Json -> string, v: Json): Json {
    match v
    case Float(x) => if x == x.Floor as real then Int(x.Floor) else Str(text(v))
    case List(items) => List(seq(|items|, i requires 0 <= i < |items| => Coerce(text, items[i])))
    case Tuple(items) => List(seq(|items|, i requires 0 <= i < |items| => Coerce(text, items[i])))
    case Obj(fields) => Obj(map k | k in fields :: Coerce(text, fields[k]))
    case _ => v
  }

  lemma ItemsOf(s: seq<Json>, x: Json) returns (i: nat)
    requires x in s
    ensures i < |s| && s[i] == x
  {
    i :| 0 <= i < |s| && s[i] == x;
  }

  /** A coerced schema has no float, and normalising it leaves no integer out of range. */
  lemma {:induction false} CoercedIsHashable(text: Json -> string, v: Json)
    ensures !HasFloat(Coerce(text, v)) && TuplesClean(Coerce(text, v))
  {
    match v {
      case List(items) => CoercedItems(text, v);
      case Tuple(items) => CoercedItems(text, v);
      case Obj(fields) =>
        forall k | k in fields ensures !HasFloat(Coerce(text, fields[k])) && TuplesClean(Coerce(text, fields[k])) {
          CoercedIsHashable(text, fields[k]);
        }
      case _ =>
    }
  }

  lemma {:induction false} CoercedItems(text: Json -> string, v: Json)
    requires v.List? || v.Tuple?
    ensures !HasFloat(Coerce(text, v)) && TuplesClean(Coerce(text, v))
    decreases v, 0
  {
    var out := Coerce(text, v).items;
    forall x | x in out ensures !HasFloat(x) && TuplesClean(x) {
      var i := ItemsOf(out, x);
      CoercedIsHashable(text, v.items[i]);
    }
  }

  // ------------------------------------------------------------------- document

  datatype RuleAction = Goto(target: string) | Parallel(targets: seq<string>) | Retry(target: string) | Other

  datatype RuleSpec = RuleSpec(id: string, actions: seq<RuleAction>)

  datatype NodeSpec = NodeSpec(id: string, schema: Json)

  datatype Requires = Requires(factsVersion: Option<string>, apiVersion: Option<string>)

  datatype PackMount = PackMount(id: string, needs: Option<Requires>)

  datatype Document = Document(nodes: seq<NodeSpec>, rules: seq<RuleSpec>, stateSchema: Json,
           governance: seq<PackMount>)

  datatype Triple = Triple(id: string, facts: Option<string>, api: Option<string>)

  function FlatMap<T, U>(f: T -> seq<U>, s: seq<T>): seq<U> {
    if s == [] then [] else FlatMap(f, s[..|s| - 1]) + f(s[|s| - 1])
  }

  function ActionEdges(id: string): RuleAction -> seq<Edge> {
    (a: RuleAction) =>
      match a
      case Goto(target) => [Edge(id, target, "goto")]
      case Parallel(targets) => seq(|targets|, i requires 0 <= i < |targets| => Edge(id, targets[i], "parallel"))
      case Retry(target) => [Edge(id, target, "retry")]
      case Other => []
  }

  function RuleEdges(): RuleSpec -> seq<Edge> { (r: RuleSpec) => FlatMap(ActionEdges(r.id), r.actions) }

  /** The edges of a document, in the order its rules name them. */
  function EdgesOf(rules: seq<RuleSpec>): seq<Edge> { FlatMap(RuleEdges(), rules) }

  function NodeIds(nodes: seq<NodeSpec>): seq<string> { seq(|nodes|, i requires 0 <= i < |nodes| => nodes[i].id) }

  /** Each node id with its schema. */
  function Signatures(nodes: seq<NodeSpec>): map<string, Json> {
    if nodes == [] then map[]
    else
      var last := nodes[|nodes| - 1];
      Signatures(nodes[..|nodes| - 1])[last.id := last.schema]
  }

  function TripleOf(): PackMount -> seq<Triple> {
    (m: PackMount) => if m.needs.None? then [] else [Triple(m.id, m.needs.value.factsVersion, m.needs.value.apiVersion)]
  }

  function Needed(governance: seq<PackMount>): seq<Triple> { FlatMap(TripleOf(), governance) }

  function ById(): (Triple, Triple) -> bool { (a: Triple, b: Triple) => StringLeq(a.id, b.id) }

  function PackRequires(governance: seq<PackMount>): Option<seq<Triple>> {
    if Needed(governance) == [] then None else Some(StableSort(ById(), Needed(governance)))
  }

  lemma FlatMapNext<T, U>(f: T -> seq<U>, s: seq<T>, i: nat)
    requires i < |s|
    ensures FlatMap(f, s[..i + 1]) == FlatMap(f, s[..i]) + f(s[i])
  {
    assert s[..i + 1][..i] == s[..i];
  }

  lemma FlatMapAll<T, U>(f: T -> seq<U>, s: seq<T>)
    ensures FlatMap(f, s[..|s|]) == FlatMap(f, s)
  {
    assert s[..|s|] == s;
  }

  lemma {:induction false} FlatMapHas<T, U>(f: T -> seq<U>, s: seq<T>, u: U)
    ensures u in FlatMap(f, s) <==> exists t <- s :: u in f(t)
  {
    if s != [] {
      var init, last := s[..|s| - 1], s[|s| - 1];
      FlatMapHas(f, init, u);
      assert s == init + [last];
    }
  }

  /** What an action contributes: an edge per target, its port naming the kind of action. */
  predicate Contributes(a: RuleAction, target: string, port: string) {
    match a
    case Goto(t) => t == target && port == "goto"
    case Parallel(ts) => target in ts && port == "parallel"
    case Retry(t) => t == target && port == "retry"
    case Other => false
  }

  lemma ActionEdgesExactly(id: string, a: RuleAction, e: Edge)
    ensures e in ActionEdges(id)(a) <==> e.src == id && Contributes(a, e.dst, e.port)
  {
    if a.Parallel? && e.src == id && Contributes(a, e.dst, e.port) {
      var i :| 0 <= i < |a.targets| && a.targets[i] == e.dst;
      assert ActionEdges(id)(a)[i] == e;
    }
  }

  /** The edges are exactly the targets of goto, parallel and retry actions, from the rule's id. */
  lemma EdgesExactly(rules: seq<RuleSpec>, e: Edge)
    ensures e in EdgesOf(rules) <==> exists r <- rules, a <- r.actions :: e.src == r.id && Contributes(a, e.dst, e.port)
  {
    FlatMapHas(RuleEdges(), rules, e);
    forall r <- rules
      ensures e in RuleEdges()(r) <==> exists a <- r.actions :: e.src == r.id && Contributes(a, e.dst, e.port)
    {
      FlatMapHas(ActionEdges(r.id), r.actions, e);
      forall a <- r.actions ensures e in ActionEdges(r.id)(a) <==> e.src == r.id && Contributes(a, e.dst, e.port) {
        ActionEdgesExactly(r.id, a, e);
      }
    }
  }

  /** The triples are exactly those of the mounts that declare requirements. */
  lemma NeededExactly(governance: seq<PackMount>, t: Triple)
    ensures t in Needed(governance) <==> PackMount(t.id, Some(Requires(t.facts, t.api))) in governance
  {
    FlatMapHas(TripleOf(), governance, t);
    if PackMount(t.id, Some(Requires(t.facts, t.api))) in governance {
      assert t in TripleOf()(PackMount(t.id, Some(Requires(t.facts, t.api))));
    }
  }

  method ActionEdgesOf(id: string, a: RuleAction) returns (edges: seq<Edge>)
    ensures edges == ActionEdges(id)(a)
  {
    edges := [];
    match a {
      case Goto(target) => edges := edges + [Edge(id, target, "goto")];
      case Parallel(targets) =>
        for i := 0 to |targets|
          invariant edges == seq(i, j requires 0 <= j < i => Edge(id, targets[j], "parallel"))
        {
          edges := edges + [Edge(id, targets[i], "parallel")];
        }
      case Retry(target) => edges := edges + [Edge(id, target, "retry")];
      case Other =>
    }
  }

  method TopologyFromIr(nodes: seq<NodeSpec>, rules: seq<RuleSpec>)
    returns (sortedIds: seq<string>, sortedEdges: seq<Edge>)
    ensures sortedIds == StableSort(StringLeq, NodeIds(nodes))
    ensures sortedEdges == StableSort(EdgeLeq, EdgesOf(rules))
  {
    sortedIds := StableSort(StringLeq, NodeIds(nodes));
    var edges: seq<Edge> := [];
    for i := 0 to |rules|
      invariant edges == EdgesOf(rules[..i])
    {
      var rule := rules[i];
      ghost var before := edges;
      for j := 0 to |rule.actions|
        invariant edges == before + FlatMap(ActionEdges(rule.id), rule.actions[..j])
      {
        var own := ActionEdgesOf(rule.id, rule.actions[j]);
        FlatMapNext(ActionEdges(rule.id), rule.actions, j);
        edges := edges + own;
      }
      FlatMapAll(ActionEdges(rule.id), rule.actions);
      FlatMapNext(RuleEdges(), rules, i);
    }
    FlatMapAll(RuleEdges(), rules);
    sortedEdges := StableSort(EdgeLeq, edges);
  }

  method PackRequiresComponent(governance: seq<PackMount>) returns (r: Option<seq<Triple>>)
    ensures r == PackRequires(governance)
  {
    var triples: seq<Triple> := [];
    for i := 0 to |governance|
      invariant triples == Needed(governance[..i])
    {
      FlatMapNext(TripleOf(), governance, i);
      var pm := governance[i];
      if pm.needs.None? { continue; }
      triples := triples + [Triple(pm.id, pm.needs.value.factsVersion, pm.needs.value.apiVersion)];
    }
    FlatMapAll(TripleOf(), governance);
    if triples == [] { return None; }
    r := Some(StableSort(ById(), triples));
  }

  // ------------------------------------------------------ order does not matter

  function Without<T>(s: seq<T>, i: nat): seq<T>
    requires i < |s|
  {
    s[..i] + s[i + 1..]
  }

  lemma WithoutItems<T>(s: seq<T>, i: nat)
    requires i < |s|
    ensures multiset(Without(s, i)) == multiset(s) - multiset{s[i]}
    ensures multiset(Without(s, i) + [s[i]]) == multiset(s) == multiset([s[i]] + Without(s, i))
  {
    assert s == s[..i] + [s[i]] + s[i + 1..];
  }

  lemma {:induction false} FlatMapConcat<T, U>(f: T -> seq<U>, a: seq<T>, b: seq<T>)
    ensures FlatMap(f, a + b) == FlatMap(f, a) + FlatMap(f, b)
  {
    if b == [] {
      assert a + b == a;
    } else {
      FlatMapConcat(f, a, b[..|b| - 1]);
      assert (a + b)[..|a + b| - 1] == a + b[..|b| - 1];
    }
  }

  lemma MiddleItems<U>(a: seq<U>, b: seq<U>, c: seq<U>)
    ensures multiset(a + b + c) == multiset(a + c) + multiset(b)
  {
    assert multiset(a + b + c) == multiset(a + b) + multiset(c);
  }

  lemma FlatMapWithout<T, U>(f: T -> seq<U>, s: seq<T>, i: nat)
    requires i < |s|
    ensures multiset(FlatMap(f, s)) == multiset(FlatMap(f, Without(s, i))) + multiset(f(s[i]))
  {
    var front, back := s[..i], s[i + 1..];
    var x, y, z := FlatMap(f, front), f(s[i]), FlatMap(f, back);
    assert FlatMap(f, s) == x + y + z by {
      assert s[..i + 1] + back == s;
      FlatMapConcat(f, s[..i + 1], back);
      FlatMapNext(f, s, i);
    }
    assert FlatMap(f, Without(s, i)) == x + z by { FlatMapConcat(f, front, back); }
    MiddleItems(x, y, z);
  }

  /** Reordering the sources reorders the results. */
  lemma {:induction false} FlatMapPermutes<T, U>(f: T -> seq<U>, a: seq<T>, b: seq<T>)
    requires multiset(a) == multiset(b)
    ensures multiset(FlatMap(f, a)) == multiset(FlatMap(f, b))
    decreases |a|
  {
    assert |multiset(a)| == |a| && |multiset(b)| == |b|;
    if a != [] {
      var n := |a| - 1;
      SameItems(a, b, a[n]);
      var i :| 0 <= i < |b| && b[i] == a[n];
      WithoutItems(a, n);
      WithoutItems(b, i);
      assert Without(a, n) == a[..n];
      FlatMapPermutes(f, a[..n], Without(b, i));
      FlatMapWithout(f, b, i);
    }
  }

  function JustId(): NodeSpec -> seq<string> { (n: NodeSpec) => [n.id] }

  lemma {:induction false} NodeIdsAre(nodes: seq<NodeSpec>)
    ensures NodeIds(nodes) == FlatMap(JustId(), nodes)
  {
    if nodes != [] { NodeIdsAre(nodes[..|nodes| - 1]); }
  }

  ghost predicate DistinctNodes(nodes: seq<NodeSpec>) {
    forall i, j :: 0 <= i < j < |nodes| ==> nodes[i].id != nodes[j].id
  }

  lemma {:induction false} SignatureIsOfNode(nodes: seq<NodeSpec>, id: string)
    requires id in Signatures(nodes)
    ensures NodeSpec(id, Signatures(nodes)[id]) in nodes
  {
    var init, last := nodes[..|nodes| - 1], nodes[|nodes| - 1];
    if last.id != id { SignatureIsOfNode(init, id); }
    assert nodes == init + [last];
  }

  lemma {:induction false} NodeHasSignature(nodes: seq<NodeSpec>, i: nat)
    requires DistinctNodes(nodes) && i < |nodes|
    ensures nodes[i].id in Signatures(nodes) && Signatures(nodes)[nodes[i].id] == nodes[i].schema
  {
    var n := |nodes| - 1;
    if i < n {
      NodeHasSignature(nodes[..n], i);
      assert nodes[i].id != nodes[n].id;
    }
  }

  lemma SameKeys(a: seq<NodeSpec>, b: seq<NodeSpec>, id: string)
    requires DistinctNodes(b) && multiset(a) == multiset(b) && id in Signatures(a)
    ensures id in Signatures(b) && Signatures(b)[id] == Signatures(a)[id]
  {
    var n := NodeSpec(id, Signatures(a)[id]);
    SignatureIsOfNode(a, id);
    SameItems(a, b, n);
    var i :| 0 <= i < |b| && b[i] == n;
    NodeHasSignature(b, i);
  }

  lemma SignaturesForgetOrder(a: seq<NodeSpec>, b: seq<NodeSpec>)
    requires DistinctNodes(a) && DistinctNodes(b) && multiset(a) == multiset(b)
    ensures Signatures(a) == Signatures(b)
  {
    forall id ensures id in Signatures(a) <==> id in Signatures(b) {
      if id in Signatures(a) { SameKeys(a, b, id); }
      if id in Signatures(b) { SameKeys(b, a, id); }
    }
    forall id | id in Signatures(a) ensures Signatures(a)[id] == Signatures(b)[id] { SameKeys(a, b, id); }
  }

  // ------------------------------------------------------------- pack_requires

  lemma IdOrder()
    ensures TotalPreorder(ById())
    ensures forall a, b :: ById()(a, b) && ById()(b, a) <==> a.id == b.id
  {
    StringOrder();
    forall a: Triple, b: Triple ensures ById()(a, b) && ById()(b, a) <==> a.id == b.id {
      StringLeqTotal(a.id, b.id);
    }
  }

  /** Mounts under one id that declare requirements declare the same ones. */
  ghost predicate Consistent(governance: seq<PackMount>) {
    forall a, b :: a in Needed(governance) && b in Needed(governance) && a.id == b.id ==> a == b
  }

  lemma ConsistentIsOrderFree(a: seq<PackMount>, b: seq<PackMount>)
    requires Consistent(a) && multiset(a) == multiset(b)
    ensures PackRequires(a) == PackRequires(b)
  {
    FlatMapPermutes(TripleOf(), a, b);
    var x, y := Needed(a), Needed(b);
    assert |multiset(x)| == |x| && |multiset(y)| == |y|;
    if x != [] {
      IdOrder();
      SortSorts(ById(), x);
      SortSorts(ById(), y);
      var s := StableSort(ById(), x);
      forall i | 0 <= i < |s| ensures s[i] in x { SameItems(s, x, s[i]); }
      assert NoTies(ById(), s);
      SortedUnique(ById(), s, StableSort(ById(), y));
    }
  }

  lemma NeededFrom(governance: seq<PackMount>, t: Triple) returns (i: nat)
    requires t in Needed(governance)
    ensures i < |governance| && TripleOf()(governance[i]) == [t]
  {
    i := |governance| - 1;
    if TripleOf()(governance[i]) != [t] {
      i := NeededFrom(governance[..i], t);
    }
  }

  lemma NeededOfFront(m: PackMount, rest: seq<PackMount>, t: Triple)
    requires TripleOf()(m) == [t]
    ensures Needed([m] + rest) == [t] + Needed(rest)
  {
    FlatMapConcat(TripleOf(), [m], rest);
    assert [m][..0] == [];
  }

  /** With a mount moved to the front, its triple leads its id's class in the sorted component. */
  lemma FrontLeads(governance: seq<PackMount>, t: Triple) returns (front: seq<PackMount>)
    requires t in Needed(governance)
    ensures multiset(front) == multiset(governance) && PackRequires(front).Some?
    ensures var c := Class(ById(), t, PackRequires(front).value); c != [] && c[0] == t
  {
    var i := NeededFrom(governance, t);
    front := [governance[i]] + Without(governance, i);
    WithoutItems(governance, i);
    NeededOfFront(governance[i], Without(governance, i), t);
    hide Needed;
    IdOrder();
    SortIsStable(ById(), Needed(front), t);
  }

  lemma {:induction false} ClassOfEqual(s: seq<Triple>, a: Triple, b: Triple)
    requires a.id == b.id
    ensures Class(ById(), a, s) == Class(ById(), b, s)
  {
    if s != [] { ClassOfEqual(s[1..], a, b); }
  }

  /**
   * The component sorts by pack id alone: the order of the mounts is immaterial
   * exactly when mounts sharing an id ask for the same versions.
   */
  lemma RequiresOrderFreeExactly(governance: seq<PackMount>)
    ensures (forall other ::
               multiset(other) == multiset(governance) ==> PackRequires(other) == PackRequires(governance))
       <==> Consistent(governance)
  {
    if Consistent(governance) {
      forall other | multiset(other) == multiset(governance) ensures PackRequires(other) == PackRequires(governance) {
        ConsistentIsOrderFree(governance, other);
      }
    } else {
      var a, b :| a in Needed(governance) && b in Needed(governance) && a.id == b.id && a != b;
      var fa := FrontLeads(governance, a);
      var fb := FrontLeads(governance, b);
      ClassOfEqual(PackRequires(fa).value, a, b);
      assert PackRequires(fa) != PackRequires(fb);
    }
  }

  /** Two mounts of one id that ask for different versions: the component shows which came first. */
  lemma MountOrderShows(id: string, a: Requires, b: Requires)
    requires a != b
    ensures var x, y := PackMount(id, Some(a)), PackMount(id, Some(b));
            PackRequires([x, y]) != PackRequires([y, x])
  {
    var x, y := PackMount(id, Some(a)), PackMount(id, Some(b));
    var t, u := Triple(id, a.factsVersion, a.apiVersion), Triple(id, b.factsVersion, b.apiVersion);
    TwoMounts(x, y, t, u);
    TwoMounts(y, x, u, t);
    assert [t, u][0] != [u, t][0];
  }

  lemma TwoMounts(x: PackMount, y: PackMount, t: Triple, u: Triple)
    requires TripleOf()(x) == [t] && TripleOf()(y) == [u] && t.id == u.id
    ensures PackRequires([x, y]) == Some([t, u])
  {
    assert [x, y][..1] == [x] && [x][..0] == [];
    assert Needed([]) == [] && Needed([x]) == [] + [t] == [t];
    assert Needed([x, y]) == Needed([x, y][..1]) + [u] == [t] + [u] == [t, u];
    IdOrder();
    assert [t, u][1..] == [u] && [u][1..] == [];
    assert StableSort(ById(), [u]) == [u];
  }

  // -------------------------------------------------------------------- payload

  datatype Pack = Pack(id: string, sha256: string, version: string)

  predicate PackLeq(a: Pack, b: Pack) {
    EdgeLeq(Edge(a.id, a.sha256, a.version), Edge(b.id, b.sha256, b.version))
  }

  lemma PackOrder()
    ensures TotalPreorder(PackLeq) && Antisymmetric(PackLeq)
  {
    EdgeOrder();
  }

  function Triplet(a: string, b: string, c: string): Json { Tuple([Str(a), Str(b), Str(c)]) }

  function Strings(ss: seq<string>): Json { List(seq(|ss|, i requires 0 <= i < |ss| => Str(ss[i]))) }

  function EdgeTuples(es: seq<Edge>): Json {
    List(seq(|es|, i requires 0 <= i < |es| => Triplet(es[i].src, es[i].dst, es[i].port)))
  }

  function PackTuples(ps: seq<Pack>): Json {
    List(seq(|ps|, i requires 0 <= i < |ps| => Triplet(ps[i].id, ps[i].sha256, ps[i].version)))
  }

  function OrNull(s: Option<string>): Json { if s.None? then Null else Str(s.value) }

  function RequiresLists(ts: seq<Triple>): Json {
    List(seq(|ts|, i requires 0 <= i < |ts| => List([Str(ts[i].id), OrNull(ts[i].facts), OrNull(ts[i].api)])))
  }

  /** The components under their keys; the last one only when there is something to require. */
  function Assemble(topology: map<string, Json>, signatures: map<string, Json>, schema: Json, packs: Json,
                    required: Option<Json>): map<string, Json> {
    var base := map[TOPOLOGY := Obj(topology)]["node_signatures" := Obj(signatures)]
                ["state_schema" := schema]["rule_pack_versions" := packs];
    if required.Some? then base["pack_requires" := required.value] else base
  }

  function Topology(ids: seq<string>, edges: seq<Edge>): map<string, Json> {
    map[NODES := Strings(ids), EDGES := EdgeTuples(edges)]
  }

  function RequiredJson(governance: seq<PackMount>): Option<Json> {
    match PackRequires(governance)
    case None => None
    case Some(ts) => Some(RequiresLists(ts))
  }

  /** The canonical dictionary `structural_hash` builds. */
  function Payload(text: Json -> string, doc: Document, packs: seq<Pack>): Json {
    Obj(Assemble(
          Topology(StableSort(StringLeq, NodeIds(doc.nodes)), StableSort(EdgeLeq, EdgesOf(doc.rules))),
          Signatures(doc.nodes),
          Coerce(text, doc.stateSchema),
          PackTuples(StableSort(PackLeq, packs)),
          RequiredJson(doc.governance)))
  }

  /** What is encoded and hashed; None where `_reject_floats` raises. */
  function Canonical(text: Json -> string, doc: Document, packs: seq<Pack>): Option<Json> {
    var payload := Payload(text, doc, packs);
    if HasFloat(payload) then None else Some(Normalize(text, payload))
  }

  /** `str` of a string is the string. */
  ghost predicate PlainText(text: Json -> string) { forall s :: text(Str(s)) == s }

  lemma SortedStringsStay(text: Json -> string, ids: seq<string>)
    requires PlainText(text) && SortedBy(StringLeq, ids)
    ensures Arrange(OrderFor(text, NODES), Normalize(text, Strings(ids))) == Strings(ids)
  {
    var items := Strings(ids).items;
    assert NormalizeAll(text, items) == items;
    OrdersAreTotal(text, NODES);
    assert SortedBy(ByText(text), items);
    SortedIsFixed(ByText(text), items);
  }

  lemma SortedEdgesStay(text: Json -> string, edges: seq<Edge>)
    requires PlainText(text) && SortedBy(EdgeLeq, edges)
    ensures Arrange(OrderFor(text, EDGES), Normalize(text, EdgeTuples(edges))) == EdgeTuples(edges)
  {
    var items := EdgeTuples(edges).items;
    assert NormalizeAll(text, items) == items;
    OrdersAreTotal(text, EDGES);
    forall i | 0 <= i < |items| ensures EdgeSortKey(text, items[i]) == edges[i] { }
    assert SortedBy(ByEdge(text), items);
    SortedIsFixed(ByEdge(text), items);
  }

  lemma TopologyStays(text: Json -> string, ids: seq<string>, edges: seq<Edge>)
    requires PlainText(text) && SortedBy(StringLeq, ids) && SortedBy(EdgeLeq, edges)
    ensures NormalizeTopology(text, Topology(ids, edges)) == Topology(ids, edges)
  {
    SortedStringsStay(text, ids);
    SortedEdgesStay(text, edges);
  }

  lemma PacksStay(text: Json -> string, ps: seq<Pack>)
    ensures Normalize(text, PackTuples(ps)) == PackTuples(ps)
  {
    var items := PackTuples(ps).items;
    assert NormalizeAll(text, items) == items;
  }

  lemma RequiresStay(text: Json -> string, ts: seq<Triple>)
    ensures Normalize(text, RequiresLists(ts)) == RequiresLists(ts)
  {
    var items := RequiresLists(ts).items;
    forall i | 0 <= i < |items| ensures Normalize(text, items[i]) == items[i] {
      var own := items[i].items;
      assert NormalizeAll(text, own) == own;
    }
    assert NormalizeAll(text, items) == items;
  }

  function NormalizeFields(text: Json -> string, fields: map<string, Json>): map<string, Json> {
    map k | k in fields :: NormalizeField(text, k, fields[k])
  }

  lemma NormalizeSet(text: Json -> string, fields: map<string, Json>, k: string, v: Json)
    ensures NormalizeFields(text, fields[k := v]) == NormalizeFields(text, fields)[k := NormalizeField(text, k, v)]
    ensures |k| != 8 ==> NormalizeField(text, k, v) == Normalize(text, v)
  {
  }

  lemma NormalizeOne(text: Json -> string, k: string, v: Json)
    ensures NormalizeFields(text, map[k := v]) == map[k := NormalizeField(text, k, v)]
  {
  }

  lemma AssembleNormal(text: Json -> string, topology: map<string, Json>, signatures: map<string, Json>, schema: Json,
                       packs: Json, required: Option<Json>)
    ensures NormalizeFields(text, Assemble(topology, signatures, schema, packs, required))
         == Assemble(NormalizeTopology(text, topology), Normalize(text, Obj(signatures)).fields,
             Normalize(text, schema), Normalize(text, packs),
                     if required.None? then None else Some(Normalize(text, required.value)))
  {
    var k1, k2, k3, k4 := "node_signatures", "state_schema", "rule_pack_versions", "pack_requires";
    var a := map[TOPOLOGY := Obj(topology)];
    var b := a[k1 := Obj(signatures)];
    var c := b[k2 := schema];
    var d := c[k3 := packs];
    NormalizeOne(text, TOPOLOGY, Obj(topology));
    NormalizeSet(text, a, k1, Obj(signatures));
    NormalizeSet(text, b, k2, schema);
    NormalizeSet(text, c, k3, packs);
    if required.Some? { NormalizeSet(text, d, k4, required.value); }
  }

  lemma PayloadNormal(text: Json -> string, doc: Document, packs: seq<Pack>)
    requires PlainText(text)
    ensures Normalize(text, Payload(text, doc, packs))
         == Obj(Assemble(
              Topology(StableSort(StringLeq, NodeIds(doc.nodes)), StableSort(EdgeLeq, EdgesOf(doc.rules))),
              Normalize(text, Obj(Signatures(doc.nodes))).fields,
              Normalize(text, Coerce(text, doc.stateSchema)),
              PackTuples(StableSort(PackLeq, packs)),
              RequiredJson(doc.governance)))
  {
    var ids, edges := StableSort(StringLeq, NodeIds(doc.nodes)), StableSort(EdgeLeq, EdgesOf(doc.rules));
    StringOrder();
    EdgeOrder();
    SortSorts(StringLeq, NodeIds(doc.nodes));
    SortSorts(EdgeLeq, EdgesOf(doc.rules));
    TopologyStays(text, ids, edges);
    PacksStay(text, StableSort(PackLeq, packs));
    var required := PackRequires(doc.governance);
    if required.Some? { RequiresStay(text, required.value); }
    var fields := Payload(text, doc, packs).fields;
    NormalObj(text, fields);
    AssembleNormal(text, Topology(ids, edges), Signatures(doc.nodes), Coerce(text, doc.stateSchema),
        PackTuples(StableSort(PackLeq, packs)), RequiredJson(doc.governance));
  }

  lemma AssembleApart(topology: map<string, Json>, signatures: map<string, Json>, schema: Json, packs: Json,
                      required: Option<Json>,
                      topology2: map<string, Json>, signatures2: map<string, Json>, schema2: Json, packs2: Json,
                      required2: Option<Json>)
    ensures Assemble(topology, signatures, schema, packs, required)
              == Assemble(topology2, signatures2, schema2, packs2, required2)
       <==> && topology == topology2 && signatures == signatures2 && schema == schema2
            && packs == packs2 && required == required2
  {
    var k1, k2, k3, k4 := "node_signatures", "state_schema", "rule_pack_versions", "pack_requires";
    var k0 := TOPOLOGY;
    var m := Assemble(topology, signatures, schema, packs, required);
    var m2 := Assemble(topology2, signatures2, schema2, packs2, required2);
    assert k0 in m && k1 in m && k2 in m && k3 in m && (k4 in m <==> required.Some?);
    if m == m2 {
      assert m[k0] == Obj(topology) && m2[k0] == Obj(topology2);
      assert m[k1] == Obj(signatures) && m2[k1] == Obj(signatures2);
      assert m[k2] == schema && m2[k2] == schema2;
      assert m[k3] == packs && m2[k3] == packs2;
      assert required.Some? ==> m[k4] == required.value;
      assert k4 in m2 <==> required2.Some?;
    }
  }

  lemma TopologyApart(ids: seq<string>, edges: seq<Edge>, ids2: seq<string>, edges2: seq<Edge>)
    ensures Topology(ids, edges) == Topology(ids2, edges2) <==> ids == ids2 && edges == edges2
  {
    var k, l := NODES, EDGES;
    var t, t2 := Topology(ids, edges), Topology(ids2, edges2);
    assert k != l && t[k] == Strings(ids) && t2[k] == Strings(ids2) && t[l] == EdgeTuples(edges) &&
           t2[l] == EdgeTuples(edges2);
    StringsApart(ids, ids2);
    EdgeTuplesApart(edges, edges2);
  }

  lemma StringsApart(a: seq<string>, b: seq<string>)
    ensures Strings(a) == Strings(b) <==> a == b
  {
    var x, y := Strings(a).items, Strings(b).items;
    if x == y {
      forall i | 0 <= i < |a| ensures a[i] == b[i] { assert x[i] == y[i]; }
    }
  }

  lemma TripletApart(a: string, b: string, c: string, d: string, e: string, f: string)
    ensures Triplet(a, b, c) == Triplet(d, e, f) <==> a == d && b == e && c == f
  {
    var x, y := Triplet(a, b, c).items, Triplet(d, e, f).items;
    if x == y { assert x[0] == y[0] && x[1] == y[1] && x[2] == y[2]; }
  }

  lemma EdgeTuplesApart(a: seq<Edge>, b: seq<Edge>)
    ensures EdgeTuples(a) == EdgeTuples(b) <==> a == b
  {
    var x, y := EdgeTuples(a).items, EdgeTuples(b).items;
    if x == y {
      assert |x| == |a| && |y| == |b|;
      forall i | 0 <= i < |a| ensures a[i] == b[i] {
        assert x[i] == y[i];
        TripletApart(a[i].src, a[i].dst, a[i].port, b[i].src, b[i].dst, b[i].port);
      }
    }
  }

  lemma PackTuplesApart(a: seq<Pack>, b: seq<Pack>)
    ensures PackTuples(a) == PackTuples(b) <==> a == b
  {
    var x, y := PackTuples(a).items, PackTuples(b).items;
    if x == y {
      assert |x| == |a| && |y| == |b|;
      forall i | 0 <= i < |a| ensures a[i] == b[i] {
        assert x[i] == y[i];
        TripletApart(a[i].id, a[i].sha256, a[i].version, b[i].id, b[i].sha256, b[i].version);
      }
    }
  }

  lemma RequiresApart(a: seq<Triple>, b: seq<Triple>)
    ensures RequiresLists(a) == RequiresLists(b) <==> a == b
  {
    var x, y := RequiresLists(a).items, RequiresLists(b).items;
    if x == y {
      assert |x| == |a| && |y| == |b|;
      forall i | 0 <= i < |a| ensures a[i] == b[i] {
        var p, q := x[i].items, y[i].items;
        assert x[i] == y[i];
        assert p[0] == q[0] && p[1] == q[1] && p[2] == q[2];
      }
    }
  }

  /** Same node ids and same derived edges, each counted. */
  ghost predicate SameTopology(a: Document, b: Document) {
    && multiset(NodeIds(a.nodes)) == multiset(NodeIds(b.nodes))
    && multiset(EdgesOf(a.rules)) == multiset(EdgesOf(b.rules))
  }

  lemma TopologyExactly(a: Document, b: Document)
    ensures Topology(StableSort(StringLeq, NodeIds(a.nodes)), StableSort(EdgeLeq, EdgesOf(a.rules)))
         == Topology(StableSort(StringLeq, NodeIds(b.nodes)), StableSort(EdgeLeq, EdgesOf(b.rules)))
       <==> SameTopology(a, b)
  {
    StringOrder();
    EdgeOrder();
    SortForgetsOrder(StringLeq, NodeIds(a.nodes), NodeIds(b.nodes));
    SortForgetsOrder(EdgeLeq, EdgesOf(a.rules), EdgesOf(b.rules));
    TopologyApart(StableSort(StringLeq, NodeIds(a.nodes)), StableSort(EdgeLeq, EdgesOf(a.rules)),
                  StableSort(StringLeq, NodeIds(b.nodes)), StableSort(EdgeLeq, EdgesOf(b.rules)));
  }

  /** What the structural hash identifies: two normal payloads are equal exactly if every component agrees. */
  lemma StructuralIdentity(text: Json -> string, a: Document, packsA: seq<Pack>, b: Document, packsB: seq<Pack>)
    requires PlainText(text)
    ensures Normalize(text, Payload(text, a, packsA)) == Normalize(text, Payload(text, b, packsB))
       <==> && SameTopology(a, b)
            && Normalize(text, Obj(Signatures(a.nodes))) == Normalize(text, Obj(Signatures(b.nodes)))
            && Normalize(text, Coerce(text, a.stateSchema)) == Normalize(text, Coerce(text, b.stateSchema))
            && multiset(packsA) == multiset(packsB)
            && PackRequires(a.governance) == PackRequires(b.governance)
  {
    PayloadNormal(text, a, packsA);
    PayloadNormal(text, b, packsB);
    TopologyExactly(a, b);
    PackOrder();
    SortForgetsOrder(PackLeq, packsA, packsB);
    PackTuplesApart(StableSort(PackLeq, packsA), StableSort(PackLeq, packsB));
    var ra, rb := PackRequires(a.governance), PackRequires(b.governance);
    if ra.Some? && rb.Some? { RequiresApart(ra.value, rb.value); }
    AssembleApart(
      Topology(StableSort(StringLeq, NodeIds(a.nodes)), StableSort(EdgeLeq, EdgesOf(a.rules))),
      Normalize(text, Obj(Signatures(a.nodes))).fields, Normalize(text, Coerce(text, a.stateSchema)),
      PackTuples(StableSort(PackLeq, packsA)), RequiredJson(a.governance),
      Topology(StableSort(StringLeq, NodeIds(b.nodes)), StableSort(EdgeLeq, EdgesOf(b.rules))),
      Normalize(text, Obj(Signatures(b.nodes))).fields, Normalize(text, Coerce(text, b.stateSchema)),
      PackTuples(StableSort(PackLeq, packsB)), RequiredJson(b.governance));
  }

  /** Reordering nodes, rules, pack triples and consistent mounts leaves the payload unchanged. */
  lemma PayloadForgetsOrder(text: Json -> string, a: Document, packsA: seq<Pack>, b: Document, packsB: seq<Pack>)
    requires DistinctNodes(a.nodes) && DistinctNodes(b.nodes) && Consistent(a.governance)
    requires multiset(a.nodes) == multiset(b.nodes) && multiset(a.rules) == multiset(b.rules) &&
               multiset(packsA) == multiset(packsB)
    requires multiset(a.governance) == multiset(b.governance) && a.stateSchema == b.stateSchema
    ensures Payload(text, a, packsA) == Payload(text, b, packsB) &&
              Canonical(text, a, packsA) == Canonical(text, b, packsB)
  {
    FlatMapPermutes(JustId(), a.nodes, b.nodes);
    NodeIdsAre(a.nodes);
    NodeIdsAre(b.nodes);
    FlatMapPermutes(RuleEdges(), a.rules, b.rules);
    TopologyExactly(a, b);
    SignaturesForgetOrder(a.nodes, b.nodes);
    PackOrder();
    SortForgetsOrder(PackLeq, packsA, packsB);
    ConsistentIsOrderFree(a.governance, b.governance);
  }

  lemma TripletHasNoFloat(a: string, b: string, c: string)
    ensures !HasFloat(Triplet(a, b, c))
  {
    forall x <- Triplet(a, b, c).items ensures x.Str? { }
  }

  lemma NoFloatsInStrings(ids: seq<string>, edges: seq<Edge>, packs: seq<Pack>, ts: seq<Triple>)
    ensures !HasFloat(Strings(ids)) && !HasFloat(EdgeTuples(edges)) && !HasFloat(PackTuples(packs)) &&
              !HasFloat(RequiresLists(ts))
  {
    forall x <- EdgeTuples(edges).items ensures !HasFloat(x) {
      var i := ItemsOf(EdgeTuples(edges).items, x);
      TripletHasNoFloat(edges[i].src, edges[i].dst, edges[i].port);
    }
    forall x <- PackTuples(packs).items ensures !HasFloat(x) {
      var i := ItemsOf(PackTuples(packs).items, x);
      TripletHasNoFloat(packs[i].id, packs[i].sha256, packs[i].version);
    }
    forall x <- RequiresLists(ts).items ensures !HasFloat(x) {
      var i := ItemsOf(RequiresLists(ts).items, x);
      forall y <- x.items ensures y.Str? || y.Null? { }
    }
  }

  /** Hashing is refused exactly if some node signature holds a float; the state schema never is the reason. */
  lemma RefusedExactly(text: Json -> string, doc: Document, packs: seq<Pack>)
    ensures Canonical(text, doc, packs).None? <==> HasFloat(Obj(Signatures(doc.nodes)))
  {
    var ids, edges := StableSort(StringLeq, NodeIds(doc.nodes)), StableSort(EdgeLeq, EdgesOf(doc.rules));
    var required := PackRequires(doc.governance);
    NoFloatsInStrings(ids, edges, StableSort(PackLeq, packs), if required.Some? then required.value else []);
    CoercedIsHashable(text, doc.stateSchema);
    AssembleFloats(Topology(ids, edges), Signatures(doc.nodes), Coerce(text, doc.stateSchema),
        PackTuples(StableSort(PackLeq, packs)),
                   RequiredJson(doc.governance));
  }

  lemma AssembleFloats(topology: map<string, Json>, signatures: map<string, Json>, schema: Json, packs: Json,
                       required: Option<Json>)
    requires !HasFloat(Obj(topology)) && !HasFloat(schema) && !HasFloat(packs) &&
               (required.Some? ==> !HasFloat(required.value))
    ensures HasFloat(Obj(Assemble(topology, signatures, schema, packs, required))) <==> HasFloat(Obj(signatures))
  {
    var k1 := "node_signatures";
    var m := Assemble(topology, signatures, schema, packs, required);
    if HasFloat(Obj(signatures)) { assert k1 in m && m[k1] == Obj(signatures); }
  }
}
