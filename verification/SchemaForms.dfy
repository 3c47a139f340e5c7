/**
 * What the hash keeps of a document, place by place: coercing a state schema, refusing floats,
 * tagging integers and sorting a topology, and which documents are told apart in the end.
 */
module SchemaForms {
  import opened Wrappers
  import opened Ordering
  import opened Decimals
  import opened StructuralHash
  import opened BigIntTags

  // --------------------------------------------------------------------- places

  datatype Step = Index(i: nat) | Key(k: string)

  /** What stands at the end of a path into a value. */
  function At(v: Json, path: seq<Step>): Option<Json>
    decreases |path|
  {
    if path == [] then Some(v)
    else
      match path[0]
      case Index(i) =>
        if (v.List? || v.Tuple?) && i < |v.items| then At(v.items[i], path[1..]) else None
      case Key(k) => if v.Obj? && k in v.fields then At(v.fields[k], path[1..]) else None
  }

  lemma AtItem(v: Json, i: nat, path: seq<Step>)
    requires (v.List? || v.Tuple?) && i < |v.items|
    ensures At(v, [Index(i)] + path) == At(v.items[i], path)
  {
    assert ([Index(i)] + path)[1..] == path;
  }

  lemma AtField(v: Json, k: string, path: seq<Step>)
    requires v.Obj? && k in v.fields
    ensures At(v, [Key(k)] + path) == At(v.fields[k], path)
  {
    assert ([Key(k)] + path)[1..] == path;
  }

  predicate FloatAt(v: Json, path: seq<Step>) { At(v, path).Some? && At(v, path).value.Float? }

  lemma {:induction false} FloatIsSomewhere(v: Json) returns (path: seq<Step>)
    requires HasFloat(v)
    ensures FloatAt(v, path)
  {
    match v {
      case Float(_) => path := [];
      case List(items) =>
        var i: nat :| i < |items| && HasFloat(items[i]);
        var rest := FloatIsSomewhere(items[i]);
        AtItem(v, i, rest);
        path := [Index(i)] + rest;
      case Tuple(items) =>
        var i: nat :| i < |items| && HasFloat(items[i]);
        var rest := FloatIsSomewhere(items[i]);
        AtItem(v, i, rest);
        path := [Index(i)] + rest;
      case Obj(fields) =>
        var k :| k in fields && HasFloat(fields[k]);
        var rest := FloatIsSomewhere(fields[k]);
        AtField(v, k, rest);
        path := [Key(k)] + rest;
    }
  }

  lemma {:induction false} SomewhereIsFloat(v: Json, path: seq<Step>)
    requires FloatAt(v, path)
    ensures HasFloat(v)
    decreases |path|
  {
    if path != [] {
      match path[0]
      case Index(i) => SomewhereIsFloat(v.items[i], path[1..]);
      case Key(k) => SomewhereIsFloat(v.fields[k], path[1..]);
    }
  }

  /** A float is found exactly where there is one, at any depth. */
  lemma HasFloatExactly(v: Json)
    ensures HasFloat(v) <==> exists path :: FloatAt(v, path)
  {
    if HasFloat(v) { var path := FloatIsSomewhere(v); }
    if path :| FloatAt(v, path) { SomewhereIsFloat(v, path); }
  }

  // ------------------------------------------------------------------- integers

  predicate InRange(n: int) { -9007199254740991 <= n <= 9007199254740991 }

  predicate Decimal(s: string) { s != "" && forall i :: 0 <= i < |s| ==> '0' <= s[i] <= '9' }

  /** Integers in the exact range stay; the others become a tag with their decimal notation. */
  lemma IntegerForm(text: Json -> string, n: int)
    ensures InRange(n) ==> Normalize(text, Int(n)) == Int(n)
    ensures !InRange(n) ==>
              exists digits | Decimal(digits) ::
                && ValueOf(digits) == (if n < 0 then -n else n)
                && Normalize(text, Int(n)) == Str("__stargraph_bigint__:" + (if n < 0 then "-" + digits else digits))
  {
    if !InRange(n) {
      var digits := Digits(if n < 0 then -n else n);
      DigitsReadBack(if n < 0 then -n else n);
      assert forall i :: 0 <= i < |digits| ==> IsDigit(digits[i]);
      assert Decimal(digits);
      assert Printed(n) == if n < 0 then "-" + digits else digits;
    }
  }

  predicate BigAt(v: Json, path: seq<Step>) {
    At(v, path).Some? && At(v, path).value.Int? && !InRange(At(v, path).value.n)
  }

  lemma {:induction false} UncleanIsSomewhere(v: Json) returns (path: seq<Step>)
    requires !Clean(v)
    ensures BigAt(v, path)
  {
    if v.Int? {
      path := [];
    } else if v.Obj? {
      var k :| k in v.fields && !Clean(v.fields[k]);
      var rest := UncleanIsSomewhere(v.fields[k]);
      AtField(v, k, rest);
      path := [Key(k)] + rest;
    } else {
      var i: nat :| i < |v.items| && !Clean(v.items[i]);
      var rest := UncleanIsSomewhere(v.items[i]);
      AtItem(v, i, rest);
      path := [Index(i)] + rest;
    }
  }

  lemma {:induction false} SomewhereIsUnclean(v: Json, path: seq<Step>)
    requires BigAt(v, path)
    ensures !Clean(v)
    decreases |path|
  {
    if path != [] {
      match path[0]
      case Index(i) => SomewhereIsUnclean(v.items[i], path[1..]);
      case Key(k) => SomewhereIsUnclean(v.fields[k], path[1..]);
    }
  }

  lemma CleanExactly(v: Json)
    ensures Clean(v) <==> forall path :: !BigAt(v, path)
  {
    if !Clean(v) { var path := UncleanIsSomewhere(v); }
    if path :| BigAt(v, path) { SomewhereIsUnclean(v, path); }
  }

  /** A tuple, and in it an integer out of range. */
  ghost predicate BigInTuple(v: Json, path: seq<Step>) {
    At(v, path).Some? && At(v, path).value.Tuple? && exists rest :: BigAt(At(v, path).value, rest)
  }

  lemma {:induction false} TupleIsSomewhere(v: Json) returns (path: seq<Step>)
    requires !TuplesClean(v)
    ensures BigInTuple(v, path)
  {
    if v.Tuple? {
      CleanExactly(v);
      path := [];
    } else if v.Obj? {
      var k :| k in v.fields && !TuplesClean(v.fields[k]);
      var rest := TupleIsSomewhere(v.fields[k]);
      AtField(v, k, rest);
      path := [Key(k)] + rest;
    } else {
      var i: nat :| i < |v.items| && !TuplesClean(v.items[i]);
      var rest := TupleIsSomewhere(v.items[i]);
      AtItem(v, i, rest);
      path := [Index(i)] + rest;
    }
  }

  lemma {:induction false} SomewhereInTuple(v: Json, path: seq<Step>)
    requires BigInTuple(v, path)
    ensures !Clean(v) && !TuplesClean(v)
    decreases |path|
  {
    if path == [] {
      CleanExactly(v);
    } else {
      match path[0]
      case Index(i) => SomewhereInTuple(v.items[i], path[1..]);
      case Key(k) => SomewhereInTuple(v.fields[k], path[1..]);
    }
  }

  /** After normalising, an integer is out of range somewhere exactly if it stood in a tuple. */
  lemma NormalKeepsExactly(text: Json -> string, v: Json)
    ensures (exists path :: BigAt(Normalize(text, v), path)) <==> exists path :: BigInTuple(v, path)
  {
    NormalCleanExactly(text, v);
    CleanExactly(Normalize(text, v));
    if !TuplesClean(v) { var path := TupleIsSomewhere(v); }
    if path :| BigInTuple(v, path) { SomewhereInTuple(v, path); }
  }

  // ------------------------------------------------------------------- coercion

  /** What coercion has to leave at a place: a leaf, a list of some length, an object with some keys, or nothing. */
  datatype Mark = Nothing | Leaf(v: Json) | Items(n: nat) | Keys(keys: set<string>)

  /** A float that is an integer counts as it, another as its text, and a tuple as a list. */
  function MarkOf(text: Json -> string, o: Option<Json>): Mark {
    match o
    case None => Nothing
    case Some(Float(x)) => if (x.Floor) as real == x then Leaf(Int(x.Floor)) else Leaf(Str(text(Float(x))))
    case Some(List(items)) => Items(|items|)
    case Some(Tuple(items)) => Items(|items|)
    case Some(Obj(fields)) => Keys(fields.Keys)
    case Some(v) => Leaf(v)
  }

  lemma CoercedItem(text: Json -> string, v: Json, i: nat)
    requires (v.List? || v.Tuple?) && i < |v.items|
    ensures Coerce(text, v).List? && |Coerce(text, v).items| == |v.items|
    ensures Coerce(text, v).items[i] == Coerce(text, v.items[i])
  {
  }

  /** Coercion changes no shape: at every place it leaves what the schema has there, floats and tuples aside. */
  lemma {:induction false} CoercedAt(text: Json -> string, v: Json, path: seq<Step>)
    ensures MarkOf(text, At(Coerce(text, v), path)) == MarkOf(text, At(v, path))
    ensures At(Coerce(text, v), path).Some? ==>
              !At(Coerce(text, v), path).value.Float? && !At(Coerce(text, v), path).value.Tuple?
    decreases |path|
  {
    if path != [] {
      match path[0]
      case Index(i) => if (v.List? || v.Tuple?) && i < |v.items| { CoercedAt(text, v.items[i], path[1..]); }
      case Key(k) => if v.Obj? && k in v.fields { CoercedAt(text, v.fields[k], path[1..]); }
    }
  }

  /** The same at every place, as far as coercion tells. */
  ghost predicate Alike(text: Json -> string, v: Json, w: Json) {
    forall path :: MarkOf(text, At(v, path)) == MarkOf(text, At(w, path))
  }

  lemma AlikeHere(text: Json -> string, v: Json, w: Json)
    requires Alike(text, v, w)
    ensures MarkOf(text, Some(v)) == MarkOf(text, Some(w))
  {
    assert MarkOf(text, At(v, [])) == MarkOf(text, At(w, []));
  }

  lemma AlikeItems(text: Json -> string, v: Json, w: Json, i: nat)
    requires Alike(text, v, w) && (v.List? || v.Tuple?) && (w.List? || w.Tuple?) && i < |v.items| && i < |w.items|
    ensures Alike(text, v.items[i], w.items[i])
  {
    forall path ensures MarkOf(text, At(v.items[i], path)) == MarkOf(text, At(w.items[i], path)) {
      AtItem(v, i, path);
      AtItem(w, i, path);
      assert MarkOf(text, At(v, [Index(i)] + path)) == MarkOf(text, At(w, [Index(i)] + path));
    }
  }

  lemma AlikeFields(text: Json -> string, v: Json, w: Json, k: string)
    requires Alike(text, v, w) && v.Obj? && w.Obj? && k in v.fields && k in w.fields
    ensures Alike(text, v.fields[k], w.fields[k])
  {
    forall path ensures MarkOf(text, At(v.fields[k], path)) == MarkOf(text, At(w.fields[k], path)) {
      AtField(v, k, path);
      AtField(w, k, path);
      assert MarkOf(text, At(v, [Key(k)] + path)) == MarkOf(text, At(w, [Key(k)] + path));
    }
  }

  lemma {:induction false} AlikeCoerces(text: Json -> string, v: Json, w: Json)
    requires Alike(text, v, w)
    ensures Coerce(text, v) == Coerce(text, w)
    decreases v
  {
    AlikeHere(text, v, w);
    if v.List? || v.Tuple? {
      var a, b := Coerce(text, v), Coerce(text, w);
      assert a.List? && b.List? && |a.items| == |v.items| == |w.items| == |b.items|;
      forall i | 0 <= i < |v.items| ensures a.items[i] == b.items[i] {
        AlikeItems(text, v, w, i);
        CoercedItem(text, v, i);
        CoercedItem(text, w, i);
        AlikeCoerces(text, v.items[i], w.items[i]);
      }
    } else if v.Obj? {
      assert v.fields.Keys == w.fields.Keys;
      forall k | k in v.fields ensures Coerce(text, v.fields[k]) == Coerce(text, w.fields[k]) {
        AlikeFields(text, v, w, k);
        AlikeCoerces(text, v.fields[k], w.fields[k]);
      }
    }
  }

  /** Two raw schemas are coerced alike exactly if they are alike at every place. */
  lemma CoercedAlikeExactly(text: Json -> string, v: Json, w: Json)
    ensures Coerce(text, v) == Coerce(text, w) <==> Alike(text, v, w)
  {
    if Coerce(text, v) == Coerce(text, w) {
      forall path ensures MarkOf(text, At(v, path)) == MarkOf(text, At(w, path)) {
        CoercedAt(text, v, path);
        CoercedAt(text, w, path);
      }
    }
    if Alike(text, v, w) { AlikeCoerces(text, v, w); }
  }

  /** A float or a tuple at the end of the path. */
  predicate Coercible(v: Json, path: seq<Step>) {
    At(v, path).Some? && (At(v, path).value.Float? || At(v, path).value.Tuple?)
  }

  lemma {:induction false} CoerceKeeps(text: Json -> string, v: Json)
    requires forall path :: !Coercible(v, path)
    ensures Coerce(text, v) == v
  {
    assert !Coercible(v, []);
    if v.List? {
      forall i | 0 <= i < |v.items| ensures Coerce(text, v.items[i]) == v.items[i] {
        forall path ensures !Coercible(v.items[i], path) {
          AtItem(v, i, path);
          assert !Coercible(v, [Index(i)] + path);
        }
        CoerceKeeps(text, v.items[i]);
      }
      assert Coerce(text, v).items == v.items;
    } else if v.Obj? {
      forall k | k in v.fields ensures Coerce(text, v.fields[k]) == v.fields[k] {
        forall path ensures !Coercible(v.fields[k], path) {
          AtField(v, k, path);
          assert !Coercible(v, [Key(k)] + path);
        }
        CoerceKeeps(text, v.fields[k]);
      }
      assert Coerce(text, v).fields == v.fields;
    }
  }

  /** A schema is left as it is exactly if it has no float and no tuple anywhere. */
  lemma CoerceKeepsExactly(text: Json -> string, v: Json)
    ensures Coerce(text, v) == v <==> forall path :: !Coercible(v, path)
  {
    if Coerce(text, v) == v {
      forall path ensures !Coercible(v, path) { CoercedAt(text, v, path); }
    } else if forall path :: !Coercible(v, path) {
      CoerceKeeps(text, v);
    }
  }

  // ------------------------------------------------------- which schemas are told apart

  predicate TopologyAt(v: Json, path: seq<Step>) {
    At(v, path).Some? && At(v, path).value.Obj? && "topology" in At(v, path).value.fields
  }

  ghost predicate TagAt(v: Json, path: seq<Step>) {
    At(v, path).Some? && At(v, path).value.Str? && Tagged(At(v, path).value.s)
  }

  lemma {:induction false} NoTagIsTagFree(v: Json)
    requires forall path :: !TagAt(v, path)
    ensures TagFree(v)
  {
    assert !TagAt(v, []);
    if v.List? {
      forall i | 0 <= i < |v.items| ensures TagFree(v.items[i]) {
        forall path ensures !TagAt(v.items[i], path) {
          AtItem(v, i, path);
          assert !TagAt(v, [Index(i)] + path);
        }
        NoTagIsTagFree(v.items[i]);
      }
    } else if v.Obj? {
      forall k | k in v.fields ensures TagFree(v.fields[k]) {
        forall path ensures !TagAt(v.fields[k], path) {
          AtField(v, k, path);
          assert !TagAt(v, [Key(k)] + path);
        }
        NoTagIsTagFree(v.fields[k]);
      }
    }
  }

  /** Without a topology in it, a value has no other arrangement. */
  lemma {:induction false} RearrangedIsSame(text: Json -> string, v: Json, u: Json)
    requires Rearranged(text, v, u) && forall path :: !TopologyAt(v, path)
    ensures u == v
    decreases v
  {
    if v.List? {
      forall i | 0 <= i < |v.items| ensures u.items[i] == v.items[i] {
        forall path ensures !TopologyAt(v.items[i], path) {
          AtItem(v, i, path);
          assert !TopologyAt(v, [Index(i)] + path);
        }
        RearrangedIsSame(text, v.items[i], u.items[i]);
      }
    } else if v.Obj? {
      assert !TopologyAt(v, []);
      forall k | k in v.fields ensures u.fields[k] == v.fields[k] {
        forall path ensures !TopologyAt(v.fields[k], path) {
          AtField(v, k, path);
          assert !TopologyAt(v, [Key(k)] + path);
        }
        assert RearrangedField(text, k, v.fields[k], u.fields[k]) && k != TOPOLOGY;
        RearrangedIsSame(text, v.fields[k], u.fields[k]);
      }
    }
  }

  lemma NormalSeparates(text: Json -> string, v: Json, w: Json)
    requires forall path :: !TagAt(v, path) && !TopologyAt(v, path)
    requires forall path :: !TagAt(w, path) && !TopologyAt(w, path)
    ensures Normalize(text, v) == Normalize(text, w) <==> v == w
  {
    NoTagIsTagFree(v);
    NoTagIsTagFree(w);
    Recovered(text, v);
    Recovered(text, w);
    RearrangedIsSame(text, v, Untag(Normalize(text, v)));
    RearrangedIsSame(text, w, Untag(Normalize(text, w)));
  }

  /** No text in the schema spells a tag, and no property is called topology. */
  ghost predicate PlainSchema(text: Json -> string, v: Json) {
    forall path ::
      match MarkOf(text, At(v, path))
      case Leaf(Str(s)) => !Tagged(s)
      case Keys(keys) => "topology" !in keys
      case _ => true
  }

  lemma PlainIsCoerced(text: Json -> string, v: Json)
    requires PlainSchema(text, v)
    ensures forall path :: !TagAt(Coerce(text, v), path) && !TopologyAt(Coerce(text, v), path)
  {
    forall path ensures !TagAt(Coerce(text, v), path) && !TopologyAt(Coerce(text, v), path) {
      CoercedAt(text, v, path);
      assert match MarkOf(text, At(v, path))
             case Leaf(Str(s)) => !Tagged(s)
             case Keys(keys) => "topology" !in keys
             case _ => true;
    }
  }

  /** Plain raw schemas have one normal form exactly if they are alike at every place. */
  lemma SchemasIdentifiedExactly(text: Json -> string, v: Json, w: Json)
    requires PlainSchema(text, v) && PlainSchema(text, w)
    ensures Normalize(text, Coerce(text, v)) == Normalize(text, Coerce(text, w)) <==> Alike(text, v, w)
  {
    PlainIsCoerced(text, v);
    PlainIsCoerced(text, w);
    NormalSeparates(text, Coerce(text, v), Coerce(text, w));
    CoercedAlikeExactly(text, v, w);
  }

  /** No float in any node's schema. */
  ghost predicate Hashable(doc: Document) {
    forall id, path :: id in Signatures(doc.nodes) ==> !FloatAt(Signatures(doc.nodes)[id], path)
  }

  lemma HashableExactly(text: Json -> string, doc: Document, packs: seq<Pack>)
    ensures Canonical(text, doc, packs).Some? <==> Hashable(doc)
  {
    RefusedExactly(text, doc, packs);
    var signatures := Signatures(doc.nodes);
    forall id | id in signatures
      ensures HasFloat(signatures[id]) <==> exists path :: FloatAt(signatures[id], path)
    {
      HasFloatExactly(signatures[id]);
    }
  }

  /**
   * What the hash tells apart, in terms of the documents: two documents that can be hashed have one
   * canonical value exactly if they have the same node ids and edges, the same signatures, state
   * schemas that are alike at every place, the same packs and the same requirements.
   */
  lemma CanonicalIdentity(text: Json -> string, a: Document, packsA: seq<Pack>, b: Document, packsB: seq<Pack>)
    requires PlainText(text) && Hashable(a) && Hashable(b)
    requires PlainSchema(text, a.stateSchema) && PlainSchema(text, b.stateSchema)
    ensures Canonical(text, a, packsA) == Canonical(text, b, packsB)
       <==> && SameTopology(a, b)
            && Normalize(text, Obj(Signatures(a.nodes))) == Normalize(text, Obj(Signatures(b.nodes)))
            && Alike(text, a.stateSchema, b.stateSchema)
            && multiset(packsA) == multiset(packsB)
            && PackRequires(a.governance) == PackRequires(b.governance)
  {
    HashableExactly(text, a, packsA);
    HashableExactly(text, b, packsB);
    SchemasIdentifiedExactly(text, a.stateSchema, b.stateSchema);
    StructuralIdentity(text, a, packsA, b, packsB);
  }

  /** The schema component shows wherever two schemas differ: in a key, a length or a value, at any depth. */
  lemma SchemaShows(text: Json -> string, a: Document, packs: seq<Pack>, other: Json, path: seq<Step>)
    requires PlainText(text) && Hashable(a) && PlainSchema(text, a.stateSchema) && PlainSchema(text, other)
    requires MarkOf(text, At(a.stateSchema, path)) != MarkOf(text, At(other, path))
    ensures Canonical(text, a, packs) != Canonical(text, a.(stateSchema := other), packs)
  {
    var b := a.(stateSchema := other);
    CanonicalIdentity(text, a, packs, b, packs);
  }

  // ------------------------------------------------------------------ the payload

  /** The components and their keys; requirements only where some mount declares them. */
  lemma PayloadHolds(text: Json -> string, doc: Document, packs: seq<Pack>)
    ensures Payload(text, doc, packs).Obj?
    ensures var fields := Payload(text, doc, packs).fields;
            && "topology" in fields && fields["topology"].Obj? && "state_schema" in fields
            && "node_signatures" in fields && "rule_pack_versions" in fields
            && ("pack_requires" in fields <==> exists m <- doc.governance :: m.needs.Some?)
    ensures var fields := Payload(text, doc, packs).fields;
            forall path :: MarkOf(text, At(fields["state_schema"], path)) == MarkOf(text, At(doc.stateSchema, path))
    ensures var topology := Payload(text, doc, packs).fields["topology"].fields;
            topology.Keys == {"nodes", "edges"} && topology["nodes"].List? && topology["edges"].List?
  {
    var fields := Payload(text, doc, packs).fields;
    var k0, k1, k2, k3, k4 := "topology", "node_signatures", "state_schema", "rule_pack_versions", "pack_requires";
    assert k0 in fields && k1 in fields && k2 in fields && k3 in fields;
    assert fields[k2] == Coerce(text, doc.stateSchema);
    forall path ensures MarkOf(text, At(fields[k2], path)) == MarkOf(text, At(doc.stateSchema, path)) {
      CoercedAt(text, doc.stateSchema, path);
    }
    assert k4 in fields <==> PackRequires(doc.governance).Some?;
    RequiredExactly(doc.governance);
  }

  lemma RequiredExactly(governance: seq<PackMount>)
    ensures PackRequires(governance).Some? <==> exists m <- governance :: m.needs.Some?
  {
    if PackRequires(governance).Some? {
      var t := Needed(governance)[0];
      assert t in Needed(governance);
      NeededExactly(governance, t);
    }
    if m :| m in governance && m.needs.Some? {
      var t := Triple(m.id, m.needs.value.factsVersion, m.needs.value.apiVersion);
      assert m == PackMount(t.id, Some(Requires(t.facts, t.api)));
      NeededExactly(governance, t);
    }
  }

  /** The texts an edge is sorted by: source, target and port, the port empty when there is none. */
  function Slots(text: Json -> string, e: Json): seq<string> {
    if (e.List? || e.Tuple?) && |e.items| >= 2 then
      [text(e.items[0]), text(e.items[1]), if |e.items| > 2 then text(e.items[2]) else ""]
    else [text(e), "", ""]
  }

  /** The first slot in which they differ decides. */
  ghost predicate InOrder(a: seq<string>, b: seq<string>) {
    a == b || exists k: nat :: k < |a| && k < |b| && a[..k] == b[..k] && a[k] != b[k] && StringLeq(a[k], b[k])
  }

  lemma EdgesInOrder(text: Json -> string, a: Json, b: Json)
    requires ByEdge(text)(a, b)
    ensures InOrder(Slots(text, a), Slots(text, b))
  {
    var x, y := Slots(text, a), Slots(text, b);
    assert EdgeSortKey(text, a) == Edge(x[0], x[1], x[2]) && EdgeSortKey(text, b) == Edge(y[0], y[1], y[2]);
    if x[0] != y[0] {
      assert x[..0] == y[..0];
    } else if x[1] != y[1] {
      assert x[..1] == y[..1];
    } else if x[2] != y[2] {
      assert x[..2] == y[..2];
    }
  }

  /** What a topology's lists become: nodes sorted by text, edges by their slots, any other list in its order. */
  lemma TopologySorted(text: Json -> string, fields: map<string, Json>, key: string)
    requires "topology" in fields && fields["topology"].Obj?
    requires key in fields["topology"].fields && fields["topology"].fields[key].List?
    ensures Normalize(text, Obj(fields)).Obj?
    ensures var out := Normalize(text, Obj(fields)).fields;
            "topology" in out && out["topology"].Obj? && key in out["topology"].fields
            && out["topology"].fields[key].List?
    ensures var was, now := fields["topology"].fields[key].items,
                            Normalize(text, Obj(fields)).fields["topology"].fields[key].items;
            && multiset(now) == multiset(seq(|was|, i requires 0 <= i < |was| => Normalize(text, was[i])))
            && (key == "nodes" ==> forall i, j :: 0 <= i < j < |now| ==> StringLeq(text(now[i]), text(now[j])))
            && (key == "edges" ==> forall i, j :: 0 <= i < j < |now| ==>
                                  InOrder(Slots(text, now[i]), Slots(text, now[j])))
            && (key != "nodes" && key != "edges" ==>
                  |now| == |was| && forall i :: 0 <= i < |now| ==> now[i] == Normalize(text, was[i]))
  {
    var topology := fields["topology"].fields;
    var was := topology[key].items;
    NormalObj(text, fields);
    var all := NormalizeAll(text, was);
    assert Normalize(text, topology[key]) == List(all);
    OrdersAreTotal(text, key);
    var order := OrderFor(text, key);
    if order.Some? {
      SortSorts(order.value, all);
      var now := StableSort(order.value, all);
      if key == EDGES {
        forall i, j | 0 <= i < j < |now| ensures InOrder(Slots(text, now[i]), Slots(text, now[j])) {
          EdgesInOrder(text, now[i], now[j]);
        }
      }
    }
  }

  lemma EdgeLeqInOrder(a: Edge, b: Edge)
    requires EdgeLeq(a, b)
    ensures InOrder([a.src, a.dst, a.port], [b.src, b.dst, b.port])
  {
    var x, y := [a.src, a.dst, a.port], [b.src, b.dst, b.port];
    if x[0] != y[0] {
      assert x[..0] == y[..0];
    } else if x[1] != y[1] {
      assert x[..1] == y[..1];
    } else if x[2] != y[2] {
      assert x[..2] == y[..2];
    }
  }

  lemma TripletSlots(text: Json -> string, a: string, b: string, c: string)
    requires PlainText(text)
    ensures Slots(text, Triplet(a, b, c)) == [a, b, c]
  {
  }

  /** Three strings in a tuple each, in order of the first string in which they differ. */
  ghost predicate SortedTriples(text: Json -> string, items: seq<Json>) {
    && (forall x <- items :: x.Tuple? && |x.items| == 3)
    && forall i, j :: 0 <= i < j < |items| ==> InOrder(Slots(text, items[i]), Slots(text, items[j]))
  }

  lemma EdgeTuplesSorted(text: Json -> string, es: seq<Edge>)
    requires PlainText(text) && SortedBy(EdgeLeq, es)
    ensures SortedTriples(text, EdgeTuples(es).items)
  {
    var items := EdgeTuples(es).items;
    forall i, j | 0 <= i < j < |items| ensures InOrder(Slots(text, items[i]), Slots(text, items[j])) {
      TripletSlots(text, es[i].src, es[i].dst, es[i].port);
      TripletSlots(text, es[j].src, es[j].dst, es[j].port);
      EdgeLeqInOrder(es[i], es[j]);
    }
  }

  lemma PackTuplesSorted(text: Json -> string, ps: seq<Pack>)
    requires PlainText(text) && SortedBy(PackLeq, ps)
    ensures SortedTriples(text, PackTuples(ps).items)
  {
    var items := PackTuples(ps).items;
    forall i, j | 0 <= i < j < |items| ensures InOrder(Slots(text, items[i]), Slots(text, items[j])) {
      TripletSlots(text, ps[i].id, ps[i].sha256, ps[i].version);
      TripletSlots(text, ps[j].id, ps[j].sha256, ps[j].version);
      assert PackLeq(ps[i], ps[j]);
      EdgeLeqInOrder(Edge(ps[i].id, ps[i].sha256, ps[i].version), Edge(ps[j].id, ps[j].sha256, ps[j].version));
    }
  }

  lemma NodeStringsSorted(ids: seq<string>)
    requires SortedBy(StringLeq, ids)
    ensures var items := Strings(ids).items;
            && (forall x <- items :: x.Str?)
            && forall i, j :: 0 <= i < j < |items| ==> StringLeq(items[i].s, items[j].s)
  {
  }

  /** The payload's lists are sorted: node ids, edges as (source, target, port), packs as (id, hash, version). */
  lemma PayloadSorted(text: Json -> string, doc: Document, packs: seq<Pack>)
    requires PlainText(text)
    ensures Payload(text, doc, packs).Obj? && "topology" in Payload(text, doc, packs).fields
    ensures var fields := Payload(text, doc, packs).fields;
            && fields["topology"].Obj? && {"nodes", "edges"} <= fields["topology"].fields.Keys
            && "rule_pack_versions" in fields && fields["rule_pack_versions"].List?
    ensures var topology := Payload(text, doc, packs).fields["topology"].fields;
            && topology["nodes"].List? && topology["edges"].List?
            && (forall x <- topology["nodes"].items :: x.Str?)
            && (forall i, j :: 0 <= i < j < |topology["nodes"].items| ==>
                  StringLeq(topology["nodes"].items[i].s, topology["nodes"].items[j].s))
            && SortedTriples(text, topology["edges"].items)
    ensures SortedTriples(text, Payload(text, doc, packs).fields["rule_pack_versions"].items)
  {
    var k0, k3, k4, k5 := "topology", "rule_pack_versions", "nodes", "edges";
    var ids, edges := StableSort(StringLeq, NodeIds(doc.nodes)), StableSort(EdgeLeq, EdgesOf(doc.rules));
    var sorted := StableSort(PackLeq, packs);
    StringOrder();
    EdgeOrder();
    PackOrder();
    SortSorts(StringLeq, NodeIds(doc.nodes));
    SortSorts(EdgeLeq, EdgesOf(doc.rules));
    SortSorts(PackLeq, packs);
    NodeStringsSorted(ids);
    EdgeTuplesSorted(text, edges);
    PackTuplesSorted(text, sorted);
    var fields := Payload(text, doc, packs).fields;
    assert k0 in fields && k3 in fields && fields[k0] == Obj(Topology(ids, edges)) && fields[k3] == PackTuples(sorted);
    assert Topology(ids, edges)[k4] == Strings(ids) && Topology(ids, edges)[k5] == EdgeTuples(edges);
  }
}
