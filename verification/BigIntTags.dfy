/**
 * What normalising keeps of a payload: integers out of range become tagged strings, so a
 * payload is recovered, up to the order of nodes and edges, unless a string carries a tag.
 */
module BigIntTags {
  import opened Wrappers
  import opened Ordering
  import opened StructuralHash

  /** The string is the tag of an integer out of range. */
  ghost predicate Tagged(s: string) { exists n :: Big(n) && s == Tag(n) }

  lemma TagNames(n: int, m: int)
    ensures Tag(n) == Tag(m) <==> n == m
  {
    PrintedApart(n, m);
    TagApart("__stargraph_bigint__:", Printed(n), Printed(m));
  }

  /** A string and an integer meet exactly if the string is that integer's tag. */
  lemma StringMeetsInteger(text: Json -> string, s: string, n: int)
    ensures Normalize(text, Str(s)) == Normalize(text, Int(n)) <==> Big(n) && s == Tag(n)
  {
  }

  /** Tags read as the integers they stand for, outside tuples. */
  ghost function Untag(v: Json): Json {
    match v
    case Str(s) => if Tagged(s) then (var n :| Big(n) && s == Tag(n); Int(n)) else v
    case List(items) => List(seq(|items|, i requires 0 <= i < |items| => Untag(items[i])))
    case Obj(fields) => Obj(map k | k in fields :: Untag(fields[k]))
    case _ => v
  }

  /** No string outside tuples carries a tag. */
  ghost predicate TagFree(v: Json) {
    match v
    case Str(s) => !Tagged(s)
    case List(items) => forall x <- items :: TagFree(x)
    case Obj(fields) => forall k <- fields :: TagFree(fields[k])
    case _ => true
  }

  lemma UntagTag(n: int)
    requires Big(n)
    ensures Untag(Str(Tag(n))) == Int(n)
  {
    assert Tagged(Tag(n));
    forall m | Big(m) && Tag(n) == Tag(m) ensures m == n { TagNames(n, m); }
  }

  lemma {:induction false} UntagIsTagFree(v: Json)
    ensures TagFree(Untag(v))
  {
    match v {
      case List(items) =>
        forall x <- Untag(v).items ensures TagFree(x) {
          var i :| 0 <= i < |items| && Untag(v).items[i] == x;
          UntagIsTagFree(items[i]);
        }
      case Obj(fields) => forall k <- fields ensures TagFree(Untag(fields[k])) { UntagIsTagFree(fields[k]); }
      case _ =>
    }
  }

  // ---------------------------------------------------------- up to topology order

  ghost predicate RearrangedAll(text: Json -> string, v: Json, us: seq<Json>)
    requires v.List?
    decreases v, 0
  {
    |us| == |v.items| && forall i | 0 <= i < |v.items| :: Rearranged(text, v.items[i], us[i])
  }

  /** `u` is `v` with its lists of nodes and of edges in some order. */
  ghost predicate Rearranged(text: Json -> string, v: Json, u: Json)
    decreases v, 1
  {
    match v
    case List(_) => u.List? && RearrangedAll(text, v, u.items)
    case Obj(fields) =>
      u.Obj? && u.fields.Keys == fields.Keys && forall k <- fields :: RearrangedField(text, k, fields[k], u.fields[k])
    case _ => u == v
  }

  ghost predicate RearrangedField(text: Json -> string, k: string, v: Json, u: Json)
    decreases v, 3
  {
    if k == TOPOLOGY && v.Obj? then
      && u.Obj? && u.fields.Keys == v.fields.Keys
      && forall t <- v.fields :: RearrangedEntry(text, t, v.fields[t], u.fields[t])
    else Rearranged(text, v, u)
  }

  ghost predicate RearrangedEntry(text: Json -> string, t: string, v: Json, u: Json)
    decreases v, 2
  {
    if OrderFor(text, t).Some? && v.List? then
      u.List? && exists x :: RearrangedAll(text, v, x) && multiset(x) == multiset(u.items)
    else Rearranged(text, v, u)
  }

  // ------------------------------------------------------------------- recovering

  ghost function UntagAll(items: seq<Json>): seq<Json> { seq(|items|, i requires 0 <= i < |items| => Untag(items[i])) }

  ghost function UntagOne(): Json -> seq<Json> { v => [Untag(v)] }

  lemma {:induction false} UntagAllIsFlatMap(items: seq<Json>)
    ensures FlatMap(UntagOne(), items) == UntagAll(items)
  {
    if items != [] { UntagAllIsFlatMap(items[..|items| - 1]); }
  }

  lemma UntagPermutes(a: seq<Json>, b: seq<Json>)
    requires multiset(a) == multiset(b)
    ensures multiset(UntagAll(a)) == multiset(UntagAll(b))
  {
    FlatMapPermutes(UntagOne(), a, b);
    UntagAllIsFlatMap(a);
    UntagAllIsFlatMap(b);
  }

  lemma UntagList(items: seq<Json>)
    ensures Untag(List(items)) == List(UntagAll(items))
  {
  }

  lemma {:induction false} ItemsRecovered(text: Json -> string, v: Json)
    requires v.List? && TagFree(v)
    ensures RearrangedAll(text, v, UntagAll(NormalizeAll(text, v.items)))
    decreases v, 0
  {
    forall i | 0 <= i < |v.items| ensures Rearranged(text, v.items[i], Untag(Normalize(text, v.items[i]))) {
      Recovered(text, v.items[i]);
    }
  }

  /** Without tags, untagging the normal form gives the payload back, up to the order of nodes and edges. */
  lemma {:induction false} Recovered(text: Json -> string, v: Json)
    requires TagFree(v)
    ensures Rearranged(text, v, Untag(Normalize(text, v)))
    decreases v, 1
  {
    match v {
      case Int(n) => if Big(n) { UntagTag(n); }
      case List(items) =>
        ItemsRecovered(text, v);
        assert Normalize(text, v) == List(NormalizeAll(text, items));
        UntagList(NormalizeAll(text, items));
      case Obj(fields) =>
        NormalObj(text, fields);
        forall k <- fields
          ensures RearrangedField(text, k, fields[k], Untag(NormalizeField(text, k, fields[k])))
        {
          FieldRecovered(text, k, fields[k]);
        }
      case _ =>
    }
  }

  lemma {:induction false} FieldRecovered(text: Json -> string, k: string, v: Json)
    requires TagFree(v)
    ensures RearrangedField(text, k, v, Untag(NormalizeField(text, k, v)))
    decreases v, 3
  {
    if k == TOPOLOGY && v.Obj? {
      forall t <- v.fields
        ensures RearrangedEntry(text, t, v.fields[t], Untag(Arrange(OrderFor(text, t), Normalize(text, v.fields[t]))))
      {
        EntryRecovered(text, t, v.fields[t]);
      }
    } else {
      Recovered(text, v);
    }
  }

  lemma {:induction false} EntryRecovered(text: Json -> string, t: string, v: Json)
    requires TagFree(v)
    ensures RearrangedEntry(text, t, v, Untag(Arrange(OrderFor(text, t), Normalize(text, v))))
    decreases v, 2
  {
    if OrderFor(text, t).Some? && v.List? {
      var order, items := OrderFor(text, t).value, NormalizeAll(text, v.items);
      ItemsRecovered(text, v);
      OrdersAreTotal(text, t);
      SortSorts(order, items);
      UntagPermutes(StableSort(order, items), items);
      UntagList(StableSort(order, items));
      assert Normalize(text, v) == List(items);
    } else {
      Recovered(text, v);
    }
  }

  // ------------------------------------------------------ rearranging keeps tags

  lemma {:induction false} ItemsKeepTags(text: Json -> string, v: Json, us: seq<Json>)
    requires v.List? && RearrangedAll(text, v, us)
    ensures TagFree(v) <==> forall x <- us :: TagFree(x)
    decreases v, 0
  {
    forall i | 0 <= i < |us| ensures TagFree(v.items[i]) <==> TagFree(us[i]) {
      TagsKept(text, v.items[i], us[i]);
    }
    assert forall i | 0 <= i < |us| :: us[i] in us && v.items[i] in v.items;
  }

  lemma {:induction false} TagsKept(text: Json -> string, v: Json, u: Json)
    requires Rearranged(text, v, u)
    ensures TagFree(v) <==> TagFree(u)
    decreases v, 1
  {
    match v {
      case List(_) => ItemsKeepTags(text, v, u.items);
      case Obj(fields) =>
        forall k <- fields ensures TagFree(fields[k]) <==> TagFree(u.fields[k]) {
          FieldKeepsTags(text, k, fields[k], u.fields[k]);
        }
      case _ =>
    }
  }

  lemma {:induction false} FieldKeepsTags(text: Json -> string, k: string, v: Json, u: Json)
    requires RearrangedField(text, k, v, u)
    ensures TagFree(v) <==> TagFree(u)
    decreases v, 3
  {
    if k == TOPOLOGY && v.Obj? {
      forall t <- v.fields ensures TagFree(v.fields[t]) <==> TagFree(u.fields[t]) {
        EntryKeepsTags(text, t, v.fields[t], u.fields[t]);
      }
    } else {
      TagsKept(text, v, u);
    }
  }

  lemma {:induction false} EntryKeepsTags(text: Json -> string, t: string, v: Json, u: Json)
    requires RearrangedEntry(text, t, v, u)
    ensures TagFree(v) <==> TagFree(u)
    decreases v, 2
  {
    if OrderFor(text, t).Some? && v.List? {
      var x :| RearrangedAll(text, v, x) && multiset(x) == multiset(u.items);
      ItemsKeepTags(text, v, x);
      forall w ensures w in x <==> w in u.items {
        if w in x { SameItems(x, u.items, w); }
        if w in u.items { SameItems(u.items, x, w); }
      }
    } else {
      TagsKept(text, v, u);
    }
  }

  // ---------------------------------------------------------------- exactly when

  /** A payload is recovered from its normal form, up to topology order, exactly if no string of it carries a tag. */
  lemma RecoveredExactly(text: Json -> string, v: Json)
    ensures Rearranged(text, v, Untag(Normalize(text, v))) <==> TagFree(v)
  {
    if TagFree(v) { Recovered(text, v); }
    if Rearranged(text, v, Untag(Normalize(text, v))) {
      TagsKept(text, v, Untag(Normalize(text, v)));
      UntagIsTagFree(Normalize(text, v));
    }
  }

  /** Two payloads are rearrangements of one. */
  ghost predicate SameUpToOrder(text: Json -> string, v: Json, w: Json) {
    exists u :: Rearranged(text, v, u) && Rearranged(text, w, u)
  }

  /** So payloads without tags share a normal form only if they differ in topology order alone. */
  lemma NormalizeSeparates(text: Json -> string, v: Json, w: Json)
    requires TagFree(v) && TagFree(w) && Normalize(text, v) == Normalize(text, w)
    ensures SameUpToOrder(text, v, w)
  {
    RecoveredExactly(text, v);
    RecoveredExactly(text, w);
  }

  /** The first integer out of range and the string that is its tag: one normal form, and no common rearrangement. */
  lemma TagCollides(text: Json -> string, n: int)
    requires n == INT_MAX + 1
    ensures Normalize(text, Str(Tag(n))) == Normalize(text, Int(n)) && !SameUpToOrder(text, Str(Tag(n)), Int(n))
  {
  }
}
