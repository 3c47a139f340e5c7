/**
 * Reducer-aware merge of parallel branches: a field written once is taken as it
 * is, a field written more often is folded by its reducer, and without a reducer
 * the merge fails.
 */
module BranchMerge {
  import opened Wrappers

  datatype Branch<+V> = Dict(fields: map<string, V>) | Other(state: V)

  datatype Outcome<+V> = Merged(fields: map<string, V>) | LastState(branch: Branch<V>) | Conflict(field: string)

  /** The values branches wrote to one field, in branch order. */
  function Values<V>(branches: seq<map<string, V>>, field: string): seq<V> {
    if branches == [] then []
    else
      var last := branches[|branches| - 1];
      Values(branches[..|branches| - 1], field) + if field in last then [last[field]] else []
  }

  function Fold<V>(reduce: (V, V) -> V, vs: seq<V>): V
    requires vs != []
  {
    if |vs| == 1 then vs[0] else reduce(Fold(reduce, vs[..|vs| - 1]), vs[|vs| - 1])
  }

  type Registry<!V> = map<string, (V, V) -> V>

  ghost function Fields<V>(branches: seq<map<string, V>>): set<string> {
    set b <- branches, f <- b :: f
  }

  /** Every field written by two or more branches has a reducer. */
  ghost predicate Mergeable<V>(branches: seq<map<string, V>>, reg: Registry<V>) {
    forall f :: |Values(branches, f)| >= 2 ==> f in reg
  }

  function ReducerOf<V>(reg: Registry<V>, field: string): Option<(V, V) -> V> {
    if field in reg then Some(reg[field]) else None
  }

  /** What a merge has to hold for a field with these values. */
  function FieldValue<V>(vs: seq<V>, reducer: Option<(V, V) -> V>): Option<V> {
    if vs == [] then None
    else if |vs| == 1 then Some(vs[0])
    else if reducer.Some? then Some(Fold(reducer.value, vs))
    else None
  }

  lemma {:induction false} WrittenIffField<V>(branches: seq<map<string, V>>, field: string)
    ensures field in Fields(branches) <==> Values(branches, field) != []
  {
    if branches != [] {
      var init, last := branches[..|branches| - 1], branches[|branches| - 1];
      WrittenIffField(init, field);
      assert branches == init + [last];
      assert field in Fields(branches) <==> field in Fields(init) || field in last;
    }
  }

  ghost function MergedFields<V>(branches: seq<map<string, V>>, reg: Registry<V>): map<string, V>
    requires Mergeable(branches, reg)
  {
    map f | f in Fields(branches) ::
        (WrittenIffField(branches, f); FieldValue(Values(branches, f), ReducerOf(reg, f)).value)
  }

  ghost function Merge<V>(branches: seq<map<string, V>>, reg: Registry<V>): Option<map<string, V>> {
    if Mergeable(branches, reg) then Some(MergedFields(branches, reg)) else None
  }

  // ---------------------------------------------------------------- regrouping

  ghost predicate Associative<V(!new)>(reduce: (V, V) -> V) {
    forall a, b, c :: reduce(reduce(a, b), c) == reduce(a, reduce(b, c))
  }

  ghost predicate Commutative<V(!new)>(reduce: (V, V) -> V) {
    forall a, b :: reduce(a, b) == reduce(b, a)
  }

  lemma {:induction false} FoldSplits<V(!new)>(reduce: (V, V) -> V, a: seq<V>, b: seq<V>)
    requires Associative(reduce) && a != [] && b != []
    ensures Fold(reduce, a + b) == reduce(Fold(reduce, a), Fold(reduce, b))
  {
    var n := |b| - 1;
    assert (a + b)[..|a| + n] == a + b[..n];
    if n == 0 {
      assert a + b[..n] == a;
    } else {
      FoldSplits(reduce, a, b[..n]);
    }
  }

  lemma {:induction false} ValuesConcat<V>(a: seq<map<string, V>>, b: seq<map<string, V>>, f: string)
    ensures Values(a + b, f) == Values(a, f) + Values(b, f)
  {
    if b == [] {
      assert a + b == a;
    } else {
      var n := |b| - 1;
      assert (a + b)[..|a| + n] == a + b[..n];
      ValuesConcat(a, b[..n], f);
    }
  }

  lemma ValuesOfTwo<V>(x: map<string, V>, y: map<string, V>, f: string)
    ensures Values([x, y], f) == (if f in x then [x[f]] else []) + (if f in y then [y[f]] else [])
  {
    assert [x, y][..1] == [x] && [x][..0] == [];
    assert Values([x], f) == Values<V>([], f) + (if f in x then [x[f]] else []);
  }

  function Look<V>(m: map<string, V>, f: string): Option<V> {
    if f in m then Some(m[f]) else None
  }

  lemma FieldOf<V>(branches: seq<map<string, V>>, reg: Registry<V>, f: string)
    requires Mergeable(branches, reg)
    ensures Look(MergedFields(branches, reg), f) == FieldValue(Values(branches, f), ReducerOf(reg, f))
  {
    WrittenIffField(branches, f);
  }

  lemma SameMaps<V>(m: map<string, V>, n: map<string, V>)
    requires forall f :: Look(m, f) == Look(n, f)
    ensures m == n
  {
    assert forall f :: f in m <==> Look(m, f).Some?;
    assert forall f :: f in n <==> Look(n, f).Some?;
    forall f <- m ensures m[f] == n[f] { assert Look(m, f) == Look(n, f); }
  }

  lemma {:induction false} WrittenTwice<V>(branches: seq<map<string, V>>, f: string)
    ensures |Values(branches, f)| >= 1 <==> exists i :: 0 <= i < |branches| && f in branches[i]
    ensures |Values(branches, f)| >= 2 <==>
              exists i, j :: 0 <= i < j < |branches| && f in branches[i] && f in branches[j]
  {
    if branches != [] {
      var n := |branches| - 1;
      var init := branches[..n];
      WrittenTwice(init, f);
      if f in branches[n] && |Values(init, f)| >= 1 {
        var i :| 0 <= i < n && f in init[i];
        assert f in branches[i] && f in branches[n];
      }
      if i :| 0 <= i < n && f in init[i] { assert f in branches[i]; }
      if i, j :| 0 <= i < j < n && f in init[i] && f in init[j] { assert f in branches[i] && f in branches[j]; }
      if i, j :| 0 <= i < j < |branches| && f in branches[i] && f in branches[j] {
        assert f in init[i];
        if j < n { assert f in init[j]; }
      }
      if i :| 0 <= i < |branches| && f in branches[i] { if i < n { assert f in init[i]; } }
    }
  }

  /** A merge succeeds exactly if every field written by two branches has a reducer. */
  lemma MergeSucceedsExactly<V>(branches: seq<map<string, V>>, reg: Registry<V>)
    ensures Merge(branches, reg).Some? <==>
            forall f, i, j :: 0 <= i < j < |branches| && f in branches[i] && f in branches[j] ==> f in reg
  {
    forall f
      ensures |Values(branches, f)| >= 2
         <==> exists i, j :: 0 <= i < j < |branches| && f in branches[i] && f in branches[j]
    {
      WrittenTwice(branches, f);
    }
  }

  /** The merged domain is the union of the branches' domains. */
  lemma MergedDomain<V>(branches: seq<map<string, V>>, reg: Registry<V>)
    requires Merge(branches, reg).Some?
    ensures Merge(branches, reg).value.Keys == Fields(branches)
  {
  }

  function AsSeq<V>(o: Option<V>): seq<V> {
    if o.Some? then [o.value] else []
  }

  /** Regrouping, one field at a time. */
  lemma FieldRegroups<V(!new)>(va: seq<V>, vb: seq<V>, reducer: Option<(V, V) -> V>)
    requires reducer.Some? ==> Associative(reducer.value)
    requires reducer.None? ==> |va| + |vb| <= 1
    ensures FieldValue(AsSeq(FieldValue(va, reducer)) + AsSeq(FieldValue(vb, reducer)), reducer)
              == FieldValue(va + vb, reducer)
  {
    if va == [] {
      assert va + vb == vb;
      assert [] + AsSeq(FieldValue(vb, reducer)) == AsSeq(FieldValue(vb, reducer));
    } else if vb == [] {
      assert va + vb == va;
      assert AsSeq(FieldValue(va, reducer)) + [] == AsSeq(FieldValue(va, reducer));
    } else {
      BothRegroup(va, vb, reducer.value);
    }
  }

  lemma BothRegroup<V(!new)>(va: seq<V>, vb: seq<V>, reduce: (V, V) -> V)
    requires Associative(reduce) && va != [] && vb != []
    ensures FieldValue(AsSeq(FieldValue(va, Some(reduce))) + AsSeq(FieldValue(vb, Some(reduce))), Some(reduce))
         == FieldValue(va + vb, Some(reduce))
  {
    FoldSplits(reduce, va, vb);
    var x, y := Fold(reduce, va), Fold(reduce, vb);
    assert [x] + [y] == [x, y];
    FoldTwo(reduce, x, y, y);
  }

  lemma TwoResults<V>(a: seq<map<string, V>>, b: seq<map<string, V>>, reg: Registry<V>, f: string)
    requires Mergeable(a, reg) && Mergeable(b, reg)
    ensures Values([MergedFields(a, reg), MergedFields(b, reg)], f)
         == AsSeq(FieldValue(Values(a, f), ReducerOf(reg, f))) + AsSeq(FieldValue(Values(b, f), ReducerOf(reg, f)))
  {
    FieldOf(a, reg, f);
    FieldOf(b, reg, f);
    ValuesOfTwo(MergedFields(a, reg), MergedFields(b, reg), f);
  }

  lemma MergeableRegroups<V>(a: seq<map<string, V>>, b: seq<map<string, V>>, reg: Registry<V>)
    requires Mergeable(a, reg) && Mergeable(b, reg)
    ensures Mergeable(a + b, reg) <==> Mergeable([MergedFields(a, reg), MergedFields(b, reg)], reg)
  {
    var two := [MergedFields(a, reg), MergedFields(b, reg)];
    forall f ensures |Values(two, f)| >= 2 && f !in reg <==> |Values(a + b, f)| >= 2 && f !in reg {
      ValuesConcat(a, b, f);
      TwoResults(a, b, reg, f);
    }
  }

  lemma PartsMergeable<V>(a: seq<map<string, V>>, b: seq<map<string, V>>, reg: Registry<V>)
    requires Mergeable(a + b, reg)
    ensures Mergeable(a, reg) && Mergeable(b, reg)
  {
    forall f ensures |Values(a + b, f)| == |Values(a, f)| + |Values(b, f)| { ValuesConcat(a, b, f); }
  }

  /**
   * Merging two groups and then their results is merging all at once, failures
   * included, when the reducers are associative.
   */
  lemma MergeRegroups<V(!new)>(a: seq<map<string, V>>, b: seq<map<string, V>>, reg: Registry<V>)
    requires forall f <- reg :: Associative(reg[f])
    ensures Merge(a + b, reg) ==
            if Merge(a, reg).Some? && Merge(b, reg).Some?
            then Merge([Merge(a, reg).value, Merge(b, reg).value], reg)
            else None
  {
    if Mergeable(a, reg) && Mergeable(b, reg) {
      MergeableRegroups(a, b, reg);
      if Mergeable(a + b, reg) { MergedRegroups(a, b, reg); }
    } else if Mergeable(a + b, reg) {
      PartsMergeable(a, b, reg);
    }
  }

  lemma MergedRegroups<V(!new)>(a: seq<map<string, V>>, b: seq<map<string, V>>, reg: Registry<V>)
    requires forall f <- reg :: Associative(reg[f])
    requires Mergeable(a, reg) && Mergeable(b, reg) && Mergeable(a + b, reg)
    requires Mergeable([MergedFields(a, reg), MergedFields(b, reg)], reg)
    ensures MergedFields(a + b, reg) == MergedFields([MergedFields(a, reg), MergedFields(b, reg)], reg)
  {
    var two := [MergedFields(a, reg), MergedFields(b, reg)];
    forall f ensures Look(MergedFields(a + b, reg), f) == Look(MergedFields(two, reg), f) {
      FieldOf(a + b, reg, f);
      FieldOf(two, reg, f);
      TwoResults(a, b, reg, f);
      ValuesConcat(a, b, f);
      assert |Values(a + b, f)| >= 2 ==> f in reg;
      FieldRegroups(Values(a, f), Values(b, f), ReducerOf(reg, f));
    }
    SameMaps(MergedFields(a + b, reg), MergedFields(two, reg));
  }

  // --------------------------------------------------------------- permutation

  function Remove<T>(s: seq<T>, i: nat): seq<T>
    requires i < |s|
  {
    s[..i] + s[i + 1..]
  }

  lemma RemoveItems<T>(s: seq<T>, i: nat)
    requires i < |s|
    ensures multiset(Remove(s, i)) == multiset(s) - multiset{s[i]}
  {
    assert s == s[..i] + [s[i]] + s[i + 1..];
  }

  /** Any value can be folded last. */
  lemma {:induction false} FoldPicks<V(!new)>(reduce: (V, V) -> V, vs: seq<V>, i: nat)
    requires Associative(reduce) && Commutative(reduce) && i < |vs| && |vs| >= 2
    ensures Fold(reduce, vs) == reduce(Fold(reduce, Remove(vs, i)), vs[i])
  {
    var n := |vs| - 1;
    if i == n {
      assert Remove(vs, i) == vs[..n];
    } else if n == 1 {
      assert Remove(vs, 0) == [vs[1]] && vs[..1] == [vs[0]];
    } else {
      FoldPicks(reduce, vs[..n], i);
      var rest := Remove(vs[..n], i);
      assert Remove(vs, i) == rest + [vs[n]];
      assert (rest + [vs[n]])[..|rest|] == rest;
      var r := Fold(reduce, rest);
      assert reduce(reduce(r, vs[i]), vs[n]) == reduce(r, reduce(vs[i], vs[n])) == reduce(r, reduce(vs[n], vs[i]))
          == reduce(reduce(r, vs[n]), vs[i]);
    }
  }

  lemma {:induction false} FoldPermutes<V(!new)>(reduce: (V, V) -> V, vs: seq<V>, ws: seq<V>)
    requires Associative(reduce) && Commutative(reduce)
    requires multiset(vs) == multiset(ws) && vs != [] && ws != []
    ensures Fold(reduce, vs) == Fold(reduce, ws)
  {
    assert |multiset(vs)| == |vs| && |multiset(ws)| == |ws|;
    var n := |ws| - 1;
    var i := IndexOf(vs, ws, n);
    if n > 0 {
      FoldPicks(reduce, vs, i);
      RemoveItems(vs, i);
      RemoveItems(ws, n);
      assert Remove(ws, n) == ws[..n];
      FoldPermutes(reduce, Remove(vs, i), ws[..n]);
    }
  }

  lemma IndexOf<T>(a: seq<T>, b: seq<T>, j: nat) returns (i: nat)
    requires multiset(a) == multiset(b) && j < |b|
    ensures i < |a| && a[i] == b[j]
  {
    assert b[j] in multiset(a);
    i :| i < |a| && a[i] == b[j];
  }

  lemma ValuesPick<V>(branches: seq<map<string, V>>, i: nat, f: string)
    requires i < |branches|
    ensures multiset(Values(branches, f))
         == multiset(Values(Remove(branches, i), f))
             + (if f in branches[i] then multiset{branches[i][f]} else multiset{})
  {
    var pre, one, post := branches[..i], [branches[i]], branches[i + 1..];
    assert branches == (pre + one) + post;
    ValuesConcat(pre + one, post, f);
    ValuesConcat(pre, one, f);
    ValuesConcat(pre, post, f);
    ValuesOfOne(branches[i], f);
  }

  lemma ValuesOfOne<V>(b: map<string, V>, f: string)
    ensures Values([b], f) == if f in b then [b[f]] else []
  {
    assert [b][..0] == [];
  }

  lemma {:induction false} ValuesPermute<V>(a: seq<map<string, V>>, b: seq<map<string, V>>, f: string)
    requires multiset(a) == multiset(b)
    ensures multiset(Values(a, f)) == multiset(Values(b, f))
  {
    assert |multiset(a)| == |a| && |multiset(b)| == |b|;
    if b != [] {
      var n := |b| - 1;
      var i := IndexOf(a, b, n);
      RemoveItems(a, i);
      RemoveItems(b, n);
      ValuesPick(a, i, f);
      ValuesPick(b, n, f);
      ValuesPermute(Remove(a, i), Remove(b, n), f);
    }
  }

  lemma FieldPermutes<V(!new)>(va: seq<V>, vb: seq<V>, reducer: Option<(V, V) -> V>)
    requires reducer.Some? ==> Associative(reducer.value) && Commutative(reducer.value)
    requires multiset(va) == multiset(vb)
    ensures FieldValue(va, reducer) == FieldValue(vb, reducer) && |va| == |vb|
  {
    assert |multiset(va)| == |va| && |multiset(vb)| == |vb|;
    if |va| == 1 {
      assert vb[0] in multiset(va);
    } else if va != [] && reducer.Some? {
      FoldPermutes(reducer.value, va, vb);
    }
  }

  /** With associative and commutative reducers the order of the branches is irrelevant. */
  lemma MergePermutes<V(!new)>(a: seq<map<string, V>>, b: seq<map<string, V>>, reg: Registry<V>)
    requires forall f <- reg :: Associative(reg[f]) && Commutative(reg[f])
    requires multiset(a) == multiset(b)
    ensures Merge(a, reg) == Merge(b, reg)
  {
    forall f
      ensures |Values(a, f)| == |Values(b, f)|
      ensures FieldValue(Values(a, f), ReducerOf(reg, f)) == FieldValue(Values(b, f), ReducerOf(reg, f))
    {
      ValuesPermute(a, b, f);
      FieldPermutes(Values(a, f), Values(b, f), ReducerOf(reg, f));
    }
    if Mergeable(a, reg) {
      forall f ensures Look(MergedFields(a, reg), f) == Look(MergedFields(b, reg), f) {
        FieldOf(a, reg, f);
        FieldOf(b, reg, f);
      }
      SameMaps(MergedFields(a, reg), MergedFields(b, reg));
    }
  }

  /** Merging never depends on branch order. */
  ghost predicate OrderFree<V(!new)>(reg: Registry<V>) {
    forall a, b :: multiset(a) == multiset(b) ==> Merge(a, reg) == Merge(b, reg)
  }

  lemma MergeOfOneField<V>(f: string, vs: seq<V>, reg: Registry<V>)
    requires f in reg && vs != []
    ensures Merge(Singles(f, vs), reg) == Some(map[f := Fold(reg[f], vs)])
  {
    var bs := Singles(f, vs);
    forall g ensures Values(bs, g) == if g == f then vs else [] { ValuesOfSingles(f, vs, g); }
    FieldOf(bs, reg, f);
    assert Fields(bs) == {f} by {
      forall g ensures g in Fields(bs) <==> g == f { WrittenIffField(bs, g); }
    }
    assert Merge(bs, reg).value == map[f := Fold(reg[f], vs)];
  }

  function Singles<V>(f: string, vs: seq<V>): seq<map<string, V>> {
    seq(|vs|, i requires 0 <= i < |vs| => map[f := vs[i]])
  }

  lemma {:induction false} ValuesOfSingles<V>(f: string, vs: seq<V>, g: string)
    ensures Values(Singles(f, vs), g) == if g == f then vs else []
  {
    if vs != [] {
      var n := |vs| - 1;
      assert Singles(f, vs)[..n] == Singles(f, vs[..n]);
      ValuesOfSingles(f, vs[..n], g);
      assert vs == vs[..n] + [vs[n]];
    }
  }

  lemma FoldsAgree<V(!new)>(f: string, vs: seq<V>, ws: seq<V>, reg: Registry<V>)
    requires OrderFree(reg) && f in reg && vs != [] && ws != []
    requires multiset(Singles(f, vs)) == multiset(Singles(f, ws))
    ensures Fold(reg[f], vs) == Fold(reg[f], ws)
  {
    MergeOfOneField(f, vs, reg);
    MergeOfOneField(f, ws, reg);
    var x, y := map[f := Fold(reg[f], vs)], map[f := Fold(reg[f], ws)];
    assert x == y;
    assert x[f] == y[f];
  }

  lemma FoldTwo<V>(reduce: (V, V) -> V, x: V, y: V, z: V)
    ensures Fold(reduce, [x, y]) == reduce(x, y)
    ensures Fold(reduce, [x, y, z]) == reduce(reduce(x, y), z)
  {
    assert [x, y][..1] == [x] && [x, y, z][..2] == [x, y];
  }

  lemma MustCommute<V(!new)>(reg: Registry<V>, f: string, x: V, y: V)
    requires OrderFree(reg) && f in reg
    ensures reg[f](x, y) == reg[f](y, x)
  {
    assert Singles(f, [x, y]) == [map[f := x], map[f := y]] && Singles(f, [y, x]) == [map[f := y], map[f := x]];
    FoldsAgree(f, [x, y], [y, x], reg);
    FoldTwo(reg[f], x, y, x);
    FoldTwo(reg[f], y, x, x);
  }

  lemma RotatedSingles<V>(f: string, x: V, vs: seq<V>)
    ensures multiset(Singles(f, [x] + vs)) == multiset(Singles(f, vs + [x]))
  {
    assert Singles(f, [x] + vs) == Singles(f, [x]) + Singles(f, vs);
    assert Singles(f, vs + [x]) == Singles(f, vs) + Singles(f, [x]);
  }

  lemma MustAssociate<V(!new)>(reg: Registry<V>, f: string, x: V, y: V, z: V)
    requires OrderFree(reg) && f in reg
    ensures reg[f](reg[f](x, y), z) == reg[f](x, reg[f](y, z))
  {
    RotatedSingles(f, x, [y, z]);
    FoldsAgree(f, [x] + [y, z], [y, z] + [x], reg);
    assert [x] + [y, z] == [x, y, z] && [y, z] + [x] == [y, z, x];
    FoldTwo(reg[f], x, y, z);
    FoldTwo(reg[f], y, z, x);
    MustCommute(reg, f, reg[f](y, z), x);
  }

  /** Exactly then: a merge is free of branch order iff every reducer is associative and commutative. */
  lemma OrderFreeExactly<V(!new)>(reg: Registry<V>)
    ensures OrderFree(reg) <==> forall f <- reg :: Associative(reg[f]) && Commutative(reg[f])
  {
    if forall f <- reg :: Associative(reg[f]) && Commutative(reg[f]) {
      forall a, b | multiset(a) == multiset(b) ensures Merge(a, reg) == Merge(b, reg) { MergePermutes(a, b, reg); }
    }
    if OrderFree(reg) {
      forall f <- reg ensures Associative(reg[f]) && Commutative(reg[f]) {
        forall x, y ensures reg[f](x, y) == reg[f](y, x) { MustCommute(reg, f, x, y); }
        forall x, y, z ensures reg[f](reg[f](x, y), z) == reg[f](x, reg[f](y, z)) { MustAssociate(reg, f, x, y, z); }
      }
    }
  }

  // ------------------------------------------------------- where a value is from

  /** `at` lists the branches that wrote the field, in order. */
  ghost predicate Writers<V>(branches: seq<map<string, V>>, f: string, at: seq<nat>) {
    && (forall i :: 0 <= i < |at| ==> at[i] < |branches| && f in branches[at[i]])
    && (forall i, j :: 0 <= i < j < |at| ==> at[i] < at[j])
    && forall k: nat :: k < |branches| && f in branches[k] ==> k in at
  }

  lemma LastWriter<V>(branches: seq<map<string, V>>, f: string, at: seq<nat>)
    requires branches != [] && Writers(branches, f, at)
    ensures var n := |branches| - 1;
            if f in branches[n] then at != [] && at[|at| - 1] == n && Writers(branches[..n], f, at[..|at| - 1])
            else Writers(branches[..n], f, at)
  {
    var n := |branches| - 1;
    if f in branches[n] {
      var i :| 0 <= i < |at| && at[i] == n;
      assert at[i] <= at[|at| - 1];
      forall k: nat | k < n && f in branches[..n][k] ensures k in at[..|at| - 1] {
        assert f in branches[k];
        var j :| 0 <= j < |at| && at[j] == k;
        assert at[..|at| - 1][j] == k;
      }
    } else {
      forall k: nat | k < n && f in branches[..n][k] ensures k in at { assert f in branches[k]; }
    }
  }

  lemma NobodyWrote<V>(f: string, at: seq<nat>)
    requires at != []
    ensures !Writers<V>([], f, at)
  {
    assert at[0] >= 0;
  }

  lemma {:induction false} ValuesAre<V>(branches: seq<map<string, V>>, f: string, at: seq<nat>)
    requires Writers(branches, f, at)
    ensures |Values(branches, f)| == |at|
    ensures forall i :: 0 <= i < |at| ==> Values(branches, f)[i] == branches[at[i]][f]
  {
    if branches != [] {
      var n := |branches| - 1;
      LastWriter(branches, f, at);
      ValuesAre(branches[..n], f, if f in branches[n] then at[..|at| - 1] else at);
    } else if at != [] {
      NobodyWrote<V>(f, at);
    }
  }

  /** The fold takes the values from the left. */
  lemma FoldIsLeft<V>(reduce: (V, V) -> V, vs: seq<V>, v: V)
    ensures Fold(reduce, [v]) == v && (vs != [] ==> Fold(reduce, vs + [v]) == reduce(Fold(reduce, vs), v))
  {
    assert (vs + [v])[..|vs|] == vs;
  }

  /**
   * A merged field holds the value of the one branch that wrote it, or what the reducer makes of the
   * values of all that did, taken in branch order; other fields are not there.
   */
  lemma MergedValueExactly<V>(branches: seq<map<string, V>>, reg: Registry<V>, f: string, at: seq<nat>)
    requires Merge(branches, reg).Some? && Writers(branches, f, at)
    ensures var m := Merge(branches, reg).value;
            && (f in m <==> at != [])
            && (|at| == 1 ==> m[f] == branches[at[0]][f])
            && (|at| >= 2 ==>
                  f in reg && m[f] == Fold(reg[f], seq(|at|, i requires 0 <= i < |at| => branches[at[i]][f])))
  {
    ValuesAre(branches, f, at);
    FieldOf(branches, reg, f);
    assert Values(branches, f) == seq(|at|, i requires 0 <= i < |at| => branches[at[i]][f]);
  }

  // ---------------------------------------------------------------- the method

  ghost predicate AllDicts<V>(results: seq<Branch<V>>) {
    forall b <- results :: b.Dict?
  }

  function Dicts<V>(results: seq<Branch<V>>): seq<map<string, V>>
    requires forall b <- results :: b.Dict?
  {
    if results == [] then [] else Dicts(results[..|results| - 1]) + [results[|results| - 1].fields]
  }

  /** Appends one branch's values to the values per field. */
  method AddBranch<V>(before: map<string, seq<V>>, fields: map<string, V>) returns (all: map<string, seq<V>>)
    ensures forall f :: f in all <==> f in before || f in fields
    ensures forall f <- all ::
              all[f] == (if f in before then before[f] else []) + (if f in fields then [fields[f]] else [])
  {
    all := before;
    var todo := fields.Keys;
    while todo != {}
      invariant todo <= fields.Keys
      invariant forall f :: f in all <==> f in before || f in fields.Keys - todo
      invariant forall f <- all ::
                  all[f] == (if f in before then before[f] else [])
                      + (if f in fields.Keys - todo then [fields[f]] else [])
      decreases todo
    {
      var f :| f in todo;
      todo := todo - {f};
      if f !in all { all := all[f := []]; }
      all := all[f := all[f] + [fields[f]]];
    }
  }

  /** `all` holds exactly the values the branches wrote. */
  ghost predicate Collected<V>(branches: seq<map<string, V>>, all: map<string, seq<V>>) {
    forall f :: (f in all <==> Values(branches, f) != []) && (f in all ==> all[f] == Values(branches, f))
  }

  /** `all_keys`: the values per field, or None at the first branch that is not a dict. */
  method CollectKeys<V>(results: seq<Branch<V>>) returns (allKeys: Option<map<string, seq<V>>>)
    ensures allKeys.Some? <==> AllDicts(results)
    ensures allKeys.Some? ==> Collected(Dicts(results), allKeys.value)
  {
    var all: map<string, seq<V>> := map[];
    for i := 0 to |results|
      invariant AllDicts(results[..i])
      invariant Collected(Dicts(results[..i]), all)
    {
      if !results[i].Dict? {
        assert results[i] in results;
        return None;
      }
      DictsGrow(results, i);
      ghost var before := all;
      all := AddBranch(all, results[i].fields);
      CollectedGrows(Dicts(results[..i]), before, results[i].fields, all);
    }
    assert results[..|results|] == results;
    return Some(all);
  }

  lemma CollectedGrows<V>(branches: seq<map<string, V>>, before: map<string, seq<V>>, fields: map<string, V>,
                          all: map<string, seq<V>>)
    requires Collected(branches, before)
    requires forall f :: f in all <==> f in before || f in fields
    requires forall f <- all ::
               all[f] == (if f in before then before[f] else []) + (if f in fields then [fields[f]] else [])
    ensures Collected(branches + [fields], all)
  {
    forall f ensures Values(branches + [fields], f) == Values(branches, f) + (if f in fields then [fields[f]] else []) {
      ValuesConcat(branches, [fields], f);
      ValuesOfOne(fields, f);
    }
  }

  lemma DictsGrow<V>(results: seq<Branch<V>>, i: nat)
    requires i < |results| && AllDicts(results[..i]) && results[i].Dict?
    ensures AllDicts(results[..i + 1]) && Dicts(results[..i + 1]) == Dicts(results[..i]) + [results[i].fields]
  {
    assert results[..i + 1] == results[..i] + [results[i]];
    assert results[..i + 1][..i] == results[..i];
  }

  /** The left fold over one field's values. */
  method FoldField<V>(reduce: (V, V) -> V, values: seq<V>) returns (result: V)
    requires values != []
    ensures result == Fold(reduce, values)
  {
    result := values[0];
    for i := 1 to |values|
      invariant result == Fold(reduce, values[..i])
    {
      assert values[..i + 1][..i] == values[..i];
      result := reduce(result, values[i]);
    }
    assert values[..|values|] == values;
  }

  method MergeBranchResults<V>(results: seq<Branch<V>>, reg: Registry<V>) returns (r: Outcome<V>)
    ensures !AllDicts(results) ==> r == LastState(results[|results| - 1])
    ensures AllDicts(results) ==>
              match Merge(Dicts(results), reg)
              case Some(fields) => r == Merged(fields)
              case None => r.Conflict? && |Values(Dicts(results), r.field)| >= 2 && r.field !in reg
  {
    var collected := CollectKeys(results);
    if collected.None? { return LastState(results[|results| - 1]); }
    var allKeys := collected.value;
    var merged: map<string, V>, todo := map[], allKeys.Keys;
    while todo != {}
      invariant todo <= allKeys.Keys && merged.Keys == allKeys.Keys - todo
      invariant forall f <- allKeys.Keys - todo :: |allKeys[f]| >= 2 ==> f in reg
      invariant forall f <- allKeys.Keys - todo :: Some(merged[f]) == FieldValue(allKeys[f], ReducerOf(reg, f))
      decreases todo
    {
      var f :| f in todo;
      todo := todo - {f};
      var values := allKeys[f];
      if |values| == 1 {
        merged := merged[f := values[0]];
      } else if f in reg {
        var result := FoldField(reg[f], values);
        merged := merged[f := result];
      } else {
        return Conflict(f);
      }
    }
    AllFieldsMerged(Dicts(results), reg, merged);
    r := Merged(merged);
  }

  lemma AllFieldsMerged<V>(branches: seq<map<string, V>>, reg: Registry<V>, merged: map<string, V>)
    requires forall f :: Look(merged, f) == FieldValue(Values(branches, f), ReducerOf(reg, f))
    requires forall f :: f in merged <==> Values(branches, f) != []
    ensures Merge(branches, reg) == Some(merged)
  {
    forall f | |Values(branches, f)| >= 2 ensures f in reg { assert f in merged; }
    forall f ensures Look(MergedFields(branches, reg), f) == Look(merged, f) { FieldOf(branches, reg, f); }
    SameMaps(MergedFields(branches, reg), merged);
  }
}
