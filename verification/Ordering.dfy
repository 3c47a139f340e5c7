/** Total preorders, Python's stable sort, and the order of strings by code point. */
module Ordering {

  ghost predicate TotalPreorder<T(!new)>(leq: (T, T) -> bool) {
    && (forall a, b :: leq(a, b) || leq(b, a))
    && (forall a, b, c :: leq(a, b) && leq(b, c) ==> leq(a, c))
  }

  ghost predicate Antisymmetric<T(!new)>(leq: (T, T) -> bool) {
    forall a, b :: leq(a, b) && leq(b, a) ==> a == b
  }

  ghost predicate SortedBy<T>(leq: (T, T) -> bool, s: seq<T>) {
    forall i, j :: 0 <= i < j < |s| ==> leq(s[i], s[j])
  }

  function Insert<T>(leq: (T, T) -> bool, x: T, s: seq<T>): (r: seq<T>)
  {
    if s == [] then [x]
    else if leq(x, s[0]) then [x] + s
    else [s[0]] + Insert(leq, x, s[1..])
  }

  /** The stable sort of `s`: ascending, and stable among items that compare equal. */
  function StableSort<T>(leq: (T, T) -> bool, s: seq<T>): (r: seq<T>)
  {
    if s == [] then [] else Insert(leq, s[0], StableSort(leq, s[1..]))
  }

  /** The items of `s` that compare equal to `x`, in their order in `s`. */
  ghost function Class<T>(leq: (T, T) -> bool, x: T, s: seq<T>): seq<T>
  {
    if s == [] then []
    else (if leq(x, s[0]) && leq(s[0], x) then [s[0]] else []) + Class(leq, x, s[1..])
  }

  lemma {:induction false} InsertKeepsItems<T>(leq: (T, T) -> bool, x: T, s: seq<T>)
    ensures multiset(Insert(leq, x, s)) == multiset{x} + multiset(s)
  {
    if s != [] && !leq(x, s[0]) {
      InsertKeepsItems(leq, x, s[1..]);
      assert s == [s[0]] + s[1..];
    }
  }

  lemma SortedCons<T(!new)>(leq: (T, T) -> bool, x: T, s: seq<T>)
    requires SortedBy(leq, s) && forall y <- s :: leq(x, y)
    ensures SortedBy(leq, [x] + s)
  {
  }

  lemma {:induction false} InsertSorted<T(!new)>(leq: (T, T) -> bool, x: T, s: seq<T>)
    requires TotalPreorder(leq) && SortedBy(leq, s)
    ensures SortedBy(leq, Insert(leq, x, s))
  {
    if s == [] {
    } else if leq(x, s[0]) {
      forall y <- s ensures leq(x, y) { assert leq(s[0], s[0]) && leq(s[0], y); }
      SortedCons(leq, x, s);
    } else {
      InsertSorted(leq, x, s[1..]);
      InsertKeepsItems(leq, x, s[1..]);
      var r := Insert(leq, x, s[1..]);
      forall y <- r ensures leq(s[0], y) {
        assert y in multiset(r);
        assert y == x || y in multiset(s[1..]);
        assert y == x || y in s[1..];
      }
      SortedCons(leq, s[0], r);
    }
  }

  lemma {:induction false} SortSorts<T(!new)>(leq: (T, T) -> bool, s: seq<T>)
    requires TotalPreorder(leq)
    ensures SortedBy(leq, StableSort(leq, s))
    ensures multiset(StableSort(leq, s)) == multiset(s)
  {
    if s != [] {
      SortSorts(leq, s[1..]);
      InsertSorted(leq, s[0], StableSort(leq, s[1..]));
      InsertKeepsItems(leq, s[0], StableSort(leq, s[1..]));
      assert s == [s[0]] + s[1..];
    }
  }

  lemma {:induction false} SortedIsFixed<T(!new)>(leq: (T, T) -> bool, s: seq<T>)
    requires TotalPreorder(leq) && SortedBy(leq, s)
    ensures StableSort(leq, s) == s
  {
    if s != [] {
      SortedIsFixed(leq, s[1..]);
      if |s| > 1 { assert leq(s[0], s[1]); }
    }
  }

  /** The part of a class that one item contributes. */
  ghost function OwnClass<T>(leq: (T, T) -> bool, k: T, x: T): seq<T> { if leq(k, x) && leq(x, k) then [x] else [] }

  lemma ClassCons<T>(leq: (T, T) -> bool, k: T, x: T, s: seq<T>)
    ensures Class(leq, k, [x] + s) == OwnClass(leq, k, x) + Class(leq, k, s)
  {
    assert ([x] + s)[1..] == s;
  }

  lemma SwapApart<T(!new)>(leq: (T, T) -> bool, k: T, x: T, y: T)
    requires TotalPreorder(leq) && !leq(x, y)
    ensures OwnClass(leq, k, x) == [] || OwnClass(leq, k, y) == []
  {
  }

  lemma SwapFronts<T>(a: seq<T>, b: seq<T>, c: seq<T>)
    requires a == [] || b == []
    ensures a + (b + c) == b + (a + c)
  {
    if a == [] { assert a + (b + c) == b + c && a + c == c; }
    if b == [] { assert b + (a + c) == a + c && b + c == c; }
  }

  lemma {:induction false} InsertClass<T(!new)>(leq: (T, T) -> bool, x: T, s: seq<T>, k: T)
    requires TotalPreorder(leq)
    ensures Class(leq, k, Insert(leq, x, s)) == Class(leq, k, [x] + s)
  {
    if s != [] && !leq(x, s[0]) {
      InsertClass(leq, x, s[1..], k);
      ClassCons(leq, k, s[0], Insert(leq, x, s[1..]));
      ClassCons(leq, k, x, s[1..]);
      ClassCons(leq, k, x, s);
      assert s == [s[0]] + s[1..];
      ClassCons(leq, k, s[0], s[1..]);
      SwapApart(leq, k, x, s[0]);
      SwapFronts(OwnClass(leq, k, s[0]), OwnClass(leq, k, x), Class(leq, k, s[1..]));
    }
  }

  /** Stability: items that compare equal keep their order. */
  lemma {:induction false} SortIsStable<T(!new)>(leq: (T, T) -> bool, s: seq<T>, k: T)
    requires TotalPreorder(leq)
    ensures Class(leq, k, StableSort(leq, s)) == Class(leq, k, s)
  {
    if s != [] {
      SortIsStable(leq, s[1..], k);
      var t := StableSort(leq, s[1..]);
      InsertClass(leq, s[0], t, k);
      assert ([s[0]] + t)[1..] == t;
    }
  }

  lemma Regroup<T>(a: seq<T>, b: seq<T>, c: seq<T>)
    ensures a + (b + c) == (a + b) + c
  {
  }

  lemma {:induction false} ClassOfConcat<T>(leq: (T, T) -> bool, k: T, a: seq<T>, b: seq<T>)
    ensures Class(leq, k, a + b) == Class(leq, k, a) + Class(leq, k, b)
  {
    if a == [] {
      assert a + b == b;
    } else {
      ClassOfConcat(leq, k, a[1..], b);
      var ab := a + b;
      assert ab[0] == a[0] && ab[1..] == a[1..] + b;
      var head := if leq(k, a[0]) && leq(a[0], k) then [a[0]] else [];
      assert Class(leq, k, ab) == head + Class(leq, k, ab[1..]) && Class(leq, k, a) == head + Class(leq, k, a[1..]);
      Regroup(head, Class(leq, k, a[1..]), Class(leq, k, b));
    }
  }

  lemma {:induction false} ClassWithin<T>(leq: (T, T) -> bool, k: T, s: seq<T>, x: T)
    requires x in Class(leq, k, s)
    ensures x in s && leq(k, x) && leq(x, k)
  {
    if !(leq(k, s[0]) && leq(s[0], k) && s[0] == x) {
      ClassWithin(leq, k, s[1..], x);
    }
  }

  lemma {:induction false} ClassHas<T>(leq: (T, T) -> bool, k: T, s: seq<T>, x: T)
    requires x in s && leq(k, x) && leq(x, k)
    ensures x in Class(leq, k, s)
  {
    if s[0] != x {
      assert x in s[1..];
      ClassHas(leq, k, s[1..], x);
    }
  }

  lemma HeadHasClass<T(!new)>(leq: (T, T) -> bool, s: seq<T>)
    requires TotalPreorder(leq) && s != []
    ensures Class(leq, s[0], s) != []
  {
    assert leq(s[0], s[0]);
  }

  /** A sorted list is determined by its classes. */
  lemma {:induction false} SortedByClasses<T(!new)>(leq: (T, T) -> bool, a: seq<T>, b: seq<T>)
    requires TotalPreorder(leq) && SortedBy(leq, a) && SortedBy(leq, b)
    requires forall k :: Class(leq, k, a) == Class(leq, k, b)
    ensures a == b
  {
    if a == [] {
      if b != [] { HeadHasClass(leq, b); }
    } else if b == [] {
      HeadHasClass(leq, a);
    } else {
      FirstOfClass(leq, a, b);
      assert leq(a[0], b[0]) && leq(b[0], a[0]);
      assert Class(leq, a[0], a)[0] == a[0];
      assert Class(leq, a[0], b)[0] == b[0];
      assert a[0] == b[0];
      forall k ensures Class(leq, k, a[1..]) == Class(leq, k, b[1..]) {
        assert Class(leq, k, a) == Class(leq, k, b);
        if leq(k, a[0]) && leq(a[0], k) {
          assert Class(leq, k, a)[1..] == Class(leq, k, a[1..]);
          assert Class(leq, k, b)[1..] == Class(leq, k, b[1..]);
        } else {
          assert Class(leq, k, a) == [] + Class(leq, k, a[1..]) == Class(leq, k, a[1..]);
          assert Class(leq, k, b) == [] + Class(leq, k, b[1..]) == Class(leq, k, b[1..]);
        }
      }
      SortedByClasses(leq, a[1..], b[1..]);
      assert a == [a[0]] + a[1..] && b == [b[0]] + b[1..];
    }
  }

  lemma FirstOfClass<T(!new)>(leq: (T, T) -> bool, a: seq<T>, b: seq<T>)
    requires TotalPreorder(leq) && SortedBy(leq, a) && SortedBy(leq, b)
    requires a != [] && b != []
    requires forall k :: Class(leq, k, a) == Class(leq, k, b)
    ensures leq(a[0], b[0]) && leq(b[0], a[0])
  {
    ClassHas(leq, a[0], a, a[0]);
    assert a[0] in Class(leq, a[0], b);
    ClassWithin(leq, a[0], b, a[0]);
    ClassHas(leq, b[0], b, b[0]);
    assert b[0] in Class(leq, b[0], a);
    ClassWithin(leq, b[0], a, b[0]);
  }

  /** No two different items of `s` compare equal. */
  ghost predicate NoTies<T>(leq: (T, T) -> bool, s: seq<T>) {
    forall i, j :: 0 <= i < |s| && 0 <= j < |s| && leq(s[i], s[j]) && leq(s[j], s[i]) ==> s[i] == s[j]
  }

  lemma SameItems<T>(a: seq<T>, b: seq<T>, x: T)
    requires multiset(a) == multiset(b) && x in a
    ensures x in b
  {
    assert x in multiset(b);
  }

  lemma TailItems<T>(s: seq<T>)
    requires s != []
    ensures multiset(s[1..]) == multiset(s) - multiset{s[0]}
  {
    assert s == [s[0]] + s[1..];
  }

  lemma SmallestFirst<T(!new)>(leq: (T, T) -> bool, s: seq<T>, x: T)
    requires TotalPreorder(leq) && SortedBy(leq, s) && x in s
    ensures leq(s[0], x)
  {
    assert leq(s[0], s[0]);
  }

  /** With no ties, a sorted list is determined by its items. */
  lemma {:induction false} SortedUnique<T(!new)>(leq: (T, T) -> bool, a: seq<T>, b: seq<T>)
    requires TotalPreorder(leq) && SortedBy(leq, a) && SortedBy(leq, b)
    requires multiset(a) == multiset(b) && NoTies(leq, a)
    ensures a == b
  {
    assert |multiset(a)| == |a| && |multiset(b)| == |b|;
    if a != [] {
      assert a[0] == b[0] by {
        SameItems(a, b, a[0]);
        SameItems(b, a, b[0]);
        SmallestFirst(leq, a, b[0]);
        SmallestFirst(leq, b, a[0]);
        var j :| 0 <= j < |a| && a[j] == b[0];
        assert leq(a[0], a[j]) && leq(a[j], a[0]);
      }
      TailItems(a);
      TailItems(b);
      assert NoTies(leq, a[1..]);
      SortedUnique(leq, a[1..], b[1..]);
      assert a == [a[0]] + a[1..] && b == [b[0]] + b[1..];
    }
  }

  lemma SortForgetsOrder<T(!new)>(leq: (T, T) -> bool, a: seq<T>, b: seq<T>)
    requires TotalPreorder(leq) && Antisymmetric(leq)
    ensures StableSort(leq, a) == StableSort(leq, b) <==> multiset(a) == multiset(b)
  {
    SortSorts(leq, a);
    SortSorts(leq, b);
    if multiset(a) == multiset(b) {
      SortedUnique(leq, StableSort(leq, a), StableSort(leq, b));
    }
  }

  /** Code-point order of strings, as Python compares them. */
  predicate StringLeq(a: string, b: string) {
    a == [] || (b != [] && (a[0] < b[0] || (a[0] == b[0] && StringLeq(a[1..], b[1..]))))
  }

  lemma {:induction false} StringLeqTotal(a: string, b: string)
    ensures StringLeq(a, b) || StringLeq(b, a)
    ensures StringLeq(a, b) && StringLeq(b, a) ==> a == b
  {
    if a != [] && b != [] {
      StringLeqTotal(a[1..], b[1..]);
      assert a == [a[0]] + a[1..] && b == [b[0]] + b[1..];
    }
  }

  lemma {:induction false} StringLeqTransitive(a: string, b: string, c: string)
    requires StringLeq(a, b) && StringLeq(b, c)
    ensures StringLeq(a, c)
  {
    if a != [] && a[0] == b[0] && b[0] == c[0] {
      StringLeqTransitive(a[1..], b[1..], c[1..]);
    }
  }

  lemma StringOrder()
    ensures TotalPreorder(StringLeq) && Antisymmetric(StringLeq)
  {
    forall a, b ensures StringLeq(a, b) || StringLeq(b, a)
      ensures StringLeq(a, b) && StringLeq(b, a) ==> a == b
    {
      StringLeqTotal(a, b);
    }
    forall a, b, c | StringLeq(a, b) && StringLeq(b, c) ensures StringLeq(a, c) {
      StringLeqTransitive(a, b, c);
    }
  }

  /** They agree up to `k`, where the first one ends or has the smaller character. */
  ghost predicate SmallerAt(a: string, b: string, k: nat) {
    k <= |a| && k <= |b| && a[..k] == b[..k] && (k == |a| || (k < |b| && a[k] < b[k]))
  }

  lemma TailPrefix(s: string, k: nat)
    requires k < |s|
    ensures s[..k + 1] == [s[0]] + s[1..][..k]
  {
  }

  lemma SmallerCons(a: string, b: string, k: nat)
    requires a != [] && b != [] && a[0] == b[0]
    ensures SmallerAt(a, b, k + 1) <==> SmallerAt(a[1..], b[1..], k)
  {
    if k < |a| && k < |b| {
      TailPrefix(a, k);
      TailPrefix(b, k);
      var x, y := a[1..][..k], b[1..][..k];
      assert a[..k + 1][1..] == x && b[..k + 1][1..] == y;
      assert x == y <==> a[..k + 1] == b[..k + 1];
    }
  }

  lemma PrefixesDiffer(a: string, b: string, k: nat)
    requires 0 < k <= |a| && k <= |b| && a[0] != b[0]
    ensures a[..k] != b[..k]
  {
    assert a[..k][0] == a[0] && b[..k][0] == b[0];
  }

  /** The order is decided at the first place where two strings differ. */
  lemma {:induction false} StringLeqExactly(a: string, b: string)
    ensures StringLeq(a, b) <==> exists k: nat :: SmallerAt(a, b, k)
  {
    if a == [] {
      assert SmallerAt(a, b, 0);
    } else if b == [] {
      forall k: nat ensures !SmallerAt(a, b, k) { }
    } else if a[0] == b[0] {
      StringLeqExactly(a[1..], b[1..]);
      if k: nat :| SmallerAt(a[1..], b[1..], k) { SmallerCons(a, b, k); }
      if k: nat :| SmallerAt(a, b, k) { SmallerCons(a, b, k - 1); }
    } else {
      if a[0] < b[0] { assert SmallerAt(a, b, 0); }
      forall k: nat | 0 < k <= |a| && k <= |b| ensures a[..k] != b[..k] { PrefixesDiffer(a, b, k); }
    }
  }
}
