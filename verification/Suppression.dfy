/**
 * Cross-tile suppression: detections are visited from the most confident down,
 * and each kept one suppresses the later ones whose boxes overlap it enough.
 */
module Suppression {
  import opened Ordering

  /** The overlap measure is directional: the kept box is clipped by the other one. */
  datatype Boxes<!D> = Boxes(confidence: D -> real, hasBox: D -> bool, iou: (D, D) -> real)

  const IOU_THRESHOLD := 0.5

  predicate Overlaps<D>(b: Boxes<D>, kept: D, other: D) {
    b.hasBox(kept) && b.hasBox(other) && b.iou(kept, other) >= IOU_THRESHOLD
  }

  function MoreConfident<D>(b: Boxes<D>): (D, D) -> bool {
    (x, y) => b.confidence(x) >= b.confidence(y)
  }

  /** Index `i` survives exactly if no surviving earlier index overlaps it. */
  predicate Kept<D>(b: Boxes<D>, raw: seq<D>, i: nat)
    requires i < |raw|
    decreases i
  {
    forall k | 0 <= k < i :: Kept(b, raw, k) ==> !Overlaps(b, raw[k], raw[i])
  }

  /** The chosen items among the first `n`, in order. */
  function Pick<D>(raw: seq<D>, chosen: set<nat>, n: nat): seq<D>
    requires n <= |raw|
  {
    if n == 0 then [] else Pick(raw, chosen, n - 1) + if n - 1 in chosen then [raw[n - 1]] else []
  }

  function KeptSet<D>(b: Boxes<D>, raw: seq<D>): set<nat> { set i: nat | i < |raw| && Kept(b, raw, i) }

  function KeptList<D>(b: Boxes<D>, raw: seq<D>): seq<D> { Pick(raw, KeptSet(b, raw), |raw|) }

  /** The chosen positions among the first `n`. */
  function PickAt(chosen: set<nat>, n: nat): seq<nat> {
    if n == 0 then [] else PickAt(chosen, n - 1) + if n - 1 in chosen then [n - 1] else []
  }

  lemma {:induction false} PickAtExactly<D>(raw: seq<D>, chosen: set<nat>, n: nat)
    requires n <= |raw|
    ensures var at, list := PickAt(chosen, n), Pick(raw, chosen, n);
            && |at| == |list|
            && (forall p :: 0 <= p < |at| ==> at[p] < n && at[p] in chosen && list[p] == raw[at[p]])
            && (forall p, q :: 0 <= p < q < |at| ==> at[p] < at[q])
  {
    if n > 0 { PickAtExactly(raw, chosen, n - 1); }
  }

  lemma {:induction false} PickHas<D>(raw: seq<D>, chosen: set<nat>, n: nat, i: nat)
    requires i < n <= |raw| && i in chosen
    ensures raw[i] in Pick(raw, chosen, n)
  {
    if i < n - 1 { PickHas(raw, chosen, n - 1, i); }
  }

  /** A chosen list holds nothing more often than it was given, and as often as that if no occurrence is passed over. */
  lemma {:induction false} PickCount<D>(raw: seq<D>, chosen: set<nat>, n: nat, d: D)
    requires n <= |raw|
    ensures multiset(Pick(raw, chosen, n))[d] <= multiset(raw[..n])[d]
    ensures (forall j: nat :: j < n && raw[j] == d ==> j in chosen) ==>
              multiset(Pick(raw, chosen, n))[d] == multiset(raw[..n])[d]
  {
    if n > 0 {
      PickCount(raw, chosen, n - 1, d);
      var init := raw[..n - 1];
      assert raw[..n] == init + [raw[n - 1]];
      assert multiset(raw[..n]) == multiset(init) + multiset{raw[n - 1]};
    }
  }

  /** No earlier one overlaps a later one. */
  predicate Clear<D>(b: Boxes<D>, keep: seq<D>) {
    forall i, j :: 0 <= i < j < |keep| ==> !Overlaps(b, keep[i], keep[j])
  }

  lemma KeptIsClear<D>(b: Boxes<D>, raw: seq<D>)
    ensures Clear(b, KeptList(b, raw))
  {
    var at, keep := PickAt(KeptSet(b, raw), |raw|), KeptList(b, raw);
    PickAtExactly(raw, KeptSet(b, raw), |raw|);
    forall i, j | 0 <= i < j < |keep| ensures !Overlaps(b, keep[i], keep[j]) {
      assert at[i] < at[j] && at[i] in KeptSet(b, raw) && at[j] in KeptSet(b, raw);
    }
  }

  lemma KeptIsSorted<D>(b: Boxes<D>, raw: seq<D>)
    requires SortedBy(MoreConfident(b), raw)
    ensures SortedBy(MoreConfident(b), KeptList(b, raw))
  {
    var at, keep := PickAt(KeptSet(b, raw), |raw|), KeptList(b, raw);
    PickAtExactly(raw, KeptSet(b, raw), |raw|);
    forall i, j | 0 <= i < j < |keep| ensures MoreConfident(b)(keep[i], keep[j]) {
      assert at[i] < at[j] && MoreConfident(b)(raw[at[i]], raw[at[j]]);
    }
  }

  /** A dropped occurrence is overlapped by a kept detection of at least its confidence. */
  lemma DroppedIsCovered<D>(b: Boxes<D>, raw: seq<D>, d: D)
    requires SortedBy(MoreConfident(b), raw) && multiset(KeptList(b, raw))[d] < multiset(raw)[d]
    ensures exists k <- KeptList(b, raw) :: Overlaps(b, k, d) && b.confidence(k) >= b.confidence(d)
  {
    var chosen := KeptSet(b, raw);
    assert raw[..|raw|] == raw;
    PickCount(raw, chosen, |raw|, d);
    var j: nat :| j < |raw| && raw[j] == d && j !in chosen;
    assert !Kept(b, raw, j);
    var i: nat :| i < j && Kept(b, raw, i) && Overlaps(b, raw[i], raw[j]);
    PickHas(raw, chosen, |raw|, i);
    assert MoreConfident(b)(raw[i], raw[j]);
  }

  /** What is promised of the list of kept detections. */
  ghost predicate Deduplicated<D(!new)>(b: Boxes<D>, detections: seq<D>, keep: seq<D>) {
    && Clear(b, keep) && SortedBy(MoreConfident(b), keep) && multiset(keep) <= multiset(detections)
    && forall d :: multiset(keep)[d] < multiset(detections)[d] ==>
         exists k <- keep :: Overlaps(b, k, d) && b.confidence(k) >= b.confidence(d)
  }

  /** Suppression deduplicates: every detection is kept as often as it was given, or covered by a kept one. */
  lemma SuppressionDeduplicates<D(!new)>(b: Boxes<D>, detections: seq<D>)
    ensures Deduplicated(b, detections, KeptList(b, StableSort(MoreConfident(b), detections)))
  {
    var raw := StableSort(MoreConfident(b), detections);
    assert TotalPreorder(MoreConfident(b));
    SortSorts(MoreConfident(b), detections);
    KeptIsClear(b, raw);
    KeptIsSorted(b, raw);
    assert raw[..|raw|] == raw;
    var keep := KeptList(b, raw);
    forall d: D ensures multiset(keep)[d] <= multiset(raw)[d] { PickCount(raw, KeptSet(b, raw), |raw|, d); }
    forall d | multiset(keep)[d] < multiset(detections)[d]
      ensures exists k <- keep :: Overlaps(b, k, d) && b.confidence(k) >= b.confidence(d)
    {
      DroppedIsCovered(b, raw, d);
    }
  }

  /** Those two facts leave no choice: any selection that has them is the one made. */
  lemma {:induction false} SelectionIsUnique<D>(b: Boxes<D>, raw: seq<D>, chosen: set<nat>, j: nat)
    requires j < |raw|
    requires forall i, k :: 0 <= i < k < |raw| && i in chosen && k in chosen ==> !Overlaps(b, raw[i], raw[k])
    requires forall k :: 0 <= k < |raw| && k !in chosen ==>
               exists i :: 0 <= i < k && i in chosen && Overlaps(b, raw[i], raw[k])
    ensures j in chosen <==> Kept(b, raw, j)
    decreases j
  {
    forall i | 0 <= i < j ensures i in chosen <==> Kept(b, raw, i) {
      SelectionIsUnique(b, raw, chosen, i);
    }
  }

  /** Of two detections the more confident one stays; the other one too, unless both have boxes overlapping by half. */
  lemma KeptOfTwo<D>(b: Boxes<D>, x: D, y: D)
    requires b.confidence(x) >= b.confidence(y)
    ensures KeptList(b, StableSort(MoreConfident(b), [x, y])) ==
            if b.hasBox(x) && b.hasBox(y) && b.iou(x, y) >= 0.5 then [x] else [x, y]
  {
    var raw := [x, y];
    assert raw[1..] == [y] && [y][1..] == [] && StableSort(MoreConfident(b), [y]) == [y];
    assert StableSort(MoreConfident(b), raw) == [x] + [y] == raw;
    assert Kept(b, raw, 0);
    assert Kept(b, raw, 1) <==> !Overlaps(b, x, y);
    var chosen := KeptSet(b, raw);
    assert 0 in chosen && (1 in chosen <==> !Overlaps(b, x, y));
    assert Pick(raw, chosen, 1) == Pick(raw, chosen, 0) + [x] == [x];
    assert Pick(raw, chosen, 2) == [x] + if 1 in chosen then [y] else [];
  }

  method Suppress<D(!new)>(b: Boxes<D>, detections: seq<D>) returns (keep: seq<D>)
    ensures keep == KeptList(b, StableSort(MoreConfident(b), detections))
    ensures Deduplicated(b, detections, keep)
  {
    keep := Visit(b, StableSort(MoreConfident(b), detections));
    SuppressionDeduplicates(b, detections);
  }

  /** One of the first `i` is kept and overlaps detection `j`. */
  ghost predicate Blocked<D>(b: Boxes<D>, raw: seq<D>, i: nat, j: nat)
    requires i <= |raw| && j < |raw|
  {
    exists k: nat :: k < i && Kept(b, raw, k) && Overlaps(b, raw[k], raw[j])
  }

  /** From `i` on, exactly the blocked ones are suppressed. */
  ghost predicate SuppressedSo<D>(b: Boxes<D>, raw: seq<D>, i: nat, suppressed: set<nat>)
    requires i <= |raw|
  {
    forall j: nat :: i <= j < |raw| ==> (j in suppressed <==> Blocked(b, raw, i, j))
  }

  lemma KeptIsUnblocked<D>(b: Boxes<D>, raw: seq<D>, i: nat)
    requires i < |raw|
    ensures Kept(b, raw, i) <==> !Blocked(b, raw, i, i)
  {
  }

  lemma VisitStep<D>(b: Boxes<D>, raw: seq<D>, i: nat, before: set<nat>, after: set<nat>)
    requires i < |raw| && SuppressedSo(b, raw, i, before)
    requires forall j: nat :: i < j < |raw| ==>
               (j in after <==> j in before || (Kept(b, raw, i) && Overlaps(b, raw[i], raw[j])))
    ensures SuppressedSo(b, raw, i + 1, after)
  {
    hide Overlaps;
    forall j: nat | i + 1 <= j < |raw| ensures j in after <==> Blocked(b, raw, i + 1, j) {
      assert j in before <==> Blocked(b, raw, i, j);
      if Blocked(b, raw, i, j) {
        var k: nat :| k < i && Kept(b, raw, k) && Overlaps(b, raw[k], raw[j]);
        assert k < i + 1;
      }
    }
  }

  /** One visit of the detections in the order given. */
  method Visit<D>(b: Boxes<D>, raw: seq<D>) returns (keep: seq<D>)
    ensures keep == KeptList(b, raw)
  {
    keep := [];
    ghost var chosen := KeptSet(b, raw);
    var suppressed: set<nat> := {};
    for i := 0 to |raw|
      invariant keep == Pick(raw, chosen, i)
      invariant SuppressedSo(b, raw, i, suppressed)
    {
      KeptIsUnblocked(b, raw, i);
      ghost var before := suppressed;
      if i in suppressed {
        VisitStep(b, raw, i, before, suppressed);
        continue;
      }
      keep := keep + [raw[i]];
      if !b.hasBox(raw[i]) {
        VisitStep(b, raw, i, before, suppressed);
        continue;
      }
      for j := i + 1 to |raw|
        invariant forall k: nat :: i < k < |raw| ==>
                    (k in suppressed <==> k in before || (k < j && Overlaps(b, raw[i], raw[k])))
      {
        if j in suppressed { continue; }
        if !b.hasBox(raw[j]) { continue; }
        if b.iou(raw[i], raw[j]) >= IOU_THRESHOLD { suppressed := suppressed + {j}; }
      }
      VisitStep(b, raw, i, before, suppressed);
    }
  }
}
