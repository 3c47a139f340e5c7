/** Cutting a scene into overlapping patches, and finding the labels of a patch. */
module Patches {
  /** From `x` in strides up to but not including `n`. */
  function Range(x: int, n: int, step: int): seq<int>
    requires step > 0
    decreases n - x
  {
    if x >= n then [] else [x] + Range(x + step, n, step)
  }

  /** Truncation toward zero. */
  function Truncate(x: real): int { if x >= 0.0 then x.Floor else -(-x).Floor }

  function Max(a: int, b: int): int { if a >= b then a else b }

  function Stride(patch: int, overlap: real): (s: int)
    ensures s > 0
  {
    Max(1, Truncate(patch as real * (1.0 - overlap)))
  }

  /** The last patch of an axis of length `n` is pulled back inside it. */
  function Clamp(x: int, n: int, patch: int): int { if x + patch > n then Max(0, n - patch) else x }

  ghost predicate AxisOrigin(o: int, n: int, patch: int, step: int)
    requires step > 0
  {
    exists i :: 0 <= i < |Range(0, n, step)| && o == Clamp(Range(0, n, step)[i], n, patch)
  }

  /** Row-major order. */
  predicate Before(a: (int, int), b: (int, int)) { a.0 < b.0 || (a.0 == b.0 && a.1 < b.1) }

  ghost predicate RowMajor(s: seq<(int, int)>) { forall i, j :: 0 <= i < j < |s| ==> Before(s[i], s[j]) }

  lemma {:induction false} RangeAt(x: int, n: int, step: int, i: nat)
    requires step > 0 && i < |Range(x, n, step)|
    ensures Range(x, n, step)[i] == x + i * step < n
    decreases i
  {
    if i > 0 {
      RangeAt(x + step, n, step, i - 1);
      assert x + step + (i - 1) * step == x + i * step;
    }
  }

  lemma {:induction false} RangeHas(x: int, n: int, step: int, i: nat)
    requires step > 0 && x + i * step < n
    ensures i < |Range(x, n, step)|
    decreases i
  {
    if i == 0 {
    } else {
      assert x + i * step == x + step + (i - 1) * step;
      assert (i - 1) * step >= 0;
      RangeHas(x + step, n, step, i - 1);
    }
  }

  lemma {:induction false} TimesGrows(a: nat, b: nat, step: int)
    requires a <= b && step >= 0
    ensures a * step <= b * step
  {
    if a < b {
      TimesGrows(a, b - 1, step);
      assert b * step == (b - 1) * step + step;
    }
  }

  lemma RangeGrows(n: int, step: int, i: nat, j: nat)
    requires step > 0 && i <= j < |Range(0, n, step)|
    ensures 0 <= Range(0, n, step)[i] <= Range(0, n, step)[j] < n
  {
    RangeAt(0, n, step, i);
    RangeAt(0, n, step, j);
    TimesGrows(0, i, step);
    TimesGrows(i, j, step);
  }

  lemma ClampGrows(x: int, y: int, n: int, patch: int)
    requires 0 <= x <= y
    ensures Clamp(x, n, patch) <= Clamp(y, n, patch)
  {
  }

  /** Some clamped start among the first `k`. */
  ghost predicate Among(o: int, starts: seq<int>, k: nat, n: int, patch: int)
    requires k <= |starts|
  {
    exists i :: 0 <= i < k && o == Clamp(starts[i], n, patch)
  }

  ghost predicate Increasing(starts: seq<int>) { forall i, j :: 0 <= i <= j < |starts| ==> 0 <= starts[i] <= starts[j] }

  lemma RangeIncreasing(n: int, step: int)
    requires step > 0
    ensures Increasing(Range(0, n, step))
  {
    forall i, j | 0 <= i <= j < |Range(0, n, step)| ensures 0 <= Range(0, n, step)[i] <= Range(0, n, step)[j] {
      RangeGrows(n, step, i, j);
    }
  }

  /** After `i` whole rows and `j` columns of the next one: the pairs met so far, each once, in row-major order. */
  ghost predicate Tiled(origins: seq<(int, int)>, rows: seq<int>, cols: seq<int>, h: int, w: int, patch: int, i: nat,
                        j: nat)
    requires i <= |rows| && j <= |cols| && (i == |rows| ==> j == 0)
  {
    && RowMajor(origins)
    && (forall o :: o in origins <==>
                      || (Among(o.0, rows, i, h, patch) && Among(o.1, cols, |cols|, w, patch))
                      || (i < |rows| && o.0 == Clamp(rows[i], h, patch) && Among(o.1, cols, j, w, patch)))
  }

  lemma AmongNext(o: int, starts: seq<int>, k: nat, n: int, patch: int)
    requires k < |starts|
    ensures Among(o, starts, k + 1, n, patch) <==> Among(o, starts, k, n, patch) || o == Clamp(starts[k], n, patch)
  {
  }

  lemma AmongBelow(o: int, starts: seq<int>, k: nat, n: int, patch: int)
    requires Increasing(starts) && k < |starts| && Among(o, starts, k, n, patch)
    ensures o <= Clamp(starts[k], n, patch)
  {
    var i :| 0 <= i < k && o == Clamp(starts[i], n, patch);
    ClampGrows(starts[i], starts[k], n, patch);
  }

  /** A pair not met before comes after all those that were. */
  lemma NewIsLast(origins: seq<(int, int)>, rows: seq<int>, cols: seq<int>, h: int, w: int, patch: int, i: nat, j: nat,
                  o: (int, int))
    requires Increasing(rows) && Increasing(cols) && i < |rows| && j < |cols| &&
               Tiled(origins, rows, cols, h, w, patch, i, j)
    requires (Clamp(rows[i], h, patch), Clamp(cols[j], w, patch)) !in origins && o in origins
    ensures Before(o, (Clamp(rows[i], h, patch), Clamp(cols[j], w, patch)))
  {
    var row, col := Clamp(rows[i], h, patch), Clamp(cols[j], w, patch);
    if Among(o.0, rows, i, h, patch) {
      AmongBelow(o.0, rows, i, h, patch);
      assert Among(col, cols, |cols|, w, patch);
      assert o.0 != row;
    } else {
      AmongBelow(o.1, cols, j, w, patch);
      assert o == (row, o.1);
    }
  }

  lemma TileStep(origins: seq<(int, int)>, rows: seq<int>, cols: seq<int>, h: int, w: int, patch: int, i: nat, j: nat)
    requires Increasing(rows) && Increasing(cols) && i < |rows| && j < |cols| &&
               Tiled(origins, rows, cols, h, w, patch, i, j)
    ensures var new_ := (Clamp(rows[i], h, patch), Clamp(cols[j], w, patch));
            Tiled(if new_ in origins then origins else origins + [new_], rows, cols, h, w, patch, i, j + 1)
  {
    var new_ := (Clamp(rows[i], h, patch), Clamp(cols[j], w, patch));
    forall o: (int, int) ensures Among(o.1, cols, j + 1, w, patch) <==> Among(o.1, cols, j, w, patch) || o.1 == new_.1 {
      AmongNext(o.1, cols, j, w, patch);
    }
    if new_ !in origins {
      forall k | 0 <= k < |origins| ensures Before(origins[k], new_) {
        NewIsLast(origins, rows, cols, h, w, patch, i, j, origins[k]);
      }
    }
  }

  lemma RowDone(origins: seq<(int, int)>, rows: seq<int>, cols: seq<int>, h: int, w: int, patch: int, i: nat)
    requires i < |rows| && Tiled(origins, rows, cols, h, w, patch, i, |cols|)
    ensures Tiled(origins, rows, cols, h, w, patch, i + 1, 0)
  {
    forall o: (int, int)
      ensures Among(o.0, rows, i + 1, h, patch) <==> Among(o.0, rows, i, h, patch) || o.0 == Clamp(rows[i], h, patch)
    {
      AmongNext(o.0, rows, i, h, patch);
    }
  }

  /** Every pair of a row origin and a column origin, each once, in row-major order. */
  method ComputePatchOrigins(sceneH: int, sceneW: int, patch: int, overlap: real) returns (origins: seq<(int, int)>)
    ensures var step := Stride(patch, overlap);
            forall r, c :: (r, c) in origins <==>
                   AxisOrigin(r, sceneH, patch, step) && AxisOrigin(c, sceneW, patch, step)
    ensures RowMajor(origins)
  {
    var step := Stride(patch, overlap);
    origins := [];
    var rows, cols := Range(0, sceneH, step), Range(0, sceneW, step);
    RangeIncreasing(sceneH, step);
    RangeIncreasing(sceneW, step);
    for i := 0 to |rows|
      invariant Tiled(origins, rows, cols, sceneH, sceneW, patch, i, 0)
    {
      var row := rows[i];
      if row + patch > sceneH { row := Max(0, sceneH - patch); }
      for j := 0 to |cols|
        invariant Tiled(origins, rows, cols, sceneH, sceneW, patch, i, j)
      {
        var col := cols[j];
        if col + patch > sceneW { col := Max(0, sceneW - patch); }
        TileStep(origins, rows, cols, sceneH, sceneW, patch, i, j);
        if (row, col) !in origins { origins := origins + [(row, col)]; }
      }
      RowDone(origins, rows, cols, sceneH, sceneW, patch, i);
    }
  }

  /** The stride is what the overlap leaves of the patch, in whole pixels, and at least one. */
  lemma StrideExactly(patch: int, overlap: real, s: int)
    ensures Stride(patch, overlap) == s <==>
              var left := patch as real * (1.0 - overlap);
              if left >= 1.0 then s as real <= left < s as real + 1.0 else s == 1
  {
  }

  /** The origins of an axis: the multiples of the stride at which a patch fits, and the last place it can stand. */
  lemma OriginsExactly(o: int, n: int, patch: int, step: int)
    requires step > 0
    ensures AxisOrigin(o, n, patch, step) <==>
              exists k: nat ::
                k * step < n && (if k * step + patch <= n then o == k * step
                                 else o == if n >= patch then n - patch else 0)
  {
    if AxisOrigin(o, n, patch, step) {
      var i: nat :| i < |Range(0, n, step)| && o == Clamp(Range(0, n, step)[i], n, patch);
      RangeAt(0, n, step, i);
      assert i * step < n;
    }
    if k: nat :| k * step < n && (if k * step + patch <= n then o == k * step
                                  else o == if n >= patch then n - patch else 0)
    {
      RangeHas(0, n, step, k);
      RangeAt(0, n, step, k);
    }
  }

  // ------------------------------------------------------------------- coverage

  ghost predicate Covers(n: int, patch: int, step: int, x: int)
    requires step > 0
  {
    exists o :: AxisOrigin(o, n, patch, step) && o <= x < o + patch
  }

  /** Each origin keeps the patch inside the scene, or is 0 on that axis. */
  lemma OriginInside(o: int, n: int, patch: int, step: int)
    requires step > 0 && AxisOrigin(o, n, patch, step)
    ensures o >= 0 && (o + patch <= n || o == 0)
  {
    var i :| 0 <= i < |Range(0, n, step)| && o == Clamp(Range(0, n, step)[i], n, patch);
    RangeGrows(n, step, i, i);
  }

  lemma StepCovers(n: int, patch: int, step: int, x: int)
    requires 0 < step <= patch && 0 <= x < n
    ensures Covers(n, patch, step, x)
  {
    var k := x / step;
    assert k * step <= x < k * step + step;
    RangeHas(0, n, step, k);
    RangeAt(0, n, step, k);
    assert AxisOrigin(Clamp(k * step, n, patch), n, patch, step);
  }

  /** A stride wider than the patch leaves the pixel after the first patch out. */
  lemma WideStepMisses(patch: int, step: int)
    requires step > 0 && patch < step && patch >= 0
    ensures !Covers(step + patch, patch, step, patch)
  {
    var n := step + patch;
    forall o | AxisOrigin(o, n, patch, step) ensures !(o <= patch < o + patch) {
      var i :| 0 <= i < |Range(0, n, step)| && o == Clamp(Range(0, n, step)[i], n, patch);
      RangeAt(0, n, step, i);
      if i >= 1 { TimesGrows(1, i, step); }
    }
  }

  /** Every pixel of every axis is covered exactly when the stride is no wider than the patch. */
  lemma AxisCoveredExactly(patch: int, step: int)
    requires step > 0
    ensures (forall n, x :: 0 <= x < n ==> Covers(n, patch, step, x)) <==> step <= patch
  {
    if step <= patch {
      forall n, x | 0 <= x < n ensures Covers(n, patch, step, x) { StepCovers(n, patch, step, x); }
    } else if patch >= 0 {
      WideStepMisses(patch, step);
      assert 0 <= patch < step + patch;
    } else {
      assert !Covers(1, patch, step, 0);
    }
  }

  lemma StrideFitsExactly(patch: int, overlap: real)
    ensures Stride(patch, overlap) <= patch <==> patch >= 1 && patch as real * overlap > -1.0
  {
    var x := patch as real * (1.0 - overlap);
    assert x == patch as real - patch as real * overlap;
  }

  /** The pixel lies in some patch of the scene. */
  ghost predicate PixelCovered(h: int, w: int, patch: int, overlap: real, r: int, c: int) {
    Covers(h, patch, Stride(patch, overlap), r) && Covers(w, patch, Stride(patch, overlap), c)
  }

  /** All pixels of all scenes are covered exactly for a positive patch whose overlap is not too negative. */
  lemma ScenesCoveredExactly(patch: int, overlap: real)
    ensures (forall h, w, r, c :: 0 <= r < h && 0 <= c < w ==> PixelCovered(h, w, patch, overlap, r, c))
       <==> patch >= 1 && patch as real * overlap > -1.0
  {
    var step := Stride(patch, overlap);
    AxisCoveredExactly(patch, step);
    StrideFitsExactly(patch, overlap);
    if step > patch {
      var n, x :| 0 <= x < n && !Covers(n, patch, step, x);
      assert !PixelCovered(n, n, patch, overlap, x, x);
    }
  }

  // ------------------------------------------------------------ tiling an image

  /** The detector's own tiling of an axis, which does not pull the last patch back. */
  function TileStarts(n: int, patch: int, step: int): seq<int>
    requires step > 0
  {
    Range(0, Max(n - patch + 1, 1), step)
  }

  ghost predicate TileCovers(n: int, patch: int, step: int, x: int)
    requires step > 0
  {
    exists i :: 0 <= i < |TileStarts(n, patch, step)| &&
        TileStarts(n, patch, step)[i] <= x < TileStarts(n, patch, step)[i] + patch
  }

  lemma TileStartAt(n: int, patch: int, step: int, k: nat)
    requires step > 0 && k * step < Max(n - patch + 1, 1)
    ensures k < |TileStarts(n, patch, step)| && TileStarts(n, patch, step)[k] == k * step
  {
    RangeHas(0, Max(n - patch + 1, 1), step, k);
    RangeAt(0, Max(n - patch + 1, 1), step, k);
  }

  lemma TilesReach(n: int, patch: int, step: int, x: int)
    requires 0 < step && 0 < patch && 0 <= x < n
    requires n <= patch || (step <= patch && (n - patch) % step == 0)
    ensures TileCovers(n, patch, step, x)
  {
    if n <= patch {
      TileStartAt(n, patch, step, 0);
    } else {
      var k := if x <= n - patch then x / step else (n - patch) / step;
      assert x <= n - patch ==> k * step <= x < k * step + step;
      assert x > n - patch ==> k * step == n - patch;
      TileStartAt(n, patch, step, k);
    }
  }

  lemma TilesMiss(n: int, patch: int, step: int, x: int)
    requires 0 < step && 0 < patch < n
    requires x == if step > patch then patch else n - 1
    requires step > patch || (n - patch) % step != 0
    ensures !TileCovers(n, patch, step, x)
  {
    var starts := TileStarts(n, patch, step);
    forall i | 0 <= i < |starts| ensures !(starts[i] <= x < starts[i] + patch) {
      RangeAt(0, Max(n - patch + 1, 1), step, i);
      if step > patch {
        if i >= 1 { TimesGrows(1, i, step); }
      } else {
        MultipleDiffers(n - patch, step, i);
      }
    }
  }

  lemma MultipleDiffers(m: int, step: int, i: nat)
    requires step > 0 && m >= 0 && m % step != 0
    ensures i * step != m
  {
    var q := m / step;
    assert q * step < m < (q + 1) * step;
    if i <= q { TimesGrows(i, q, step); } else { TimesGrows(q + 1, i, step); }
  }

  /**
   * Without clamping, an axis is fully tiled exactly if it fits in one patch or the stride
   * divides what is left of it.
   */
  lemma TiledFullyExactly(n: int, patch: int, step: int)
    requires step > 0 && patch > 0 && n > 0
    ensures (forall x :: 0 <= x < n ==> TileCovers(n, patch, step, x)) <==>
              n <= patch || (step <= patch && (n - patch) % step == 0)
  {
    if n <= patch || (step <= patch && (n - patch) % step == 0) {
      forall x | 0 <= x < n ensures TileCovers(n, patch, step, x) { TilesReach(n, patch, step, x); }
    } else {
      TilesMiss(n, patch, step, if step > patch then patch else n - 1);
    }
  }

  // --------------------------------------------------------------------- labels

  datatype Label = Label(row: real, col: real, lengthM: real)

  datatype Local = Local(full: Label, localRow: real, localCol: real)

  predicate InPatch(l: Label, row: int, col: int, patch: int) {
    0.0 <= l.row - row as real < patch as real && 0.0 <= l.col - col as real < patch as real
  }

  function LocalOf(l: Label, row: int, col: int): Local { Local(l, l.row - row as real, l.col - col as real) }

  function Inside(labels: seq<Label>, row: int, col: int, patch: int): seq<Local> {
    if labels == [] then []
    else
      var n := |labels| - 1;
      Inside(labels[..n], row, col, patch)
      + if InPatch(labels[n], row, col, patch) then [LocalOf(labels[n], row, col)] else []
  }

  method LabelsInPatch(labels: seq<Label>, originRow: int, originCol: int, patch: int) returns (result: seq<Local>)
    ensures result == Inside(labels, originRow, originCol, patch)
  {
    result := [];
    for i := 0 to |labels|
      invariant result == Inside(labels[..i], originRow, originCol, patch)
    {
      assert labels[..i + 1][..i] == labels[..i];
      var lr, lc := labels[i].row - originRow as real, labels[i].col - originCol as real;
      if 0.0 <= lr < patch as real && 0.0 <= lc < patch as real {
        result := result + [Local(labels[i], lr, lc)];
      }
    }
    assert labels[..|labels|] == labels;
  }

  lemma {:induction false} InsideExactly(labels: seq<Label>, row: int, col: int, patch: int, x: Local)
    ensures x in Inside(labels, row, col, patch) <==>
              x.full in labels && InPatch(x.full, row, col, patch) && x == LocalOf(x.full, row, col)
  {
    if labels != [] {
      var n := |labels| - 1;
      InsideExactly(labels[..n], row, col, patch, x);
      assert labels == labels[..n] + [labels[n]];
    }
  }

  /** A local label of a patch: a label less than a patch away from the origin on both axes, by how much. */
  lemma LocalExactly(labels: seq<Label>, row: int, col: int, patch: int, x: Local)
    ensures x in Inside(labels, row, col, patch) <==>
              && x.full in labels
              && x.localRow == x.full.row - row as real && 0.0 <= x.localRow < patch as real
              && x.localCol == x.full.col - col as real && 0.0 <= x.localCol < patch as real
  {
    InsideExactly(labels, row, col, patch, x);
  }

  /** The labels keep their order. */
  lemma {:induction false} InsideInOrder(a: seq<Label>, b: seq<Label>, row: int, col: int, patch: int)
    ensures Inside(a + b, row, col, patch) == Inside(a, row, col, patch) + Inside(b, row, col, patch)
  {
    if b == [] {
      assert a + b == a;
    } else {
      var n := |b| - 1;
      assert (a + b)[..|a| + n] == a + b[..n];
      InsideInOrder(a, b[..n], row, col, patch);
    }
  }

  lemma CoordinateCovered(n: int, patch: int, step: int, x: real) returns (o: int)
    requires 0 < step <= patch && 0.0 <= x < n as real
    ensures AxisOrigin(o, n, patch, step) && 0.0 <= x - o as real < patch as real
  {
    StepCovers(n, patch, step, x.Floor);
    o :| AxisOrigin(o, n, patch, step) && o <= x.Floor < o + patch;
  }

  /** Every label inside the scene turns up in some patch, at local coordinates inside that patch. */
  lemma EveryLabelAppears(h: int, w: int, patch: int, overlap: real, labels: seq<Label>, l: Label)
    returns (row: int, col: int)
    requires patch >= 1 && patch as real * overlap > -1.0
    requires l in labels && 0.0 <= l.row < h as real && 0.0 <= l.col < w as real
    ensures var step := Stride(patch, overlap);
            && AxisOrigin(row, h, patch, step) && AxisOrigin(col, w, patch, step)
            && LocalOf(l, row, col) in Inside(labels, row, col, patch)
            && 0.0 <= LocalOf(l, row, col).localRow < patch as real &&
               0.0 <= LocalOf(l, row, col).localCol < patch as real
  {
    var step := Stride(patch, overlap);
    StrideFitsExactly(patch, overlap);
    row := CoordinateCovered(h, patch, step, l.row);
    col := CoordinateCovered(w, patch, step, l.col);
    InsideExactly(labels, row, col, patch, LocalOf(l, row, col));
  }
}
