/** The size-bounded JSONL log: appending lines and rotating the active file aside. */
module AuditLog {
  type Bytes = seq<bv8>

  /** The active file and its rotated siblings `.0`, `.1`, ... */
  datatype Log = Log(siblings: map<nat, Bytes>, active: Bytes)

  const NEWLINE: bv8 := 10

  ghost function AtLeast(siblings: map<nat, Bytes>, n: nat): set<nat> { set k | k in siblings && k >= n }

  lemma FewerAbove(siblings: map<nat, Bytes>, n: nat)
    requires n in siblings
    ensures |AtLeast(siblings, n + 1)| < |AtLeast(siblings, n)|
  {
    assert AtLeast(siblings, n) == AtLeast(siblings, n + 1) + {n};
  }

  /** The smallest suffix not taken, searching upwards from `n`. */
  function FirstFree(siblings: map<nat, Bytes>, n: nat): (r: nat)
    ensures r !in siblings && r >= n && forall k :: n <= k < r ==> k in siblings
    decreases |AtLeast(siblings, n)|
  {
    if n !in siblings then n
    else
      FewerAbove(siblings, n);
      FirstFree(siblings, n + 1)
  }

  lemma FirstFreeIs(siblings: map<nat, Bytes>, i: nat)
    requires i !in siblings && forall k :: 0 <= k < i ==> k in siblings
    ensures FirstFree(siblings, 0) == i
  {
    var r := FirstFree(siblings, 0);
    assert r < i ==> r in siblings;
  }

  predicate Rotates(max: int, size: nat, line: Bytes) { max != 0 && size + |line| > max }

  function Rotated(l: Log): Log { Log(l.siblings[FirstFree(l.siblings, 0) := l.active], []) }

  /** One write. */
  function After(max: int, l: Log, line: Bytes): Log {
    var ready := if Rotates(max, |l.active|, line) then Rotated(l) else l;
    ready.(active := ready.active + line)
  }

  function AfterAll(max: int, l: Log, lines: seq<Bytes>): Log {
    if lines == [] then l else After(max, AfterAll(max, l, lines[..|lines| - 1]), lines[|lines| - 1])
  }

  class JSONLAuditSink {
    const maxBytes: int
    var siblings: map<nat, Bytes>
    var active: Bytes
    var bytesWritten: nat

    /** The byte counter is the size of the active file. */
    ghost predicate Valid()
      reads this
    {
      bytesWritten == |active|
    }

    ghost function Contents(): Log
      reads this
    {
      Log(siblings, active)
    }

    /** Opening for append keeps what is already on disk. */
    constructor (onDisk: Log, maxBytes: int)
      ensures Valid() && Contents() == onDisk && this.maxBytes == maxBytes
    {
      this.maxBytes, siblings, active, bytesWritten := maxBytes, onDisk.siblings, onDisk.active, |onDisk.active|;
    }

    method Rotate()
      requires Valid()
      modifies this
      ensures Valid() && Contents() == Rotated(old(Contents()))
    {
      var n: nat := 0;
      while n in siblings
        invariant Contents() == old(Contents())
        invariant forall k :: 0 <= k < n ==> k in siblings
        decreases |AtLeast(siblings, n)|
      {
        FewerAbove(siblings, n);
        n := n + 1;
      }
      ghost var l := Contents();
      FirstFreeIs(l.siblings, n);
      siblings := siblings[n := active];
      active, bytesWritten := [], 0;
      assert Contents() == Rotated(l);
    }

    method Write(event: Bytes)
      requires Valid()
      modifies this
      ensures Valid() && Contents() == After(maxBytes, old(Contents()), event + [NEWLINE])
    {
      var line := event + [NEWLINE];
      if maxBytes != 0 && bytesWritten + |line| > maxBytes {
        Rotate();
      }
      active := active + line;
      bytesWritten := bytesWritten + |line|;
    }
  }

  // --------------------------------------------------------------- conservation

  function Flat(lines: seq<Bytes>): Bytes {
    if lines == [] then [] else Flat(lines[..|lines| - 1]) + lines[|lines| - 1]
  }

  /** The siblings with a suffix below `n`, one after another. */
  function Joined(siblings: map<nat, Bytes>, n: nat): Bytes {
    if n == 0 then [] else Joined(siblings, n - 1) + if n - 1 in siblings then siblings[n - 1] else []
  }

  /** Siblings `.0` to `.n-1` and no others. */
  ghost predicate Contiguous(siblings: map<nat, Bytes>) {
    forall k: nat :: k in siblings <==> k < |siblings|
  }

  /** All the bytes logged, oldest first. */
  function Everything(l: Log): Bytes { Joined(l.siblings, |l.siblings|) + l.active }

  lemma {:induction false} JoinedIgnoresAbove(siblings: map<nat, Bytes>, k: nat, file: Bytes, n: nat)
    requires n <= k
    ensures Joined(siblings[k := file], n) == Joined(siblings, n)
  {
    if n > 0 { JoinedIgnoresAbove(siblings, k, file, n - 1); }
  }

  lemma RotatingConserves(l: Log)
    requires Contiguous(l.siblings)
    ensures Contiguous(Rotated(l).siblings) && |Rotated(l).siblings| == |l.siblings| + 1
    ensures FirstFree(l.siblings, 0) == |l.siblings|
    ensures Everything(Rotated(l)) == Everything(l)
  {
    var n := |l.siblings|;
    FirstFreeIs(l.siblings, n);
    JoinedIgnoresAbove(l.siblings, n, l.active, n);
  }

  lemma WriteConserves(max: int, l: Log, line: Bytes)
    requires Contiguous(l.siblings)
    ensures Contiguous(After(max, l, line).siblings)
    ensures Everything(After(max, l, line)) == Everything(l) + line
  {
    RotatingConserves(l);
    var ready := if Rotates(max, |l.active|, line) then Rotated(l) else l;
    AppendAssociates(Joined(ready.siblings, |ready.siblings|), ready.active, line);
  }

  lemma AppendAssociates(a: Bytes, b: Bytes, c: Bytes)
    ensures a + (b + c) == a + b + c
  {
  }

  /** From contiguous siblings, any writes leave every byte in write order and the siblings contiguous. */
  lemma {:induction false} WritesConserve(max: int, l: Log, lines: seq<Bytes>)
    requires Contiguous(l.siblings)
    ensures Contiguous(AfterAll(max, l, lines).siblings)
    ensures Everything(AfterAll(max, l, lines)) == Everything(l) + Flat(lines)
  {
    if lines != [] {
      var init, last := lines[..|lines| - 1], lines[|lines| - 1];
      WritesConserve(max, l, init);
      WriteConserves(max, AfterAll(max, l, init), last);
      AppendAssociates(Everything(l), Flat(init), last);
    }
  }

  // ---------------------------------------------------------------------- bound

  /** Small enough, or a single line (which no rotation can make smaller). */
  predicate Fits(max: int, file: Bytes, lines: seq<Bytes>) { |file| <= max || file == [] || file in lines }

  /** How the log stands after writing `lines` to `l`. */
  ghost predicate Bounded(max: int, l: Log, now: Log, lines: seq<Bytes>) {
    var m, n := |l.siblings|, |now.siblings|;
    && Contiguous(now.siblings) && Contiguous(l.siblings) && m <= n
    && (forall k :: 0 <= k < m ==> now.siblings[k] == l.siblings[k])
    && (forall k :: m < k < n ==> Fits(max, now.siblings[k], lines))
    && (if m == n then now.active == l.active + Flat(lines)
        else
          && Fits(max, now.active, lines) && l.active <= now.siblings[m]
          && (l.active == [] ==> Fits(max, now.siblings[m], lines)))
    && (m == n && l.active == [] ==> Fits(max, now.active, lines))
  }

  lemma MoreLines(max: int, file: Bytes, lines: seq<Bytes>)
    requires lines != [] && Fits(max, file, lines[..|lines| - 1])
    ensures Fits(max, file, lines)
  {
    assert lines == lines[..|lines| - 1] + [lines[|lines| - 1]];
  }

  lemma RotatedBounds(max: int, l: Log, mid: Log, lines: seq<Bytes>)
    requires lines != [] && Contiguous(l.siblings) && Bounded(max, l, mid, lines[..|lines| - 1])
    ensures Bounded(max, l, Rotated(mid).(active := lines[|lines| - 1]), lines)
  {
    var init, line := lines[..|lines| - 1], lines[|lines| - 1];
    var now := Rotated(mid).(active := line);
    RotatingConserves(mid);
    forall k | |l.siblings| < k < |now.siblings| ensures Fits(max, now.siblings[k], lines) {
      MoreLines(max, now.siblings[k], lines);
    }
    assert line in lines;
    if l.active == [] { MoreLines(max, now.siblings[|l.siblings|], lines); }
  }

  lemma AppendedBounds(max: int, l: Log, mid: Log, lines: seq<Bytes>)
    requires lines != [] && Contiguous(l.siblings) && Bounded(max, l, mid, lines[..|lines| - 1])
    requires max != 0 && |mid.active| + |lines[|lines| - 1]| <= max
    ensures Bounded(max, l, mid.(active := mid.active + lines[|lines| - 1]), lines)
  {
    var init, line := lines[..|lines| - 1], lines[|lines| - 1];
    var m, n := |l.siblings|, |mid.siblings|;
    forall k | m < k < n ensures Fits(max, mid.siblings[k], lines) { MoreLines(max, mid.siblings[k], lines); }
    if m < n && l.active == [] { MoreLines(max, mid.siblings[m], lines); }
    if m == n { AppendAssociates(l.active, Flat(init), line); }
  }

  /**
   * With rotation on, every file the sink begins stays within the ceiling or holds
   * exactly one line; the siblings it found are untouched and the file it found keeps
   * its old bytes in front.
   */
  lemma {:induction false} WritesBound(max: int, l: Log, lines: seq<Bytes>)
    requires Contiguous(l.siblings) && max != 0
    ensures Bounded(max, l, AfterAll(max, l, lines), lines)
  {
    if lines == [] {
      assert l.active + [] == l.active;
    } else {
      var init, line := lines[..|lines| - 1], lines[|lines| - 1];
      var mid := AfterAll(max, l, init);
      WritesBound(max, l, init);
      if Rotates(max, |mid.active|, line) {
        assert [] + line == line;
        RotatedBounds(max, l, mid, lines);
      } else {
        AppendedBounds(max, l, mid, lines);
      }
    }
  }

  /** Every file from sibling `m` on, the active one included, is within the ceiling. */
  ghost predicate Within(max: int, m: nat, now: Log)
    requires Contiguous(now.siblings)
  {
    |now.active| <= max && forall k :: m <= k < |now.siblings| ==> |now.siblings[k]| <= max
  }

  /** Some file from sibling `m` on has at least this size. */
  ghost predicate Reaches(size: nat, m: nat, now: Log)
    requires Contiguous(now.siblings)
  {
    |now.active| >= size || exists k :: m <= k < |now.siblings| && |now.siblings[k]| >= size
  }

  lemma ReachStays(max: int, m: nat, mid: Log, line: Bytes, size: nat)
    requires Contiguous(mid.siblings) && m <= |mid.siblings| && (Reaches(size, m, mid) || size <= |line|)
    ensures Contiguous(After(max, mid, line).siblings) && |mid.siblings| <= |After(max, mid, line).siblings|
    ensures Reaches(size, m, After(max, mid, line))
  {
    RotatingConserves(mid);
    var n, now := |mid.siblings|, After(max, mid, line);
    assert now.siblings == if Rotates(max, |mid.active|, line) then mid.siblings[n := mid.active] else mid.siblings;
    if |mid.active| >= size && Rotates(max, |mid.active|, line) { assert |now.siblings[n]| >= size; }
    if k :| m <= k < n && |mid.siblings[k]| >= size { assert |now.siblings[k]| >= size; }
  }

  /** A line stays whole in the file it was written to. */
  lemma {:induction false} LineStays(max: int, l: Log, lines: seq<Bytes>, line: Bytes)
    requires Contiguous(l.siblings) && line in lines
    ensures var now := AfterAll(max, l, lines);
            Contiguous(now.siblings) && |l.siblings| <= |now.siblings| && Reaches(|line|, |l.siblings|, now)
  {
    var init, last := lines[..|lines| - 1], lines[|lines| - 1];
    var mid := AfterAll(max, l, init);
    assert lines == init + [last];
    SiblingsGrow(max, l, init);
    if line in init { LineStays(max, l, init, line); }
    ReachStays(max, |l.siblings|, mid, last, |line|);
  }

  lemma {:induction false} SiblingsGrow(max: int, l: Log, lines: seq<Bytes>)
    requires Contiguous(l.siblings)
    ensures Contiguous(AfterAll(max, l, lines).siblings) && |l.siblings| <= |AfterAll(max, l, lines).siblings|
  {
    if lines != [] {
      SiblingsGrow(max, l, lines[..|lines| - 1]);
      RotatingConserves(AfterAll(max, l, lines[..|lines| - 1]));
    }
  }

  lemma FitsWithin(max: int, file: Bytes, lines: seq<Bytes>)
    requires max > 0 && Fits(max, file, lines) && forall line <- lines :: |line| <= max
    ensures |file| <= max
  {
  }

  /** From an empty active file, the ceiling is kept by every file begun exactly if every line is within it. */
  lemma CeilingKeptExactly(max: int, l: Log, lines: seq<Bytes>)
    requires Contiguous(l.siblings) && max > 0 && l.active == []
    ensures Contiguous(AfterAll(max, l, lines).siblings)
    ensures Within(max, |l.siblings|, AfterAll(max, l, lines)) <==> forall line <- lines :: |line| <= max
  {
    var m, now := |l.siblings|, AfterAll(max, l, lines);
    SiblingsGrow(max, l, lines);
    WritesBound(max, l, lines);
    if forall line <- lines :: |line| <= max {
      FitsWithin(max, now.active, lines);
      forall k | m <= k < |now.siblings| ensures |now.siblings[k]| <= max { FitsWithin(max, now.siblings[k], lines); }
    } else {
      var line :| line in lines && |line| > max;
      LineStays(max, l, lines, line);
    }
  }

  /** With `max_bytes` zero nothing ever rotates. */
  lemma {:induction false} ZeroNeverRotates(l: Log, lines: seq<Bytes>)
    ensures AfterAll(0, l, lines) == l.(active := l.active + Flat(lines))
  {
    if lines == [] {
      assert l.active + [] == l.active;
    } else {
      var init := lines[..|lines| - 1];
      ZeroNeverRotates(l, init);
      AppendAssociates(l.active, Flat(init), lines[|lines| - 1]);
    }
  }

  /** A write sets the active file aside exactly when the line would take it over the ceiling; the line goes last. */
  lemma RotatesExactly(max: int, l: Log, line: Bytes)
    requires Contiguous(l.siblings)
    ensures var now := After(max, l, line);
            if max != 0 && |l.active| + |line| > max
            then |now.siblings| == |l.siblings| + 1 && now.siblings[|l.siblings|] == l.active && now.active == line
            else now.siblings == l.siblings && now.active == l.active + line
  {
    RotatingConserves(l);
  }

  /** The suffix the file is set aside under is the smallest one free, whatever else is there. */
  lemma SetAsideUnder(max: int, l: Log, line: Bytes, n: nat)
    requires n !in l.siblings && forall k :: 0 <= k < n ==> k in l.siblings
    ensures After(max, l, line) ==
            if max != 0 && |l.active| + |line| > max then Log(l.siblings[n := l.active], line)
            else Log(l.siblings, l.active + line)
  {
    FirstFreeIs(l.siblings, n);
    assert [] + line == line;
  }

  /**
   * A write leaves an empty file aside exactly when the active file is empty and the line
   * alone is over the ceiling.
   */
  lemma EmptyFileExactly(max: int, l: Log, line: Bytes)
    ensures (exists n :: n in After(max, l, line).siblings && n !in l.siblings && After(max, l, line).siblings[n] == [])
       <==> l.active == [] && Rotates(max, 0, line)
  {
    var n := FirstFree(l.siblings, 0);
    if Rotates(max, |l.active|, line) { assert n in After(max, l, line).siblings; }
  }

  // ---------------------------------------------------------------------- order

  /** All the bytes logged, when every suffix in use is below `n`. */
  function Logged(l: Log, n: nat): Bytes { Joined(l.siblings, n) + l.active }

  ghost predicate Below(siblings: map<nat, Bytes>, n: nat) { forall k :: k in siblings ==> k < n }

  ghost predicate InitialSegment(keys: set<nat>) { forall i: nat, j: nat :: i < j && j in keys ==> i in keys }

  /** Whatever is in these siblings and whatever is written, suffix order is write order. */
  ghost predicate KeepsOrder(keys: set<nat>, n: nat) {
    forall max, l: Log, line :: l.siblings.Keys == keys ==> Logged(After(max, l, line), n + 1) == Logged(l, n) + line
  }

  function Ones(keys: set<nat>): map<nat, Bytes> { map k | k in keys :: [1] }

  lemma {:induction false} OnesJoined(keys: set<nat>, n: nat)
    ensures var s := Joined(Ones(keys), n);
            |s| <= n && (forall i :: 0 <= i < |s| ==> s[i] == 1) &&
                ((forall k :: 0 <= k < n ==> k in keys) ==> |s| == n)
  {
    if n > 0 { OnesJoined(keys, n - 1); }
  }

  lemma {:induction false} JoinedPrefix(siblings: map<nat, Bytes>, i: nat, n: nat)
    requires i <= n
    ensures Joined(siblings, i) <= Joined(siblings, n)
  {
    if i < n { JoinedPrefix(siblings, i, n - 1); }
  }

  lemma OneAt(keys: set<nat>, i: nat, j: nat, n: nat)
    requires i < j < n && j in keys && forall k :: 0 <= k < i ==> k in keys
    ensures var s := Joined(Ones(keys), n);
            |s| > i && s[i] == 1
  {
    var ones := Ones(keys);
    OnesJoined(keys, i);
    OnesJoined(keys, n);
    JoinedPrefix(ones, i, j);
    JoinedPrefix(ones, j + 1, n);
    assert Joined(ones, j + 1) == Joined(ones, j) + [1];
  }

  lemma ZeroAt(keys: set<nat>, i: nat, n: nat)
    requires i < n && i !in keys && forall k :: 0 <= k < i ==> k in keys
    ensures var s := Joined(Ones(keys)[i := [0]], n);
            |s| > i && s[i] == 0
  {
    var ones := Ones(keys);
    var filled := ones[i := [0]];
    OnesJoined(keys, i);
    JoinedIgnoresAbove(ones, i, [0], i);
    assert Joined(filled, i + 1) == Joined(ones, i) + [0];
    JoinedPrefix(filled, i + 1, n);
  }

  /** With a gap at `i`, the active file is renamed into it, in front of the later sibling `j`. */
  lemma GapBreaksOrder(keys: set<nat>, i: nat, j: nat, n: nat)
    requires i < j && j in keys && i !in keys && (forall k :: 0 <= k < i ==> k in keys) && forall k <- keys :: k < n
    ensures !KeepsOrder(keys, n)
  {
    var ones := Ones(keys);
    var l := Log(ones, [0]);
    FirstFreeIs(ones, i);
    assert After(1, l, [0]) == Log(ones[i := [0]], [0]);
    OneAt(keys, i, j, n);
    ZeroAt(keys, i, n + 1);
    var got, wanted := Logged(After(1, l, [0]), n + 1), Logged(l, n) + [0];
    assert got[i] == 0 && wanted[i] == 1;
    assert ones.Keys == keys;
  }

  ghost function Naturals(n: nat): (s: set<nat>)
    ensures |s| == n && forall k: nat :: k in s <==> k < n
  {
    if n == 0 then {} else Naturals(n - 1) + {n - 1}
  }

  lemma SegmentSize(siblings: map<nat, Bytes>, n: nat)
    requires InitialSegment(siblings.Keys) && Below(siblings, n)
    ensures Contiguous(siblings)
    decreases n
  {
    if n > 0 && n - 1 in siblings {
      assert siblings.Keys == Naturals(n);
      assert |siblings| == |siblings.Keys| == n;
    } else if n > 0 {
      SegmentSize(siblings, n - 1);
    }
  }

  lemma {:induction false} JoinedSame(siblings: map<nat, Bytes>, m: nat, n: nat)
    requires m <= n && forall k :: m <= k < n ==> k !in siblings
    ensures Joined(siblings, n) == Joined(siblings, m)
  {
    if m < n { JoinedSame(siblings, m, n - 1); }
  }

  lemma ContiguousKeepsOrder(max: int, l: Log, line: Bytes, n: nat)
    requires Contiguous(l.siblings) && Below(l.siblings, n)
    ensures Logged(After(max, l, line), n + 1) == Logged(l, n) + line
  {
    var now := After(max, l, line);
    WriteConserves(max, l, line);
    RotatingConserves(l);
    assert |l.siblings| <= n by {
      assert n in l.siblings <==> n < |l.siblings|;
    }
    JoinedSame(l.siblings, |l.siblings|, n);
    JoinedSame(now.siblings, |now.siblings|, n + 1);
  }

  /** Suffix order stays write order, whatever the files hold, exactly when the suffixes in use have no gap. */
  lemma OrderKeptExactly(keys: set<nat>, n: nat)
    requires forall k <- keys :: k < n
    ensures KeepsOrder(keys, n) <==> InitialSegment(keys)
  {
    if InitialSegment(keys) {
      forall max, l: Log, line | l.siblings.Keys == keys
        ensures Logged(After(max, l, line), n + 1) == Logged(l, n) + line
      {
        SegmentSize(l.siblings, n);
        ContiguousKeepsOrder(max, l, line, n);
      }
    } else {
      var a: nat, j: nat :| a < j && j in keys && a !in keys;
      var some: map<nat, Bytes> := map k | k in keys :: [];
      var i := FirstFree(some, 0);
      assert i <= a by { assert a < i ==> a in some; }
      assert i !in keys;
      forall k | 0 <= k < i ensures k in keys { assert k in some; }
      GapBreaksOrder(keys, i, j, n);
    }
  }
}
