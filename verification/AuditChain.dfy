/** The hash-chained audit trail, and what its head binds. */
module AuditChain {
  type Bytes = seq<bv8>

  /** A record as it is hashed; `link` is `prev_sha256`. */
  datatype Record = Record(runId: string, index: nat, ts: string, event: string, link: Bytes)

  /** A written line: the record with its digest. */
  datatype Line = Line(record: Record, sha256: Bytes)

  /** SHA-256 in hex, and the canonical JSON of a record. */
  datatype Env = Env(hash: Bytes -> Bytes, canonical: Record -> Bytes)

  const LENGTH := 64

  /** The link of a first record: 64 zero digits. */
  function Genesis(): Bytes { seq(LENGTH, (i: nat) => 48) }

  /** Digests have a fixed length; canonical JSON distinguishes records. Nothing is assumed about collisions. */
  ghost predicate WellFormed(env: Env) {
    && (forall x :: |env.hash(x)| == LENGTH)
    && (forall r, s :: env.canonical(r) == env.canonical(s) ==> r == s)
  }

  function Input(env: Env, r: Record): Bytes { r.link + env.canonical(r) }

  function Digest(env: Env, r: Record): Bytes { env.hash(Input(env, r)) }

  /** The digest a further line must link to. */
  function Head(lines: seq<Line>): Bytes { if lines == [] then Genesis() else lines[|lines| - 1].sha256 }

  /** What an offline check confirms line by line. */
  predicate Rechecks(env: Env, lines: seq<Line>) {
    if lines == [] then true
    else
      var n := |lines| - 1;
      Rechecks(env, lines[..n]) && lines[n].record.link == Head(lines[..n]) &&
          lines[n].sha256 == Digest(env, lines[n].record)
  }

  /** 64 times the character 0. */
  predicate Zeros(b: Bytes) { |b| == 64 && forall i :: 0 <= i < |b| ==> b[i] == '0' as bv8 }

  /** Each digest is that of link and canonical record, each link the digest before it, and the first 64 zeros. */
  ghost predicate Chained(env: Env, lines: seq<Line>) {
    && (forall i :: 0 <= i < |lines| ==>
          lines[i].sha256 == env.hash(lines[i].record.link + env.canonical(lines[i].record)))
    && (lines != [] ==> Zeros(lines[0].record.link))
    && forall i, j :: 0 <= i && j == i + 1 < |lines| ==> lines[j].record.link == lines[i].sha256
  }

  lemma ChainedNext(env: Env, lines: seq<Line>)
    requires lines != []
    ensures var n := |lines| - 1;
            Chained(env, lines) <==>
              && Chained(env, lines[..n])
              && lines[n].sha256 == env.hash(lines[n].record.link + env.canonical(lines[n].record))
              && (if n == 0 then Zeros(lines[0].record.link) else lines[n].record.link == lines[n - 1].sha256)
  {
    hide Zeros;
    var n := |lines| - 1;
    var init := lines[..n];
    assert forall i :: 0 <= i < n ==> init[i] == lines[i];
  }

  lemma OnlyZeros()
    ensures Zeros(Genesis()) && forall b :: Zeros(b) ==> b == Genesis()
  {
  }

  /** The check, line by line. */
  lemma {:induction false} RechecksExactly(env: Env, lines: seq<Line>)
    ensures Rechecks(env, lines) <==> Chained(env, lines)
  {
    if lines != [] {
      hide Chained;
      var n := |lines| - 1;
      RechecksExactly(env, lines[..n]);
      ChainedNext(env, lines);
      OnlyZeros();
      if n > 0 { assert Head(lines[..n]) == lines[n - 1].sha256; }
    }
  }

  /** The trail sealed for these events; `clock` gives each line's timestamp. */
  function Sealed(env: Env, runId: string, events: seq<string>, clock: nat -> string): seq<Line> {
    if events == [] then []
    else
      var n := |events| - 1;
      var before := Sealed(env, runId, events[..n], clock);
      var record := Record(runId, n, clock(n), events[n], Head(before));
      before + [Line(record, Digest(env, record))]
  }

  method Seal(env: Env, runId: string, events: seq<string>, clock: nat -> string)
    returns (lines: seq<Line>, chainHead: Bytes)
    ensures lines == Sealed(env, runId, events, clock) && chainHead == Head(lines)
  {
    var prev := Genesis();
    lines := [];
    for n := 0 to |events|
      invariant lines == Sealed(env, runId, events[..n], clock) && prev == Head(lines)
    {
      assert events[..n + 1][..n] == events[..n];
      var record := Record(runId, n, clock(n), events[n], prev);
      var digest := env.hash(prev + env.canonical(record));
      lines := lines + [Line(record, digest)];
      prev := digest;
    }
    assert events[..|events|] == events;
    chainHead := prev;
  }

  /** The trail with one more line for `r`. */
  function With(env: Env, lines: seq<Line>, r: Record): seq<Line> { lines + [Line(r, Digest(env, r))] }

  lemma Extended(env: Env, lines: seq<Line>, r: Record)
    requires Rechecks(env, lines) && r.link == Head(lines)
    ensures Rechecks(env, With(env, lines, r)) && Head(With(env, lines, r)) == Digest(env, r)
  {
    var longer := With(env, lines, r);
    assert longer[..|longer| - 1] == lines;
  }

  /** One line an event, in order, under the run's id and the clock's time. */
  predicate Carries(lines: seq<Line>, runId: string, events: seq<string>, clock: nat -> string) {
    && |lines| == |events|
    && forall i :: 0 <= i < |lines| ==>
         lines[i].record.runId == runId && lines[i].record.index == i && lines[i].record.ts == clock(i) &&
             lines[i].record.event == events[i]
  }

  lemma CarriesNext(lines: seq<Line>, last: Line, runId: string, events: seq<string>, clock: nat -> string)
    requires events != [] && Carries(lines, runId, events[..|events| - 1], clock)
    requires var r, n := last.record, |events| - 1;
               r.runId == runId && r.index == n && r.ts == clock(n) && r.event == events[n]
    ensures Carries(lines + [last], runId, events, clock)
  {
  }

  /** What is sealed re-checks and carries every event. */
  lemma {:induction false} SealedRechecks(env: Env, runId: string, events: seq<string>, clock: nat -> string)
    ensures Rechecks(env, Sealed(env, runId, events, clock)) &&
              Carries(Sealed(env, runId, events, clock), runId, events, clock)
  {
    if events != [] {
      var n := |events| - 1;
      var before := Sealed(env, runId, events[..n], clock);
      var record := Record(runId, n, clock(n), events[n], Head(before));
      SealedRechecks(env, runId, events[..n], clock);
      Extended(env, before, record);
      CarriesNext(before, Line(record, Digest(env, record)), runId, events, clock);
    }
  }

  // -------------------------------------------------------------------- binding

  /** A trail of records from `all`. */
  predicate Over(lines: seq<Line>, all: set<Record>) { forall l <- lines :: l.record in all }

  /** A record of `all` that can stand at the end of some trail over `all` that re-checks. */
  ghost predicate Linked(env: Env, all: set<Record>, r: Record) {
    r in all && exists lines :: Over(lines, all) && Rechecks(env, lines) && Head(lines) == r.link
  }

  /** Two different inputs with one digest. */
  ghost predicate Collides(env: Env, all: set<Record>, r: Record, s: Record) {
    r != s && Linked(env, all, r) && Linked(env, all, s) && Input(env, r) != Input(env, s) &&
        Digest(env, r) == Digest(env, s)
  }

  ghost predicate HitsGenesis(env: Env, all: set<Record>, r: Record) {
    Linked(env, all, r) && Digest(env, r) == Genesis()
  }

  lemma HeadLength(env: Env, lines: seq<Line>)
    requires WellFormed(env) && Rechecks(env, lines)
    ensures |Head(lines)| == LENGTH
  {
  }

  lemma InputsApart(env: Env, r: Record, s: Record)
    requires WellFormed(env) && |r.link| == |s.link| && Input(env, r) == Input(env, s)
    ensures r == s
  {
    var x := Input(env, r);
    assert x[|r.link|..] == env.canonical(r) && x[|s.link|..] == env.canonical(s);
  }

  lemma LastIsLinked(env: Env, all: set<Record>, lines: seq<Line>)
    requires Rechecks(env, lines) && Over(lines, all) && lines != []
    ensures var front, last := lines[..|lines| - 1], lines[|lines| - 1];
            && Linked(env, all, last.record) && last.sha256 == Digest(env, last.record)
            && Rechecks(env, front) && Over(front, all) && Head(front) == last.record.link
  {
    var n := |lines| - 1;
    assert lines[n] in lines;
    assert Over(lines[..n], all) && Head(lines[..n]) == lines[n].record.link;
  }

  lemma LastsCollide(env: Env, all: set<Record>, a: seq<Line>, b: seq<Line>)
    requires WellFormed(env) && Rechecks(env, a) && Rechecks(env, b) && Over(a, all) && Over(b, all)
    requires Head(a) == Head(b) && a != [] && b != [] && a[|a| - 1].record != b[|b| - 1].record
    ensures Collides(env, all, a[|a| - 1].record, b[|b| - 1].record)
  {
    LastIsLinked(env, all, a);
    LastIsLinked(env, all, b);
    var r, s := a[|a| - 1].record, b[|b| - 1].record;
    HeadLength(env, a[..|a| - 1]);
    HeadLength(env, b[..|b| - 1]);
    if Input(env, r) == Input(env, s) { InputsApart(env, r, s); }
  }

  lemma SameFrontAndLast(a: seq<Line>, b: seq<Line>)
    requires a != [] && b != [] && a[|a| - 1] == b[|b| - 1] && a[..|a| - 1] == b[..|b| - 1]
    ensures a == b
  {
    assert a == a[..|a| - 1] + [a[|a| - 1]];
    assert b == b[..|b| - 1] + [b[|b| - 1]];
  }

  /**
   * Two trails with one head are the same, or among their own records there is a
   * collision, or a preimage of the genesis value, and it is in hand.
   */
  lemma {:induction false} SameHead(env: Env, all: set<Record>, a: seq<Line>, b: seq<Line>)
    returns (r: Record, s: Record)
    requires WellFormed(env) && Rechecks(env, a) && Rechecks(env, b) && Over(a, all) && Over(b, all) &&
               Head(a) == Head(b)
    ensures a == b || Collides(env, all, r, s) || HitsGenesis(env, all, r)
    decreases |a|
  {
    r, s := Record("", 0, "", "", []), Record("", 0, "", "", []);
    if a == [] || b == [] {
      var other := if a == [] then b else a;
      if other != [] {
        LastIsLinked(env, all, other);
        r := other[|other| - 1].record;
      }
    } else if a[|a| - 1].record != b[|b| - 1].record {
      LastsCollide(env, all, a, b);
      r, s := a[|a| - 1].record, b[|b| - 1].record;
    } else {
      LastIsLinked(env, all, a);
      LastIsLinked(env, all, b);
      r, s := SameHead(env, all, a[..|a| - 1], b[..|b| - 1]);
      if a[..|a| - 1] == b[..|b| - 1] { SameFrontAndLast(a, b); }
    }
  }

  /** Over these records a head belongs to one trail. */
  ghost predicate HeadsBind(env: Env, all: set<Record>) {
    forall a, b :: Over(a, all) && Over(b, all) && Rechecks(env, a) && Rechecks(env, b) && Head(a) == Head(b) ==> a == b
  }

  lemma OneHeadTwoTrails(env: Env, all: set<Record>, x: seq<Line>, y: seq<Line>)
    requires Over(x, all) && Over(y, all) && Rechecks(env, x) && Rechecks(env, y) && Head(x) == Head(y) && x != y
    ensures !HeadsBind(env, all)
  {
  }

  lemma WithApart(env: Env, a: seq<Line>, b: seq<Line>, r: Record, s: Record)
    requires r != s
    ensures With(env, a, r) != With(env, b, s)
  {
    assert With(env, a, r)[|With(env, a, r)| - 1].record == r;
    assert With(env, b, s)[|With(env, b, s)| - 1].record == s;
  }

  lemma WithIsOver(env: Env, all: set<Record>, lines: seq<Line>, r: Record)
    requires Over(lines, all) && r in all
    ensures Over(With(env, lines, r), all)
  {
  }

  lemma CollisionUnbinds(env: Env, all: set<Record>, r: Record, s: Record)
    requires Collides(env, all, r, s)
    ensures !HeadsBind(env, all)
  {
    var a :| Over(a, all) && Rechecks(env, a) && Head(a) == r.link;
    var b :| Over(b, all) && Rechecks(env, b) && Head(b) == s.link;
    Extended(env, a, r);
    Extended(env, b, s);
    WithIsOver(env, all, a, r);
    WithIsOver(env, all, b, s);
    WithApart(env, a, b, r, s);
    OneHeadTwoTrails(env, all, With(env, a, r), With(env, b, s));
  }

  lemma GenesisUnbinds(env: Env, all: set<Record>, r: Record)
    requires HitsGenesis(env, all, r)
    ensures !HeadsBind(env, all)
  {
    var a :| Over(a, all) && Rechecks(env, a) && Head(a) == r.link;
    Extended(env, a, r);
    WithIsOver(env, all, a, r);
    assert Over([], all) && Rechecks(env, []) && Head([]) == Genesis();
    OneHeadTwoTrails(env, all, With(env, a, r), []);
  }

  /**
   * For any finite set of records: a head determines its whole trail -- content, order
   * and length -- among the trails over these records, exactly when no two of them that
   * can be linked collide and none hashes to the genesis value.
   */
  lemma HeadBindsExactly(env: Env, all: set<Record>)
    requires WellFormed(env)
    ensures HeadsBind(env, all) <==>
              (forall r, s :: !Collides(env, all, r, s)) && (forall r :: !HitsGenesis(env, all, r))
  {
    if r, s :| Collides(env, all, r, s) { CollisionUnbinds(env, all, r, s); }
    if r :| HitsGenesis(env, all, r) { GenesisUnbinds(env, all, r); }
    forall a, b | Over(a, all) && Over(b, all) && Rechecks(env, a) && Rechecks(env, b) && Head(a) == Head(b)
      ensures a == b || (exists r, s :: Collides(env, all, r, s)) || (exists r :: HitsGenesis(env, all, r))
    {
      var r, s := SameHead(env, all, a, b);
    }
  }

  function RecordsOf(lines: seq<Line>): set<Record> { set l <- lines :: l.record }

  /** An altered trail that passes under the recorded head exhibits a collision among the records of the two. */
  lemma AlteredTrailCollides(env: Env, sealed: seq<Line>, shown: seq<Line>)
    requires WellFormed(env) && Rechecks(env, sealed) && Rechecks(env, shown) && Head(sealed) == Head(shown) &&
               sealed != shown
    ensures var all := RecordsOf(sealed) + RecordsOf(shown);
            (exists r, s :: Collides(env, all, r, s)) || (exists r :: HitsGenesis(env, all, r))
  {
    var all := RecordsOf(sealed) + RecordsOf(shown);
    assert Over(sealed, all) && Over(shown, all);
    var r, s := SameHead(env, all, sealed, shown);
  }

  /**
   * The smallest case, both ways: the head binds a trail of one first record exactly if its
   * digest is not the genesis value.
   */
  lemma FirstRecordBindsExactly(env: Env, r: Record)
    requires WellFormed(env) && r.link == Genesis()
    ensures HeadsBind(env, {r}) <==> Digest(env, r) != Genesis()
  {
    assert Over([], {r}) && Rechecks(env, []) && Head([]) == r.link;
    assert Linked(env, {r}, r);
    HeadBindsExactly(env, {r});
    assert HitsGenesis(env, {r}, r) <==> Digest(env, r) == Genesis();
  }
}
