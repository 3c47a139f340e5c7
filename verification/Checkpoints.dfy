/**
 * The two checkpoint tables. A log of writes is the specification: a read for a
 * run must give the last checkpoint written for that run, whatever was replaced
 * and however many runs are interleaved.
 */
module Checkpoints {
  import opened Wrappers

  datatype Checkpoint<+S> = Checkpoint(runId: string, step: int, branch: Option<string>, ts: int, state: S)

  /** The last checkpoint written for `run`, by the log alone. */
  function Latest<S>(log: seq<Checkpoint<S>>, run: string): Option<Checkpoint<S>> {
    if log == [] then None
    else if log[|log| - 1].runId == run then Some(log[|log| - 1])
    else Latest(log[..|log| - 1], run)
  }

  /** The write at `i` is the run's last. */
  lemma {:induction false} LatestExactly<S>(log: seq<Checkpoint<S>>, run: string, r: Option<Checkpoint<S>>)
    ensures r == Latest(log, run) <==>
              match r
              case None => forall c <- log :: c.runId != run
              case Some(cp) =>
                exists i: nat :: i < |log| && log[i] == cp && cp.runId == run
                  && forall j :: i < j < |log| ==> log[j].runId != run
  {
    if log != [] {
      var n := |log| - 1;
      if log[n].runId != run {
        var init := log[..n];
        LatestExactly(init, run, r);
        assert log == init + [log[n]];
        if r.Some? {
          if i: nat :| i < n && init[i] == r.value && forall j :: i < j < n ==> init[j].runId != run {
            assert log[i] == r.value;
            forall j | i < j < |log| ensures log[j].runId != run { if j < n { assert init[j] == log[j]; } }
          }
          if i: nat :| i < |log| && log[i] == r.value && forall j :: i < j < |log| ==> log[j].runId != run {
            if i < n { assert init[i] == r.value; }
          }
        }
      }
    }
  }

  // ------------------------------------------------------------------ SQLite

  /**
   * The primary-key conflict that INSERT OR REPLACE acts on. SQLite takes two
   * NULLs of a composite primary key to be different; `nullsDistinct` chooses
   * between that and one fixed key for a missing branch.
   */
  predicate Conflicts<S>(nullsDistinct: bool, a: Checkpoint<S>, b: Checkpoint<S>) {
    && a.runId == b.runId && a.step == b.step && a.branch == b.branch
    && (nullsDistinct ==> a.branch.Some?)
  }

  ghost predicate IsMaxId<S>(rows: map<nat, Checkpoint<S>>, id: nat) {
    (forall i <- rows :: i <= id) && (rows != map[] ==> id in rows) && (rows == map[] ==> id == 0)
  }

  ghost function MaxId<S>(rows: map<nat, Checkpoint<S>>): (id: nat)
    ensures IsMaxId(rows, id)
  {
    MaxIdExists(rows);
    var id :| IsMaxId(rows, id);
    id
  }

  lemma {:induction false} MaxIdExists<S>(rows: map<nat, Checkpoint<S>>)
    ensures exists id :: IsMaxId(rows, id)
    decreases |rows|
  {
    if rows == map[] {
      assert IsMaxId(rows, 0);
    } else {
      var k :| k in rows;
      var rest := rows - {k};
      assert k !in rest && rows == rest[k := rows[k]];
      assert |rows| == |rest| + 1;
      MaxIdExists(rest);
      var m :| IsMaxId(rest, m);
      var id := if rest == map[] || m < k then k else m;
      assert IsMaxId(rows, id);
    }
  }

  /** INSERT OR REPLACE: conflicting rows go, the new row gets the next rowid. */
  ghost function SqliteWrite<S>(nullsDistinct: bool, rows: map<nat, Checkpoint<S>>,
                                cp: Checkpoint<S>): map<nat, Checkpoint<S>> {
    (map id | id in rows && !Conflicts(nullsDistinct, rows[id], cp) :: rows[id])[MaxId(rows) + 1 := cp]
  }

  ghost function SqliteRows<S>(nullsDistinct: bool, log: seq<Checkpoint<S>>): map<nat, Checkpoint<S>> {
    if log == [] then map[]
    else SqliteWrite(nullsDistinct, SqliteRows(nullsDistinct, log[..|log| - 1]), log[|log| - 1])
  }

  /** What `WHERE run_id = ? ORDER BY rowid DESC LIMIT 1` may return. */
  ghost predicate HighestRow<S>(rows: map<nat, Checkpoint<S>>, run: string, r: Option<Checkpoint<S>>) {
    match r
    case None => forall id <- rows :: rows[id].runId != run
    case Some(cp) =>
      exists id :: id in rows && rows[id] == cp && cp.runId == run
        && forall j <- rows :: rows[j].runId == run ==> j <= id
  }

  /** Rowid order returns the last write of the run, after any log of writes. */
  lemma {:induction false} SqliteReadsLastWrite<S>(nullsDistinct: bool, log: seq<Checkpoint<S>>, run: string,
          r: Option<Checkpoint<S>>)
    ensures HighestRow(SqliteRows(nullsDistinct, log), run, r) <==> r == Latest(log, run)
  {
    if log != [] {
      var before := SqliteRows(nullsDistinct, log[..|log| - 1]);
      var cp := log[|log| - 1];
      var id := MaxId(before) + 1;
      var after := SqliteWrite(nullsDistinct, before, cp);
      assert id in after && after[id] == cp && id !in before;
      if cp.runId == run {
        assert HighestRow(after, run, Some(cp));
      } else {
        SqliteReadsLastWrite(nullsDistinct, log[..|log| - 1], run, r);
        SameRunRows(nullsDistinct, before, cp, run);
        assert HighestRow(after, run, r) <==> HighestRow(before, run, r) by {
          if r.Some? {
            if HighestRow(before, run, r) {
              var i :| i in before && before[i] == r.value && forall j <- before :: before[j].runId == run ==> j <= i;
              assert i in after && after[i] == r.value;
            }
            if HighestRow(after, run, r) {
              var i :| i in after && after[i] == r.value && forall j <- after :: after[j].runId == run ==> j <= i;
              assert i in before && before[i] == r.value;
              assert forall j <- before :: before[j].runId == run ==> j in after && j <= i;
            }
          }
        }
      }
    }
  }

  lemma SameRunRows<S>(nullsDistinct: bool, rows: map<nat, Checkpoint<S>>, cp: Checkpoint<S>, run: string)
    requires cp.runId != run
    ensures var after := SqliteWrite(nullsDistinct, rows, cp);
            forall id :: (id in rows && rows[id].runId == run) <==> (id in after && after[id].runId == run)
    ensures var after := SqliteWrite(nullsDistinct, rows, cp);
            forall id :: id in rows && rows[id].runId == run ==> after[id] == rows[id]
  {
  }

  /** The last write for one (run, step, branch) key, by the log alone. */
  function LatestAt<S>(log: seq<Checkpoint<S>>, run: string, step: int, branch: Option<string>): Option<Checkpoint<S>> {
    if log == [] then None
    else
      var cp := log[|log| - 1];
      if cp.runId == run && cp.step == step && cp.branch == branch then Some(cp)
      else LatestAt(log[..|log| - 1], run, step, branch)
  }

  lemma {:induction false} LatestAtIsWritten<S>(log: seq<Checkpoint<S>>, run: string, step: int, branch: Option<string>)
    ensures var r := LatestAt(log, run, step, branch);
            r.Some? ==> r.value in log && r.value.runId == run && r.value.step == step && r.value.branch == branch
    ensures LatestAt(log, run, step, branch).None? ==>
              forall c <- log :: !(c.runId == run && c.step == step && c.branch == branch)
  {
    if log != [] {
      var n := |log| - 1;
      LatestAtIsWritten(log[..n], run, step, branch);
      assert log == log[..n] + [log[n]];
    }
  }

  /**
   * What the table holds after any writes. A row of a branch is the last write of its
   * step in that branch; with NULLs distinct every write without a branch stays, and
   * with one fixed key for a missing branch it too is the last one.
   */
  lemma {:induction false} SqliteHoldsExactly<S>(nullsDistinct: bool, log: seq<Checkpoint<S>>, cp: Checkpoint<S>)
    ensures cp in SqliteRows(nullsDistinct, log).Values <==>
              if nullsDistinct && cp.branch.None? then cp in log
                  else LatestAt(log, cp.runId, cp.step, cp.branch) == Some(cp)
  {
    if log != [] {
      var n := |log| - 1;
      var before, last := SqliteRows(nullsDistinct, log[..n]), log[n];
      var after := SqliteWrite(nullsDistinct, before, last);
      var id := MaxId(before) + 1;
      assert id in after && after[id] == last && id !in before;
      SqliteHoldsExactly(nullsDistinct, log[..n], cp);
      assert log == log[..n] + [last];
      if cp in before.Values && !Conflicts(nullsDistinct, cp, last) {
        var i :| i in before && before[i] == cp;
        assert i in after && after[i] == cp;
      }
      if cp in after.Values && cp != last {
        var i :| i in after && after[i] == cp;
        assert i in before && before[i] == cp;
      }
    }
  }

  /** Any two writes of one step of a run outside branches are the same write. */
  ghost predicate MainStepsOnce<S>(log: seq<Checkpoint<S>>) {
    forall a, b ::
      a in log && b in log && a.branch.None? && b.branch.None? && a.runId == b.runId && a.step == b.step ==> a == b
  }

  /** The table holds the last write of each (run, step, branch) and nothing else. */
  ghost predicate LastPerKey<S(!new)>(rows: map<nat, Checkpoint<S>>, log: seq<Checkpoint<S>>) {
    forall cp :: cp in rows.Values <==> LatestAt(log, cp.runId, cp.step, cp.branch) == Some(cp)
  }

  lemma StaleRowStays<S(!new)>(log: seq<Checkpoint<S>>, a: Checkpoint<S>, b: Checkpoint<S>)
    requires a in log && b in log && a.branch.None? && b.branch.None? && a.runId == b.runId &&
               a.step == b.step && a != b
    ensures !LastPerKey(SqliteRows(true, log), log)
  {
    SqliteHoldsExactly(true, log, a);
    SqliteHoldsExactly(true, log, b);
    if LatestAt(log, a.runId, a.step, a.branch) == Some(a) {
      assert LatestAt(log, b.runId, b.step, b.branch) != Some(b) && b in SqliteRows(true, log).Values;
    } else {
      assert a in SqliteRows(true, log).Values;
    }
  }

  /**
   * A later write of a step replaces the row exactly while no step of a run is written
   * twice outside branches, that is, until a process is resumed: with NULLs distinct
   * the earlier rows stay in the table beside the later ones.
   */
  lemma NullBranchRowsAccumulate<S(!new)>(log: seq<Checkpoint<S>>)
    ensures LastPerKey(SqliteRows(true, log), log) <==> MainStepsOnce(log)
  {
    if MainStepsOnce(log) {
      forall cp
        ensures cp in SqliteRows(true, log).Values <==> LatestAt(log, cp.runId, cp.step, cp.branch) == Some(cp)
      {
        SqliteHoldsExactly(true, log, cp);
        LatestAtIsWritten(log, cp.runId, cp.step, cp.branch);
      }
    } else {
      var a, b :| a in log && b in log && a.branch.None? && b.branch.None? && a.runId == b.runId && a.step == b.step &&
          a != b;
      StaleRowStays(log, a, b);
    }
  }

  /** Two processes of one run, the second starting its steps at 0 again: the first row is still there. */
  lemma ResumedRunKeepsStaleRow<S(!new)>(run: string, first: S, second: S, t0: int, t1: int)
    requires first != second
    ensures var log := [Checkpoint(run, 0, None, t0, first), Checkpoint(run, 0, None, t1, second)];
            log[0] in SqliteRows(true, log).Values && !LastPerKey(SqliteRows(true, log), log)
  {
    var log := [Checkpoint(run, 0, None, t0, first), Checkpoint(run, 0, None, t1, second)];
    assert log[0] in log && log[1] in log;
    SqliteHoldsExactly(true, log, log[0]);
    StaleRowStays(log, log[0], log[1]);
  }

  /** The `checkpoints` table behind SQLiteCheckpointer. */
  class SQLiteTable<S> {
    const nullsDistinct: bool
    var rows: map<nat, Checkpoint<S>>
    var lastRowId: nat
    ghost var log: seq<Checkpoint<S>>

    ghost predicate Valid()
      reads this
    {
      rows == SqliteRows(nullsDistinct, log) && lastRowId == MaxId(rows)
    }

    constructor (nullsDistinct: bool)
      ensures Valid() && log == [] && this.nullsDistinct == nullsDistinct
    {
      this.nullsDistinct := nullsDistinct;
      rows, lastRowId, log := map[], 0, [];
    }

    method Write(cp: Checkpoint<S>)
      requires Valid()
      modifies this
      ensures Valid() && log == old(log) + [cp]
    {
      var kept := map id | id in rows && !Conflicts(nullsDistinct, rows[id], cp) :: rows[id];
      lastRowId := lastRowId + 1;
      rows := kept[lastRowId := cp];
      log := log + [cp];
      assert log[..|log| - 1] == old(log);
      assert rows == SqliteWrite(nullsDistinct, old(rows), cp);
      assert lastRowId in rows;
      assert IsMaxId(rows, lastRowId);
    }

    method ReadLatest(run: string) returns (r: Option<Checkpoint<S>>)
      requires Valid()
      ensures r == Latest(log, run)
    {
      r := None;
      var id := lastRowId + 1;
      while id > 0
        invariant r.None?
        invariant forall j <- rows :: rows[j].runId == run ==> j < id
      {
        id := id - 1;
        if id in rows && rows[id].runId == run {
          r := Some(rows[id]);
          assert HighestRow(rows, run, r);
          SqliteReadsLastWrite(nullsDistinct, log, run, r);
          return;
        }
      }
      SqliteReadsLastWrite(nullsDistinct, log, run, r);
    }
  }

  // ---------------------------------------------------------------- Postgres

  datatype Key = Key(runId: string, step: int, branch: string)

  function KeyOf<S>(cp: Checkpoint<S>): Key {
    Key(cp.runId, cp.step, if cp.branch.Some? then cp.branch.value else "")
  }

  /** INSERT ... ON CONFLICT DO UPDATE. */
  function PgRows<S>(log: seq<Checkpoint<S>>): map<Key, Checkpoint<S>> {
    if log == [] then map[]
    else PgRows(log[..|log| - 1])[KeyOf(log[|log| - 1]) := log[|log| - 1]]
  }

  /** `ORDER BY ts DESC, step_idx DESC`: `a` comes strictly after `b` in time. */
  predicate Later<S>(a: Checkpoint<S>, b: Checkpoint<S>) {
    b.ts < a.ts || (b.ts == a.ts && b.step < a.step)
  }

  /** What `ORDER BY ts DESC, step_idx DESC LIMIT 1` may return (ties are free). */
  ghost predicate NewestRow<S>(rows: map<Key, Checkpoint<S>>, run: string, r: Option<Checkpoint<S>>) {
    match r
    case None => forall k <- rows :: rows[k].runId != run
    case Some(cp) =>
      && cp in rows.Values && cp.runId == run
      && forall k <- rows :: rows[k].runId == run ==> !Later(rows[k], cp)
  }

  /** Per run, every write has a strictly greater (timestamp, step) than those before it. */
  ghost predicate ClockIncreases<S>(log: seq<Checkpoint<S>>) {
    forall i, j :: 0 <= i < j < |log| && log[i].runId == log[j].runId ==> Later(log[j], log[i])
  }

  lemma {:induction false} PgRowsFromLog<S>(log: seq<Checkpoint<S>>, k: Key)
    ensures k in PgRows(log) ==> exists i :: 0 <= i < |log| && log[i] == PgRows(log)[k] && KeyOf(log[i]) == k
  {
    if log != [] && k in PgRows(log) {
      var init := log[..|log| - 1];
      if k == KeyOf(log[|log| - 1]) {
        assert log[|log| - 1] == PgRows(log)[k];
      } else {
        PgRowsFromLog(init, k);
        var i :| 0 <= i < |init| && init[i] == PgRows(init)[k] && KeyOf(init[i]) == k;
        assert log[i] == PgRows(log)[k];
      }
    }
  }

  /** (timestamp, step) order returns the last write when the pairs increase per run. */
  lemma {:induction false} PgReadsLastWrite<S>(log: seq<Checkpoint<S>>, run: string, r: Option<Checkpoint<S>>)
    requires ClockIncreases(log)
    ensures NewestRow(PgRows(log), run, r) <==> r == Latest(log, run)
  {
    if log != [] {
      var init := log[..|log| - 1];
      var cp := log[|log| - 1];
      var before, after := PgRows(init), PgRows(log);
      assert KeyOf(cp) in after && after[KeyOf(cp)] == cp;
      assert ClockIncreases(init);
      if cp.runId == run {
        forall k | k in after && after[k] != cp && after[k].runId == run ensures Later(cp, after[k]) {
          PgRowsFromLog(init, k);
          var i :| 0 <= i < |init| && init[i] == before[k] && KeyOf(init[i]) == k;
          assert log[i] == init[i];
        }
      } else {
        PgReadsLastWrite(init, run, r);
        forall k ensures (k in before && before[k].runId == run) <==> (k in after && after[k].runId == run) {
          PgRowsFromLog(init, k);
        }
        assert forall k :: k in before && before[k].runId == run ==> after[k] == before[k];
        if r.Some? && r.value.runId == run {
          if r.value in before.Values {
            var k :| k in before && before[k] == r.value;
            assert k in after && after[k] == r.value;
          }
          if r.value in after.Values {
            var k :| k in after && after[k] == r.value;
            assert k in before && before[k] == r.value;
          }
        }
      }
    }
  }

  /** Two writes go to one row: same run, same step, and same branch, a missing one taken for the empty name. */
  predicate SameRow<S>(a: Checkpoint<S>, b: Checkpoint<S>) {
    && a.runId == b.runId && a.step == b.step
    && (a.branch == b.branch || (a.branch.None? && b.branch == Some("")) || (b.branch.None? && a.branch == Some("")))
  }

  lemma SameRowExactly<S>(a: Checkpoint<S>, b: Checkpoint<S>)
    ensures SameRow(a, b) <==> KeyOf(a) == KeyOf(b)
  {
  }

  /** The upserted table holds exactly the writes that no later write to their row follows. */
  lemma {:induction false} PgHoldsExactly<S>(log: seq<Checkpoint<S>>, cp: Checkpoint<S>)
    ensures KeyOf(cp) in PgRows(log) && PgRows(log)[KeyOf(cp)] == cp <==>
              exists i: nat :: i < |log| && log[i] == cp && forall j :: i < j < |log| ==> !SameRow(log[j], cp)
  {
    if log != [] {
      var n := |log| - 1;
      var init := log[..n];
      PgHoldsExactly(init, cp);
      SameRowExactly(log[n], cp);
      if !SameRow(log[n], cp) {
        if i: nat :| i < n && init[i] == cp && forall j :: i < j < n ==> !SameRow(init[j], cp) {
          assert log[i] == cp;
          forall j | i < j < |log| ensures !SameRow(log[j], cp) { if j < n { assert init[j] == log[j]; } }
        }
        if i: nat :| i < |log| && log[i] == cp && forall j :: i < j < |log| ==> !SameRow(log[j], cp) {
          assert i < n && init[i] == cp;
        }
      }
    }
  }

  /** A read of the run can only give `cp`. */
  ghost predicate ReadsBack<S(!new)>(rows: map<Key, Checkpoint<S>>, cp: Checkpoint<S>) {
    && NewestRow(rows, cp.runId, Some(cp))
    && forall r :: NewestRow(rows, cp.runId, r) ==> r == Some(cp)
  }

  /**
   * Exactly when one write is read back: no other surviving row of the run may
   * be as late as it in (timestamp, step).
   */
  lemma PgReadBackExactly<S(!new)>(log: seq<Checkpoint<S>>, cp: Checkpoint<S>)
    ensures ReadsBack(PgRows(log + [cp]), cp)
       <==> forall k :: k in PgRows(log) && k.runId == cp.runId && k != KeyOf(cp) ==> Later(cp, PgRows(log)[k])
  {
    var rows := PgRows(log);
    var after := PgRows(log + [cp]);
    assert (log + [cp])[..|log|] == log;
    assert after == rows[KeyOf(cp) := cp];
    forall k | k in rows ensures KeyOf(rows[k]) == k { PgRowsFromLog(log, k); }
    assert after[KeyOf(cp)] == cp;
    forall k | k in rows && k.runId == cp.runId && k != KeyOf(cp) && !Later(cp, rows[k])
      ensures NewestRow(after, cp.runId, Some(cp)) ==> NewestRow(after, cp.runId, Some(rows[k]))
    {
      assert after[k] == rows[k];
    }
  }

  /** The same, said of the writes: none that survives is at a later instant, or at the same one and no earlier step. */
  lemma {:induction false} ReadBackInTime<S(!new)>(log: seq<Checkpoint<S>>, cp: Checkpoint<S>)
    ensures ReadsBack(PgRows(log + [cp]), cp) <==>
              !exists i: nat ::
                && i < |log| && log[i].runId == cp.runId && !SameRow(log[i], cp)
                && (forall j :: i < j < |log| ==> !SameRow(log[j], log[i]))
                && (log[i].ts > cp.ts || (log[i].ts == cp.ts && log[i].step >= cp.step))
  {
    PgReadBackExactly(log, cp);
    forall k | k in PgRows(log) && k.runId == cp.runId && k != KeyOf(cp)
      ensures exists i: nat ::
                i < |log| && log[i] == PgRows(log)[k] && KeyOf(log[i]) == k
                && forall j :: i < j < |log| ==> !SameRow(log[j], log[i])
    {
      PgRowsFromLog(log, k);
      PgHoldsExactly(log, PgRows(log)[k]);
    }
    forall i: nat | i < |log| && (forall j :: i < j < |log| ==> !SameRow(log[j], log[i]))
      ensures KeyOf(log[i]) in PgRows(log) && PgRows(log)[KeyOf(log[i])] == log[i]
    {
      PgHoldsExactly(log, log[i]);
    }
    forall i: nat | i < |log| ensures SameRow(log[i], cp) <==> KeyOf(log[i]) == KeyOf(cp) {
      SameRowExactly(log[i], cp);
    }
  }

  /** A resumed process whose first write falls on the same instant as a later step before it: that step is read. */
  lemma TimestampTieReadsStale<S(!new)>(run: string, ts: int, step: int, later: int, first: S, second: S)
    requires step < later
    ensures var a, b := Checkpoint(run, later, None, ts, first), Checkpoint(run, step, None, ts, second);
            Latest([a, b], run) == Some(b) && !ReadsBack(PgRows([a, b]), b)
  {
    var a, b := Checkpoint(run, later, None, ts, first), Checkpoint(run, step, None, ts, second);
    assert [a] + [b] == [a, b] && [a][..0] == [];
    assert PgRows([a]) == PgRows<S>([])[KeyOf(a) := a];
    assert KeyOf(a) in PgRows([a]) && PgRows([a])[KeyOf(a)] == a;
    PgReadBackExactly([a], b);
  }

  /** The `stargraph.checkpoints` table behind the Postgres driver. */
  class PostgresTable<S> {
    var rows: map<Key, Checkpoint<S>>
    ghost var log: seq<Checkpoint<S>>

    ghost predicate Valid()
      reads this
    {
      rows == PgRows(log)
    }

    constructor ()
      ensures Valid() && log == []
    {
      rows, log := map[], [];
    }

    method Write(cp: Checkpoint<S>)
      requires Valid()
      modifies this
      ensures Valid() && log == old(log) + [cp]
    {
      rows := rows[KeyOf(cp) := cp];
      log := log + [cp];
      assert log[..|log| - 1] == old(log);
    }

    method ReadLatest(run: string) returns (r: Option<Checkpoint<S>>)
      requires Valid()
      ensures NewestRow(PgRows(log), run, r)
      ensures ClockIncreases(log) ==> r == Latest(log, run)
    {
      r := None;
      var todo := rows.Keys;
      while todo != {}
        invariant todo <= rows.Keys
        invariant r.Some? ==> r.value.runId == run && exists k :: k in rows && rows[k] == r.value
        invariant forall k :: k in rows.Keys - todo && rows[k].runId == run ==> r.Some? && !Later(rows[k], r.value)
        decreases todo
      {
        var k :| k in todo;
        todo := todo - {k};
        if rows[k].runId == run && (r.None? || Later(rows[k], r.value)) {
          r := Some(rows[k]);
        }
      }
      if ClockIncreases(log) { PgReadsLastWrite(log, run, r); }
    }
  }

  /** Both drivers give the same answer wherever the clock condition holds. */
  lemma DriversAgree<S>(nullsDistinct: bool, log: seq<Checkpoint<S>>, run: string, a: Option<Checkpoint<S>>,
                        b: Option<Checkpoint<S>>)
    requires ClockIncreases(log)
    requires HighestRow(SqliteRows(nullsDistinct, log), run, a) && NewestRow(PgRows(log), run, b)
    ensures a == b == Latest(log, run)
  {
    SqliteReadsLastWrite(nullsDistinct, log, run, a);
    PgReadsLastWrite(log, run, b);
  }
}
