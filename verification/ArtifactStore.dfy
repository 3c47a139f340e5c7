/**
 * The filesystem artifact store: puts and deletes as interleaved file-system steps
 * with a crash possible between any two of them, and what a reader then sees.
 */
module ArtifactStore {
  import opened Wrappers
  import opened Ordering

  type Bytes = seq<bv8>

  /** What a sidecar records. */
  datatype Meta = Meta(name: string, contentType: string, run: string, step: int, createdAt: string,
           contentHash: string, extra: string)

  datatype Ref = Ref(artifactId: string, recorded: Meta)

  /** The digest and the sidecar's JSON, as functions. */
  datatype Env = Env(digest: Bytes -> string, encode: Meta -> Bytes, decode: Bytes -> Option<Meta>)

  const SIDE := ".metadata.json"
  const TMP := ".tmp"

  predicate IsHex(c: char) { '0' <= c <= '9' || 'a' <= c <= 'f' }

  predicate HexText(s: string, n: nat) { |s| == n && forall i :: 0 <= i < |s| ==> IsHex(s[i]) }

  /** A hex digest of 64 characters, and a sidecar that reads back. */
  ghost predicate Sound(env: Env) {
    && (forall b :: HexText(env.digest(b), 64))
    && (forall m :: env.decode(env.encode(m)) == Some(m))
  }

  predicate IsId(s: string) { HexText(s, 32) }

  /** An artifact id: the first 32 characters of the digest. */
  function IdOf(env: Env, content: Bytes): string {
    var full := env.digest(content);
    if |full| <= 32 then full else full[..32]
  }

  // ----------------------------------------------------------------- file names

  datatype Kind = Content | Side | ContentTemp | SideTemp

  function NameOf(kind: Kind, id: string): string {
    match kind
    case Content => id
    case Side => id + SIDE
    case ContentTemp => id + TMP
    case SideTemp => id + SIDE + TMP
  }

  predicate EndsWith(s: string, suffix: string) { |suffix| <= |s| && s[|s| - |suffix|..] == suffix }

  lemma LastOf(s: string, suffix: string)
    requires suffix != []
    ensures EndsWith(s, suffix) ==> s != [] && s[|s| - 1] == suffix[|suffix| - 1]
    ensures EndsWith(s + suffix, suffix)
  {
    assert (s + suffix)[|s|..] == suffix;
  }

  lemma KindOfName(kind: Kind, id: string)
    requires IsId(id)
    ensures var name := NameOf(kind, id);
            && name != []
            && (kind == Content ==> |name| == 32 && IsHex(name[|name| - 1]))
            && (kind == Side ==> |name| == 46 && name[|name| - 1] == 'n')
            && (kind == ContentTemp ==> |name| == 36 && name[|name| - 1] == 'p')
            && (kind == SideTemp ==> |name| == 50 && name[|name| - 1] == 'p')
            && name[..32] == id
  {
  }

  /** A name says which artifact it belongs to and what part of it. */
  lemma NamesApart(kind: Kind, id: string, kind2: Kind, id2: string)
    requires IsId(id) && IsId(id2)
    ensures NameOf(kind, id) == NameOf(kind2, id2) <==> kind == kind2 && id == id2
  {
    KindOfName(kind, id);
    KindOfName(kind2, id2);
  }

  lemma SideSuffixExactly(kind: Kind, id: string)
    requires IsId(id)
    ensures EndsWith(NameOf(kind, id), SIDE) <==> kind == Side
  {
    KindOfName(kind, id);
    LastOf(NameOf(kind, id), SIDE);
    if kind == Side { LastOf(id, SIDE); }
  }

  /** Only content has a sidecar: what a temporary's sidecar would be called is never a file name of the store. */
  lemma SidecarNames(kind: Kind, id: string, kind2: Kind, id2: string)
    requires IsId(id) && IsId(id2)
    ensures NameOf(kind, id) + SIDE == NameOf(kind2, id2) <==> kind == Content && kind2 == Side && id == id2
  {
    KindOfName(kind, id);
    KindOfName(kind2, id2);
    var side := NameOf(kind, id) + SIDE;
    assert side[|side| - 1] == 'n' && |side| == |NameOf(kind, id)| + 14;
    if kind == Content && kind2 == Side { NamesApart(Side, id, Side, id2); }
  }

  // ---------------------------------------------------------- interleaved steps

  datatype Path = Path(run: string, name: string)

  /** An operation in flight; `written` counts the bytes in the open temporary. */
  datatype Op =
    | Putting(run: string, content: Bytes, recorded: Meta, side: bool, written: Option<nat>)
    | Deleting(run: string, id: string, contentGone: bool)

  datatype State = State(files: map<Path, Bytes>, ops: map<nat, Op>, puts: set<Bytes>)

  datatype Step =
    | StartPut(task: nat, run: string, content: Bytes, recorded: Meta)
    | StartDelete(task: nat, run: string, id: string)
    | Advance(task: nat, chunk: nat)
    | Abort(task: nat)
    | Crash

  const Empty := State(map[], map[], {})

  function OpKind(op: Op): Kind
    requires op.Putting?
  {
    if op.side then Side else Content
  }

  function TempKind(op: Op): Kind
    requires op.Putting?
  {
    if op.side then SideTemp else ContentTemp
  }

  function Target(env: Env, op: Op): Path
    requires op.Putting?
  {
    Path(op.run, NameOf(OpKind(op), IdOf(env, op.content)))
  }

  function Temp(env: Env, op: Op): Path
    requires op.Putting?
  {
    Path(op.run, NameOf(TempKind(op), IdOf(env, op.content)))
  }

  function Payload(env: Env, op: Op): Bytes
    requires op.Putting?
  {
    if op.side then env.encode(op.recorded) else op.content
  }

  /** One put in flight per artifact of a run. */
  predicate Free(env: Env, ops: map<nat, Op>, run: string, content: Bytes) {
    forall t <- ops :: ops[t].Putting? && ops[t].run == run ==> IdOf(env, ops[t].content) != IdOf(env, content)
  }

  /** Truncate the temporary, write some more of it, or rename it into place. */
  function AdvancePut(env: Env, s: State, task: nat, op: Op, chunk: nat): Option<State>
    requires op.Putting?
  {
    var temp, payload := Temp(env, op), Payload(env, op);
    match op.written
    case None => Some(s.(files := s.files[temp := []], ops := s.ops[task := op.(written := Some(0))]))
    case Some(k) =>
      if k < |payload| then
        if chunk == 0 || k + chunk > |payload| then None
        else Some(s.(files := s.files[temp := payload[..k + chunk]],
            ops := s.ops[task := op.(written := Some(k + chunk))]))
      else if temp !in s.files then None
      else Some(s.(files := (s.files - {temp})[Target(env, op) := s.files[temp]],
                   ops := if op.side then s.ops - {task} else s.ops[task := op.(side := true, written := None)]))
  }

  function AdvanceDelete(s: State, task: nat, op: Op): Option<State>
    requires op.Deleting?
  {
    if !op.contentGone then
      Some(s.(files := s.files - {Path(op.run, NameOf(Content, op.id))},
          ops := s.ops[task := op.(contentGone := true)]))
    else
      Some(s.(files := s.files - {Path(op.run, NameOf(Side, op.id))}, ops := s.ops - {task}))
  }

  /** The state after one step, or None when the step cannot happen. */
  function Next(env: Env, s: State, step: Step): Option<State> {
    match step
    case StartPut(task, run, content, recorded) =>
      if task in s.ops || !Free(env, s.ops, run, content) then None
      else
        var full := recorded.(run := run, contentHash := env.digest(content));
        Some(s.(ops := s.ops[task := Putting(run, content, full, false, None)], puts := s.puts + {content}))
    case StartDelete(task, run, id) =>
      if task in s.ops || !IsId(id) || Path(run, id) !in s.files then None
      else Some(s.(ops := s.ops[task := Deleting(run, id, false)]))
    case Advance(task, chunk) =>
      if task !in s.ops then None
      else if s.ops[task].Putting? then AdvancePut(env, s, task, s.ops[task], chunk)
      else AdvanceDelete(s, task, s.ops[task])
    case Abort(task) => Some(s.(ops := s.ops - {task}))
    case Crash => Some(s.(ops := map[]))
  }

  function Exec(env: Env, s: State, steps: seq<Step>): Option<State>
    decreases |steps|
  {
    if steps == [] then Some(s)
    else
      match Next(env, s, steps[0])
      case None => None
      case Some(t) => Exec(env, t, steps[1..])
  }

  // ------------------------------------------------------------------ invariant

  /** A sidecar's bytes: the record of some content put in this run under this id. */
  ghost predicate Records(env: Env, puts: set<Bytes>, run: string, id: string, bytes: Bytes, m: Meta, c: Bytes) {
    c in puts && bytes == env.encode(m) && m.contentHash == env.digest(c) && m.run == run && IdOf(env, c) == id
  }

  ghost predicate FileIs(env: Env, puts: set<Bytes>, p: Path, bytes: Bytes, kind: Kind, id: string) {
    && IsId(id) && p.name == NameOf(kind, id)
    && (kind == Content ==> bytes in puts && IdOf(env, bytes) == id)
    && (kind == Side ==> exists m, c :: Records(env, puts, p.run, id, bytes, m, c))
  }

  ghost predicate FilesOk(env: Env, puts: set<Bytes>, files: map<Path, Bytes>) {
    forall p <- files :: exists kind, id :: FileIs(env, puts, p, files[p], kind, id)
  }

  ghost predicate OpOk(env: Env, s: State, op: Op) {
    if op.Deleting? then IsId(op.id)
    else
      && op.content in s.puts && op.recorded.contentHash == env.digest(op.content) && op.recorded.run == op.run
      && (op.written.Some? ==>
            op.written.value <= |Payload(env, op)| && Temp(env, op) in s.files &&
                s.files[Temp(env, op)] == Payload(env, op)[..op.written.value])
  }

  ghost predicate Apart(env: Env, a: Op, b: Op) {
    a.Putting? && b.Putting? && a.run == b.run ==> IdOf(env, a.content) != IdOf(env, b.content)
  }

  ghost predicate OpsOk(env: Env, s: State) {
    && (forall t <- s.ops :: OpOk(env, s, s.ops[t]))
    && (forall t, u :: t in s.ops && u in s.ops && t != u ==> Apart(env, s.ops[t], s.ops[u]))
  }

  ghost predicate Inv(env: Env, s: State) { FilesOk(env, s.puts, s.files) && OpsOk(env, s) }

  lemma IdsAreIds(env: Env, content: Bytes)
    requires Sound(env)
    ensures IsId(IdOf(env, content))
  {
    assert HexText(env.digest(content), 64);
  }

  lemma SetFile(env: Env, puts: set<Bytes>, files: map<Path, Bytes>, p: Path, bytes: Bytes, kind: Kind, id: string)
    requires FilesOk(env, puts, files) && FileIs(env, puts, p, bytes, kind, id)
    ensures FilesOk(env, puts, files[p := bytes])
  {
  }

  lemma DropFile(env: Env, puts: set<Bytes>, files: map<Path, Bytes>, p: Path)
    requires FilesOk(env, puts, files)
    ensures FilesOk(env, puts, files - {p})
  {
    forall q | q in files - {p} ensures exists kind, id :: FileIs(env, puts, q, (files - {p})[q], kind, id) {
      assert q in files && (files - {p})[q] == files[q];
    }
  }

  lemma MorePuts(env: Env, puts: set<Bytes>, more: set<Bytes>, files: map<Path, Bytes>)
    requires FilesOk(env, puts, files)
    ensures FilesOk(env, puts + more, files)
  {
    forall p | p in files ensures exists kind, id :: FileIs(env, puts + more, p, files[p], kind, id) {
      var kind, id :| FileIs(env, puts, p, files[p], kind, id);
      if kind == Side {
        var m, c :| Records(env, puts, p.run, id, files[p], m, c);
        assert Records(env, puts + more, p.run, id, files[p], m, c);
      }
      assert FileIs(env, puts + more, p, files[p], kind, id);
    }
  }

  /** The files one put touches are not another's temporary. */
  lemma TempsApart(env: Env, a: Op, b: Op)
    requires Sound(env) && a.Putting? && b.Putting? && Apart(env, a, b)
    ensures Temp(env, a) != Temp(env, b) && Target(env, a) != Temp(env, b)
  {
    IdsAreIds(env, a.content);
    IdsAreIds(env, b.content);
    NamesApart(TempKind(a), IdOf(env, a.content), TempKind(b), IdOf(env, b.content));
    NamesApart(OpKind(a), IdOf(env, a.content), TempKind(b), IdOf(env, b.content));
  }

  /** Another operation survives a change to files that are not its temporary. */
  lemma OpSurvives(env: Env, s: State, t: State, op: Op)
    requires OpOk(env, s, op) && s.puts <= t.puts
    requires op.Putting? && Temp(env, op) in s.files ==>
               Temp(env, op) in t.files && t.files[Temp(env, op)] == s.files[Temp(env, op)]
    ensures OpOk(env, t, op)
  {
  }

  lemma TempIsKnown(env: Env, puts: set<Bytes>, op: Op, bytes: Bytes)
    requires Sound(env) && op.Putting?
    ensures FileIs(env, puts, Temp(env, op), bytes, TempKind(op), IdOf(env, op.content))
  {
    IdsAreIds(env, op.content);
  }

  lemma TargetIsKnown(env: Env, s: State, op: Op)
    requires Sound(env) && op.Putting? && OpOk(env, s, op)
    ensures FileIs(env, s.puts, Target(env, op), Payload(env, op), OpKind(op), IdOf(env, op.content))
  {
    IdsAreIds(env, op.content);
    if op.side {
      assert Records(env, s.puts, op.run, IdOf(env, op.content), Payload(env, op), op.recorded, op.content);
    }
  }

  lemma PutKeepsFiles(env: Env, s: State, task: nat, chunk: nat)
    requires Sound(env) && Inv(env, s) && task in s.ops && s.ops[task].Putting?
    requires AdvancePut(env, s, task, s.ops[task], chunk).Some?
    ensures var t := AdvancePut(env, s, task, s.ops[task], chunk).value;
            FilesOk(env, t.puts, t.files)
  {
    var op := s.ops[task];
    var temp, payload := Temp(env, op), Payload(env, op);
    var t := AdvancePut(env, s, task, op, chunk).value;
    if op.written.None? || op.written.value < |payload| {
      TempIsKnown(env, s.puts, op, t.files[temp]);
      SetFile(env, s.puts, s.files, temp, t.files[temp], TempKind(op), IdOf(env, op.content));
    } else {
      assert payload[..|payload|] == payload;
      DropFile(env, s.puts, s.files, temp);
      TargetIsKnown(env, s, op);
      SetFile(env, s.puts, s.files - {temp}, Target(env, op), payload, OpKind(op), IdOf(env, op.content));
    }
  }

  lemma PutKeepsOthers(env: Env, s: State, task: nat, chunk: nat, other: nat)
    requires Sound(env) && Inv(env, s) && task in s.ops && s.ops[task].Putting?
    requires AdvancePut(env, s, task, s.ops[task], chunk).Some?
    requires other in s.ops && other != task
    ensures OpOk(env, AdvancePut(env, s, task, s.ops[task], chunk).value, s.ops[other])
  {
    var t := AdvancePut(env, s, task, s.ops[task], chunk).value;
    if s.ops[other].Putting? { TempsApart(env, s.ops[task], s.ops[other]); }
    OpSurvives(env, s, t, s.ops[other]);
  }

  lemma PutKeepsInv(env: Env, s: State, task: nat, chunk: nat)
    requires Sound(env) && Inv(env, s) && task in s.ops && s.ops[task].Putting?
    requires AdvancePut(env, s, task, s.ops[task], chunk).Some?
    ensures Inv(env, AdvancePut(env, s, task, s.ops[task], chunk).value)
  {
    var op := s.ops[task];
    var t := AdvancePut(env, s, task, op, chunk).value;
    PutKeepsFiles(env, s, task, chunk);
    forall u | u in t.ops ensures OpOk(env, t, t.ops[u]) {
      if u != task { PutKeepsOthers(env, s, task, chunk, u); }
    }
  }

  lemma DeleteKeepsInv(env: Env, s: State, task: nat)
    requires Sound(env) && Inv(env, s) && task in s.ops && s.ops[task].Deleting?
    ensures Inv(env, AdvanceDelete(s, task, s.ops[task]).value)
  {
    var op := s.ops[task];
    var t := AdvanceDelete(s, task, op).value;
    var gone := Path(op.run, NameOf(if op.contentGone then Side else Content, op.id));
    DropFile(env, s.puts, s.files, gone);
    forall u | u in t.ops ensures OpOk(env, t, t.ops[u]) {
      if u != task {
        if s.ops[u].Putting? {
          IdsAreIds(env, s.ops[u].content);
          NamesApart(if op.contentGone then Side else Content, op.id, TempKind(s.ops[u]), IdOf(env, s.ops[u].content));
        }
        OpSurvives(env, s, t, s.ops[u]);
      }
    }
  }

  lemma StartKeepsInv(env: Env, s: State, task: nat, op: Op, puts: set<Bytes>)
    requires Inv(env, s) && s.puts <= puts && OpOk(env, s.(puts := puts), op)
    requires task !in s.ops && forall u <- s.ops :: Apart(env, s.ops[u], op)
    ensures Inv(env, s.(ops := s.ops[task := op], puts := puts))
  {
    MorePuts(env, s.puts, puts, s.files);
    assert s.puts + puts == puts;
    var t := s.(ops := s.ops[task := op], puts := puts);
    forall u | u in t.ops ensures OpOk(env, t, t.ops[u]) {
      if u != task { OpSurvives(env, s, t, s.ops[u]); }
    }
  }

  /** Every step keeps the invariant. */
  lemma StepKeepsInv(env: Env, s: State, step: Step)
    requires Sound(env) && Inv(env, s) && Next(env, s, step).Some?
    ensures Inv(env, Next(env, s, step).value)
  {
    match step {
      case StartPut(task, run, content, recorded) =>
        var op := Putting(run, content, recorded.(run := run, contentHash := env.digest(content)), false, None);
        StartKeepsInv(env, s, task, op, s.puts + {content});
      case StartDelete(task, run, id) =>
        StartKeepsInv(env, s, task, Deleting(run, id, false), s.puts);
      case Advance(task, chunk) =>
        if s.ops[task].Putting? { PutKeepsInv(env, s, task, chunk); } else { DeleteKeepsInv(env, s, task); }
      case Abort(task) =>
      case Crash =>
    }
  }

  /** Safety: the invariant holds after any interleaving of puts and deletes with crashes anywhere. */
  lemma {:induction false} RunsKeepInv(env: Env, s: State, steps: seq<Step>)
    requires Sound(env) && Inv(env, s) && Exec(env, s, steps).Some?
    ensures Inv(env, Exec(env, s, steps).value)
    decreases |steps|
  {
    if steps != [] {
      StepKeepsInv(env, s, steps[0]);
      RunsKeepInv(env, Next(env, s, steps[0]).value, steps[1..]);
    }
  }

  ghost predicate Reachable(env: Env, s: State) { exists steps :: Exec(env, Empty, steps) == Some(s) }

  lemma ReachableIsOk(env: Env, s: State)
    requires Sound(env) && Reachable(env, s)
    ensures Inv(env, s)
  {
    var steps :| Exec(env, Empty, steps) == Some(s);
    RunsKeepInv(env, Empty, steps);
  }

  // -------------------------------------------------------- what a reader sees

  /** The reference one directory entry gives, if any. */
  function RefOf(env: Env, files: map<Path, Bytes>, run: string, name: string): Option<Ref> {
    var side := Path(run, name + SIDE);
    if EndsWith(name, SIDE) || side !in files then None
    else
      match env.decode(files[side])
      case None => None
      case Some(m) => Some(Ref(name, m))
  }

  function Refs(env: Env, files: map<Path, Bytes>, run: string, names: seq<string>): seq<Ref> {
    if names == [] then []
    else
      var n := |names| - 1;
      Refs(env, files, run, names[..n])
      + match RefOf(env, files, run, names[n])
        case None => []
        case Some(r) => [r]
  }

  lemma {:induction false} RefsExactly(env: Env, files: map<Path, Bytes>, run: string, names: seq<string>, r: Ref)
    ensures r in Refs(env, files, run, names) <==>
              r.artifactId in names && RefOf(env, files, run, r.artifactId) == Some(r)
  {
    if names != [] {
      var n := |names| - 1;
      RefsExactly(env, files, run, names[..n], r);
      assert names == names[..n] + [names[n]];
    }
  }

  /** The references in the order of their ids. */
  ghost predicate InIdOrder(refs: seq<Ref>) {
    forall i, j :: 0 <= i < j < |refs| ==> StringLeq(refs[i].artifactId, refs[j].artifactId)
  }

  lemma LastInOrder(refs: seq<Ref>, r: Ref)
    requires InIdOrder(refs) && forall q <- refs :: StringLeq(q.artifactId, r.artifactId)
    ensures InIdOrder(refs + [r])
  {
    hide StringLeq;
  }

  lemma {:induction false} RefsInOrder(env: Env, files: map<Path, Bytes>, run: string, names: seq<string>)
    requires SortedBy(StringLeq, names)
    ensures InIdOrder(Refs(env, files, run, names))
  {
    if names != [] {
      var n := |names| - 1;
      var front, own := Refs(env, files, run, names[..n]), RefOf(env, files, run, names[n]);
      RefsInOrder(env, files, run, names[..n]);
      if own.Some? {
        forall q <- front ensures StringLeq(q.artifactId, own.value.artifactId) {
          RefsExactly(env, files, run, names[..n], q);
          var k :| 0 <= k < n && names[..n][k] == q.artifactId;
          assert StringLeq(names[k], names[n]);
        }
        LastInOrder(front, own.value);
      } else {
        assert Refs(env, files, run, names) == front + [] == front;
      }
    }
  }

  /** A content file visible under an artifact id holds bytes that were put and that hash to the id. */
  lemma VisibleContentHashes(env: Env, s: State, run: string, id: string)
    requires Sound(env) && Reachable(env, s) && IsId(id) && Path(run, id) in s.files
    ensures s.files[Path(run, id)] in s.puts && IdOf(env, s.files[Path(run, id)]) == id
  {
    ReachableIsOk(env, s);
    var kind, own :| FileIs(env, s.puts, Path(run, id), s.files[Path(run, id)], kind, own);
    NamesApart(kind, own, Content, id);
  }

  lemma SidecarRecords(env: Env, s: State, run: string, id: string) returns (m: Meta, c: Bytes)
    requires Sound(env) && Reachable(env, s) && IsId(id) && Path(run, id + SIDE) in s.files
    ensures Records(env, s.puts, run, id, s.files[Path(run, id + SIDE)], m, c) &&
              env.decode(s.files[Path(run, id + SIDE)]) == Some(m)
  {
    ReachableIsOk(env, s);
    var p := Path(run, id + SIDE);
    var kind, own :| FileIs(env, s.puts, p, s.files[p], kind, own);
    NamesApart(kind, own, Side, id);
    m, c :| Records(env, s.puts, run, id, s.files[p], m, c);
  }

  /** Exactly the artifacts with both files are listed: no temporary, no orphan, no sidecar ever is. */
  lemma ListedExactly(env: Env, s: State, run: string, name: string)
    requires Sound(env) && Reachable(env, s) && Path(run, name) in s.files
    ensures RefOf(env, s.files, run, name).Some? <==> IsId(name) && Path(run, name + SIDE) in s.files
  {
    ReachableIsOk(env, s);
    var kind, id :| FileIs(env, s.puts, Path(run, name), s.files[Path(run, name)], kind, id);
    KindOfName(kind, id);
    SideSuffixExactly(kind, id);
    var side := Path(run, name + SIDE);
    if side in s.files {
      var kind2, id2 :| FileIs(env, s.puts, side, s.files[side], kind2, id2);
      SidecarNames(kind, id, kind2, id2);
      var m, c := SidecarRecords(env, s, run, id);
    }
  }

  /** No two of these contents share an id without sharing the whole digest. */
  ghost predicate NoCollision(env: Env, puts: set<Bytes>) {
    forall c, d :: c in puts && d in puts && IdOf(env, c) == IdOf(env, d) ==> env.digest(c) == env.digest(d)
  }

  /** Every listed reference records the hash of the bytes stored under it, and the run it is listed in. */
  ghost predicate Honest(env: Env, files: map<Path, Bytes>) {
    forall run, name :: Path(run, name) in files && RefOf(env, files, run, name).Some? ==>
      var m := RefOf(env, files, run, name).value.recorded;
      m.contentHash == env.digest(files[Path(run, name)]) && m.run == run
  }

  lemma ListIsHonest(env: Env, s: State)
    requires Sound(env) && Reachable(env, s) && NoCollision(env, s.puts)
    ensures Honest(env, s.files)
  {
    forall run, name | Path(run, name) in s.files && RefOf(env, s.files, run, name).Some?
      ensures var m := RefOf(env, s.files, run, name).value.recorded;
              m.contentHash == env.digest(s.files[Path(run, name)]) && m.run == run
    {
      ListedExactly(env, s, run, name);
      VisibleContentHashes(env, s, run, name);
      var m, c := SidecarRecords(env, s, run, name);
    }
  }

  // ------------------------------------------------------- an uninterrupted put

  lemma {:induction false} ExecConcat(env: Env, s: State, a: seq<Step>, b: seq<Step>)
    requires Exec(env, s, a).Some?
    ensures Exec(env, s, a + b) == Exec(env, Exec(env, s, a).value, b)
    decreases |a|
  {
    if a == [] {
      assert a + b == b;
    } else {
      assert (a + b)[1..] == a[1..] + b;
      ExecConcat(env, Next(env, s, a[0]).value, a[1..], b);
    }
  }

  lemma ExecOne(env: Env, s: State, step: Step)
    ensures Exec(env, s, [step]) == Next(env, s, step)
  {
    assert [step][1..] == [];
    if Next(env, s, step).Some? { assert Exec(env, Next(env, s, step).value, []) == Next(env, s, step); }
  }

  lemma ExecThen(env: Env, s: State, steps: seq<Step>, step: Step)
    requires Exec(env, s, steps).Some?
    ensures Exec(env, s, steps + [step]) == Next(env, Exec(env, s, steps).value, step)
  {
    ExecConcat(env, s, steps, [step]);
    ExecOne(env, Exec(env, s, steps).value, step);
  }

  /** Open, write everything, rename. */
  function WriteSteps(task: nat, n: nat): seq<Step> {
    [Advance(task, 0)] + (if n > 0 then [Advance(task, n)] else []) + [Advance(task, 0)]
  }

  /** What `_atomic_write_bytes` leaves behind. */
  function Written(files: map<Path, Bytes>, run: string, name: string, payload: Bytes): map<Path, Bytes> {
    (files - {Path(run, name + TMP)})[Path(run, name) := payload]
  }

  function AfterPut(env: Env, files: map<Path, Bytes>, run: string, content: Bytes, m: Meta): map<Path, Bytes> {
    var id := IdOf(env, content);
    Written(Written(files, run, id, content), run, id + SIDE, env.encode(m))
  }

  /** `op` as it is after its current file is in place, and the operations in flight then. */
  function Moved(ops: map<nat, Op>, task: nat, op: Op): map<nat, Op>
    requires op.Putting?
  {
    if op.side then ops - {task} else ops[task := op.(side := true, written := None)]
  }

  lemma OpenStep(env: Env, s: State, task: nat, op: Op)
    requires op.Putting? && op.written.None? && task in s.ops && s.ops[task] == op
    ensures Next(env, s, Advance(task, 0))
              == Some(s.(files := s.files[Temp(env, op) := []], ops := s.ops[task := op.(written := Some(0))]))
  {
  }

  lemma FillStep(env: Env, s: State, task: nat, op: Op)
    requires op.Putting? && op.written == Some(0) && task in s.ops && s.ops[task] == op && Payload(env, op) != []
    ensures var payload := Payload(env, op);
            Next(env, s, Advance(task, |payload|))
            == Some(s.(files := s.files[Temp(env, op) := payload],
                ops := s.ops[task := op.(written := Some(|payload|))]))
  {
    var payload := Payload(env, op);
    assert payload[..|payload|] == payload;
  }

  lemma SetTwice<K, V>(m: map<K, V>, k: K, v: V, w: V)
    ensures m[k := v][k := w] == m[k := w]
  {
  }

  lemma Filled(env: Env, s: State, task: nat, op: Op)
    requires op.Putting? && op.written.None? && task in s.ops && s.ops[task] == op
    ensures var payload := Payload(env, op);
            var steps := [Advance(task, 0)] + if |payload| > 0 then [Advance(task, |payload|)] else [];
            Exec(env, s, steps)
              == Some(s.(files := s.files[Temp(env, op) := payload],
                         ops := s.ops[task := op.(written := Some(|payload|))]))
  {
    var payload, temp := Payload(env, op), Temp(env, op);
    var empty := op.(written := Some(0));
    OpenStep(env, s, task, op);
    ExecOne(env, s, Advance(task, 0));
    if |payload| > 0 {
      ExecThen(env, s, [Advance(task, 0)], Advance(task, |payload|));
      FillStep(env, Exec(env, s, [Advance(task, 0)]).value, task, empty);
      SetTwice(s.files, temp, [], payload);
      SetTwice(s.ops, task, empty, op.(written := Some(|payload|)));
    } else {
      assert payload == [];
      assert [Advance(task, 0)] + [] == [Advance(task, 0)];
    }
  }

  lemma WriteRun(env: Env, s: State, task: nat, op: Op)
    requires Sound(env) && op.Putting? && op.written.None? && task in s.ops && s.ops[task] == op
    ensures var payload := Payload(env, op);
            Exec(env, s, WriteSteps(task, |payload|))
            == Some(s.(files := (s.files - {Temp(env, op)})[Target(env, op) := payload], ops := Moved(s.ops, task, op)))
  {
    var payload, temp := Payload(env, op), Temp(env, op);
    var steps := [Advance(task, 0)] + if |payload| > 0 then [Advance(task, |payload|)] else [];
    Filled(env, s, task, op);
    ExecThen(env, s, steps, Advance(task, 0));
    var full := Exec(env, s, steps).value;
    assert full.files - {temp} == s.files - {temp};
    assert Moved(full.ops, task, op.(written := Some(|payload|))) == Moved(s.ops, task, op);
  }

  function PutSteps(env: Env, task: nat, run: string, content: Bytes, recorded: Meta): seq<Step> {
    [StartPut(task, run, content, recorded)] + WriteSteps(task, |content|)
        + WriteSteps(task, |env.encode(Recorded(env, run, content, recorded))|)
  }

  /** The sidecar a put writes: the caller's fields with the run and the full hash. */
  function Recorded(env: Env, run: string, content: Bytes, m: Meta): Meta {
    m.(run := run, contentHash := env.digest(content))
  }

  lemma HalfPut(env: Env, s: State, task: nat, run: string, content: Bytes, recorded: Meta)
    requires Sound(env) && task !in s.ops && Free(env, s.ops, run, content)
    ensures var op := Putting(run, content, Recorded(env, run, content, recorded), true, None);
            Exec(env, s, [StartPut(task, run, content, recorded)] + WriteSteps(task, |content|))
            == Some(State(Written(s.files, run, IdOf(env, content), content), s.ops[task := op], s.puts + {content}))
  {
    var first := StartPut(task, run, content, recorded);
    var op := Putting(run, content, Recorded(env, run, content, recorded), false, None);
    var started := s.(ops := s.ops[task := op], puts := s.puts + {content});
    ExecOne(env, s, first);
    ExecConcat(env, s, [first], WriteSteps(task, |content|));
    WriteRun(env, started, task, op);
    assert started.ops[task := op.(side := true)] == s.ops[task := op.(side := true)];
  }

  /** Left alone, a put ends with both files in place and nothing in flight. */
  lemma PutRun(env: Env, s: State, task: nat, run: string, content: Bytes, recorded: Meta)
    requires Sound(env) && task !in s.ops && Free(env, s.ops, run, content)
    ensures Exec(env, s, PutSteps(env, task, run, content, recorded))
         == Some(State(AfterPut(env, s.files, run, content, Recorded(env, run, content, recorded)), s.ops,
             s.puts + {content}))
  {
    var half := [StartPut(task, run, content, recorded)] + WriteSteps(task, |content|);
    var m := Recorded(env, run, content, recorded);
    HalfPut(env, s, task, run, content, recorded);
    var t := Exec(env, s, half).value;
    var op := Putting(run, content, m, true, None);
    ExecConcat(env, s, half, WriteSteps(task, |env.encode(m)|));
    WriteRun(env, t, task, op);
    assert Moved(t.ops, task, op) == s.ops;
  }

  /** A finished put is listed with what the caller said and the full hash, and read back byte for byte. */
  lemma FinishedPutIsSeen(env: Env, files: map<Path, Bytes>, run: string, content: Bytes, m: Meta)
    requires Sound(env)
    ensures var id, after := IdOf(env, content), AfterPut(env, files, run, content, m);
            && Path(run, id) in after && after[Path(run, id)] == content
            && RefOf(env, after, run, id) == Some(Ref(id, m))
  {
    var id := IdOf(env, content);
    IdsAreIds(env, content);
    NamesApart(Content, id, SideTemp, id);
    NamesApart(Content, id, Side, id);
    SideSuffixExactly(Content, id);
  }

  /** Two contents sharing an id but not a digest: the second one, cut short, is listed under the first one's hash. */
  lemma CollisionShows(env: Env, run: string, c: Bytes, d: Bytes, m: Meta) returns (s: State)
    requires Sound(env) && IdOf(env, c) == IdOf(env, d) && env.digest(c) != env.digest(d)
    ensures Reachable(env, s) && s.puts == {c, d} && !Honest(env, s.files)
  {
    var id := IdOf(env, c);
    var first := PutSteps(env, 0, run, c, m);
    PutRun(env, Empty, 0, run, c, m);
    var t := Exec(env, Empty, first).value;
    var second := [StartPut(0, run, d, m)] + WriteSteps(0, |d|);
    HalfPut(env, t, 0, run, d, m);
    ExecConcat(env, Empty, first, second);
    s := Exec(env, t, second).value;
    var recorded := Recorded(env, run, c, m);
    FinishedPutIsSeen(env, Empty.files, run, c, recorded);
    IdsAreIds(env, c);
    NamesApart(Content, id, Side, id);
    NamesApart(Side, id, ContentTemp, id);
    assert RefOf(env, s.files, run, id) == Some(Ref(id, recorded));
    assert s.files[Path(run, id)] == d;
  }

  /**
   * For any set of contents: after every interleaving and every crash of puts of them,
   * every listing is honest exactly when truncating their digests to ids loses nothing.
   */
  lemma ListingIsHonestExactly(env: Env, contents: set<Bytes>)
    requires Sound(env)
    ensures (forall s :: Reachable(env, s) && s.puts <= contents ==> Honest(env, s.files)) <==>
              NoCollision(env, contents)
  {
    if NoCollision(env, contents) {
      forall s | Reachable(env, s) && s.puts <= contents ensures Honest(env, s.files) { ListIsHonest(env, s); }
    } else {
      var c, d :| c in contents && d in contents && IdOf(env, c) == IdOf(env, d) && env.digest(c) != env.digest(d);
      var s := CollisionShows(env, "", c, d, Meta("", "", "", 0, "", "", ""));
    }
  }

  // ------------------------------------------------------------------ the store

  class FilesystemArtifactStore {
    const env: Env
    var files: map<Path, Bytes>

    constructor (env: Env)
      ensures this.env == env && files == map[]
    {
      this.env, files := env, map[];
    }

    method AtomicWriteBytes(run: string, name: string, payload: Bytes)
      modifies this
      ensures files == Written(old(files), run, name, payload)
      ensures Path(run, name) in files && files[Path(run, name)] == payload && Path(run, name + ".tmp") !in files
      ensures forall p :: p != Path(run, name) && p != Path(run, name + ".tmp") ==>
                (p in files <==> p in old(files)) && (p in files ==> files[p] == old(files)[p])
    {
      assert |name + TMP| != |name|;
      var tmp := Path(run, name + TMP);
      files := files[tmp := []];
      files := files[tmp := payload];
      files := (files - {tmp})[Path(run, name) := files[tmp]];
    }

    method Put(run: string, content: Bytes, recorded: Meta) returns (r: Ref)
      modifies this
      ensures r == Ref(IdOf(env, content), Recorded(env, run, content, recorded))
      ensures files == AfterPut(env, old(files), run, content, r.recorded)
      ensures r.recorded == Meta(recorded.name, recorded.contentType, run, recorded.step, recorded.createdAt,
                              env.digest(content), recorded.extra)
    {
      var fullHash := env.digest(content);
      var artifactId := if |fullHash| <= 32 then fullHash else fullHash[..32];
      var payload := recorded.(run := run, contentHash := fullHash);
      AtomicWriteBytes(run, artifactId, content);
      AtomicWriteBytes(run, artifactId + SIDE, env.encode(payload));
      r := Ref(artifactId, payload);
    }

    /** Some file of that name in some run directory; the glob's order is not specified. */
    method Get(artifactId: string) returns (content: Option<Bytes>)
      ensures content.None? <==> EndsWith(artifactId, SIDE) || forall run :: Path(run, artifactId) !in files
      ensures content.Some? ==>
                exists run :: Path(run, artifactId) in files && files[Path(run, artifactId)] == content.value
    {
      var hits := set p | p in files && p.name == artifactId;
      if hits == {} || EndsWith(artifactId, SIDE) {
        assert forall run :: Path(run, artifactId) in files ==> Path(run, artifactId) in hits;
        return None;
      }
      var p :| p in hits;
      assert p == Path(p.run, artifactId);
      content := Some(files[p]);
    }

    /** `dir` is the directory's listing, in whatever order the system gives it. */
    method ListRun(run: string, dir: seq<string>) returns (refs: seq<Ref>)
      requires forall n :: n in dir <==> Path(run, n) in files
      ensures refs == Refs(env, files, run, StableSort(StringLeq, dir))
      ensures forall r :: r in refs <==>
                Path(run, r.artifactId) in files && RefOf(env, files, run, r.artifactId) == Some(r)
      ensures InIdOrder(refs)
    {
      var names := StableSort(StringLeq, dir);
      refs := [];
      for i := 0 to |names|
        invariant refs == Refs(env, files, run, names[..i])
      {
        assert names[..i + 1][..i] == names[..i];
        var name := names[i];
        if EndsWith(name, SIDE) { continue; }
        var side := Path(run, name + SIDE);
        if side !in files { continue; }
        var payload := env.decode(files[side]);
        if payload.None? { continue; }
        refs := refs + [Ref(name, payload.value)];
      }
      assert names[..|names|] == names;
      StringOrder();
      SortSorts(StringLeq, dir);
      RefsInOrder(env, files, run, names);
      forall r
        ensures r in refs <==> Path(run, r.artifactId) in files && RefOf(env, files, run, r.artifactId) == Some(r)
      {
        RefsExactly(env, files, run, names, r);
        if r.artifactId in names { SameItems(names, dir, r.artifactId); }
        if r.artifactId in dir { SameItems(dir, names, r.artifactId); }
      }
    }

    method Delete(artifactId: string) returns (found: bool)
      modifies this
      ensures found <==> !EndsWith(artifactId, SIDE) && exists run :: Path(run, artifactId) in old(files)
      ensures !found ==> files == old(files)
      ensures found ==> files == map p | p in old(files) && !Gone(old(files), artifactId, p) :: old(files)[p]
      ensures found ==> forall p :: p in files <==>
                && p in old(files) && p.name != artifactId
                && !(p.name == artifactId + ".metadata.json" && Path(p.run, artifactId) in old(files))
    {
      found := false;
      var hits := set p | p in files && p.name == artifactId;
      ghost var all := hits;
      if EndsWith(artifactId, SIDE) { return; }
      while hits != {}
        invariant hits <= all
        invariant found <==> all != hits
        invariant files == map p | p in old(files) && !Removed(all - hits, artifactId, p) :: old(files)[p]
      {
        var p :| p in hits;
        hits := hits - {p};
        found := true;
        files := files - {p};
        files := files - {Path(p.run, artifactId + SIDE)};
      }
      assert forall run :: Path(run, artifactId) in old(files) <==> Path(run, artifactId) in all;
      assert forall p <- all :: p == Path(p.run, artifactId);
    }
  }

  predicate Removed(done: set<Path>, id: string, p: Path) {
    p in done || (p.name == id + SIDE && Path(p.run, id) in done)
  }

  /** Removed by a delete: the content under this id in any run, and the sidecar beside it. */
  predicate Gone(files: map<Path, Bytes>, id: string, p: Path) {
    p.name == id || (p.name == id + SIDE && Path(p.run, id) in files)
  }
}
