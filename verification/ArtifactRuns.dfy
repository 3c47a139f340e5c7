/**
 * Single runs of the artifact store, step by step: what a finished put leaves and what it does not
 * touch, what a put or delete cut short leaves, and which operations may be in flight together.
 */
module ArtifactRuns {
  import opened Wrappers
  import opened ArtifactStore

  /** The names a put of one artifact uses in its run. */
  predicate Own(run: string, id: string, p: Path) {
    p.run == run && (p.name == id || p.name == id + ".metadata.json" || p.name == id + ".tmp" ||
                     p.name == id + ".metadata.json" + ".tmp")
  }

  lemma FilesOf(env: Env, files: map<Path, Bytes>, run: string, content: Bytes, m: Meta, p: Path)
    requires !Own(run, IdOf(env, content), p)
    ensures var after := AfterPut(env, files, run, content, m);
            (p in after <==> p in files) && (p in after ==> after[p] == files[p])
  {
  }

  /**
   * A put left alone: the content under the first 32 characters of its digest, listed with every field
   * the caller gave, its run and the whole digest; no other file is touched, and no temporary is left.
   */
  lemma PutLeaves(env: Env, s: State, task: nat, run: string, content: Bytes, m: Meta)
    requires Sound(env) && task !in s.ops && Free(env, s.ops, run, content)
    ensures |env.digest(content)| == 64
    ensures var r := Exec(env, s, PutSteps(env, task, run, content, m));
            var id := env.digest(content)[..32];
            && r.Some? && r.value.ops == s.ops
            && Path(run, id) in r.value.files && r.value.files[Path(run, id)] == content
            && RefOf(env, r.value.files, run, id) == Some(Ref(id, Meta(m.name, m.contentType, run, m.step, m.createdAt,
                 env.digest(content), m.extra)))
            && Path(run, id + ".tmp") !in r.value.files && Path(run, id + ".metadata.json" + ".tmp") !in r.value.files
            && forall p :: !Own(run, id, p) ==>
                 (p in r.value.files <==> p in s.files) && (p in s.files ==> r.value.files[p] == s.files[p])
  {
    assert HexText(env.digest(content), 64);
    var id := IdOf(env, content);
    assert id == env.digest(content)[..32];
    var recorded := Recorded(env, run, content, m);
    PutRun(env, s, task, run, content, m);
    FinishedPutIsSeen(env, s.files, run, content, recorded);
    var after := AfterPut(env, s.files, run, content, recorded);
    forall p | !Own(run, id, p) ensures (p in after <==> p in s.files) && (p in s.files ==> after[p] == s.files[p]) {
      FilesOf(env, s.files, run, content, recorded, p);
    }
    TempsGone(env, s.files, run, content, recorded);
  }

  lemma TempsGone(env: Env, files: map<Path, Bytes>, run: string, content: Bytes, m: Meta)
    requires Sound(env)
    ensures var id, after := IdOf(env, content), AfterPut(env, files, run, content, m);
            Path(run, id + ".tmp") !in after && Path(run, id + ".metadata.json" + ".tmp") !in after
  {
    var id := IdOf(env, content);
    IdsAreIds(env, content);
    NamesApart(ContentTemp, id, Content, id);
    NamesApart(ContentTemp, id, Side, id);
    NamesApart(SideTemp, id, Side, id);
    NamesApart(SideTemp, id, Content, id);
  }

  /** Opened, and the first `k` bytes written. */
  function Opening(task: nat, run: string, content: Bytes, m: Meta, k: nat): seq<Step> {
    [StartPut(task, run, content, m), Advance(task, 0)] + if k > 0 then [Advance(task, k)] else []
  }

  lemma Opened(env: Env, s: State, task: nat, run: string, content: Bytes, m: Meta, k: nat)
    requires Sound(env) && task !in s.ops && Free(env, s.ops, run, content) && k <= |content|
    ensures var temp := Path(run, IdOf(env, content) + ".tmp");
            var op := Putting(run, content, m.(run := run, contentHash := env.digest(content)), false, Some(k));
            Exec(env, s, Opening(task, run, content, m, k))
              == Some(State(s.files[temp := content[..k]], s.ops[task := op], s.puts + {content}))
  {
    var temp := Path(run, IdOf(env, content) + ".tmp");
    var first, second := StartPut(task, run, content, m), Advance(task, 0);
    var full := m.(run := run, contentHash := env.digest(content));
    var started := State(s.files, s.ops[task := Putting(run, content, full, false, None)], s.puts + {content});
    var empty := State(s.files[temp := []], s.ops[task := Putting(run, content, full, false, Some(0))],
        s.puts + {content});
    ExecOne(env, s, first);
    ExecThen(env, s, [first], second);
    SetTwice(s.ops, task, Putting(run, content, full, false, None), Putting(run, content, full, false, Some(0)));
    assert [first] + [second] == [first, second];
    assert Exec(env, s, [first, second]) == Some(empty);
    if k > 0 {
      ExecThen(env, s, [first, second], Advance(task, k));
      SetTwice(s.files, temp, [], content[..k]);
      SetTwice(s.ops, task, Putting(run, content, full, false, Some(0)), Putting(run, content, full, false, Some(k)));
    } else {
      assert content[..0] == [] && [first, second] + [] == [first, second];
    }
  }

  /**
   * A put may be cut anywhere: for every length there is a run that leaves that much of the content in
   * the temporary, whether it crashes or is aborted, and nothing under the artifact's own name.
   */
  lemma CutAnywhere(env: Env, s: State, task: nat, run: string, content: Bytes, m: Meta, k: nat)
    requires Sound(env) && task !in s.ops && Free(env, s.ops, run, content) && k <= |content|
    ensures var temp := Path(run, IdOf(env, content) + ".tmp");
            && Exec(env, s, Opening(task, run, content, m, k) + [Crash])
                 == Some(State(s.files[temp := content[..k]], map[], s.puts + {content}))
            && Exec(env, s, Opening(task, run, content, m, k) + [Abort(task)])
                 == Some(State(s.files[temp := content[..k]], s.ops, s.puts + {content}))
  {
    Opened(env, s, task, run, content, m, k);
    ExecThen(env, s, Opening(task, run, content, m, k), Crash);
    ExecThen(env, s, Opening(task, run, content, m, k), Abort(task));
    var op := Putting(run, content, m.(run := run, contentHash := env.digest(content)), false, Some(k));
    assert s.ops[task := op] - {task} == s.ops;
  }

  /** A delete takes the content first and the sidecar then; cut in between, the sidecar stays behind, unlisted. */
  lemma DeleteRun(env: Env, s: State, task: nat, run: string, id: string, a: nat, b: nat)
    requires task !in s.ops && IsId(id) && Path(run, id) in s.files
    ensures Exec(env, s, [StartDelete(task, run, id), Advance(task, a), Advance(task, b)])
         == Some(s.(files := s.files - {Path(run, id)} - {Path(run, id + ".metadata.json")}))
    ensures Exec(env, s, [StartDelete(task, run, id), Advance(task, a), Crash])
         == Some(s.(files := s.files - {Path(run, id)}, ops := map[]))
  {
    var first, second := StartDelete(task, run, id), Advance(task, a);
    var gone := s.(files := s.files - {Path(run, id)}, ops := s.ops[task := Deleting(run, id, true)]);
    ExecOne(env, s, first);
    ExecThen(env, s, [first], second);
    assert [first] + [second] == [first, second];
    SetTwice(s.ops, task, Deleting(run, id, false), Deleting(run, id, true));
    assert Exec(env, s, [first, second]) == Some(gone);
    ExecThen(env, s, [first, second], Advance(task, b));
    ExecThen(env, s, [first, second], Crash);
    assert [first, second] + [Advance(task, b)] == [first, second, Advance(task, b)];
    assert [first, second] + [Crash] == [first, second, Crash];
    assert gone.ops - {task} == s.ops;
  }

  /** Two puts may be in flight together unless they are of one artifact in one run. */
  lemma TogetherExactly(env: Env, a: nat, b: nat, runA: string, runB: string, c: Bytes, d: Bytes, m: Meta)
    requires a != b
    ensures Exec(env, Empty, [StartPut(a, runA, c, m), StartPut(b, runB, d, m)]).Some? <==>
              runA != runB || IdOf(env, c) != IdOf(env, d)
  {
    var first, second := StartPut(a, runA, c, m), StartPut(b, runB, d, m);
    ExecOne(env, Empty, first);
    ExecThen(env, Empty, [first], second);
    assert [first] + [second] == [first, second];
  }
}
