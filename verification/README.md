# Stargraph, verified

A Dafny model of the self-contained cores of Stargraph, a runtime for agent graphs, and of the
logic in its demos. Each module models one component in the form the component has: value-level
functions where the code computes, methods with loops and classes with mutable fields where the
code changes things, transition systems where steps interleave. `dafny verify dfyconfig.toml`
checks the whole project.

| file | component |
|---|---|
| `DurableGraph.dfy`, `DurablePaths.dfy` | durable pipelines: entry node, node wrapper, suspend cursor, engine ticks, processes that die at any checkpoint and are relaunched; which declared nodes a run executes |
| `Checkpoints.dfy` | the SQLite and PostgreSQL checkpoint tables against one append log |
| `Routing.dfy`, `RouteTables.dfy` | the `routes` compiler and the rule engine its rules are loaded into; which tables compile, are accepted and are followed |
| `Defrules.dfy`, `RuleText.dfy`, `WhenTexts.dfy` | printing a whole rule, and its `when` mapping as CLIPS patterns; reading the text back; finding its owner; the patterns of that code spelled out |
| `Documents.dfy` | what a graph checks of a document's nodes and rules before it is built |
| `Actions.dfy` | picking one routing decision from the fired actions |
| `BranchMerge.dfy` | reducer-aware merge of parallel branches |
| `StructuralHash.dfy`, `BigIntTags.dfy`, `SchemaForms.dfy` | the structural-hash payload and its normal form; what the normal form keeps of a payload; which documents the hash tells apart |
| `ArtifactStore.dfy`, `ArtifactRuns.dfy` | the filesystem artifact store as interleaved file-system steps with crashes; single puts and deletes, finished or cut short |
| `AuditLog.dfy`, `AuditChain.dfy` | the rotating JSONL log; the hash-chained audit trail |
| `PackTree.dfy`, `TrustStore.dfy` | the signed pack-tree framing; write-once key pinning and pack verification |
| `StableIds.dfy`, `Slugs.dfy` | slugs, the stable-id grammar, filling in missing ids; the words and numbers generated ids are made of |
| `Matching.dfy`, `Suppression.dfy`, `Patches.dfy` | dark-vessel demo: AIS matching, duplicate suppression, patch tiling |
| `Clipping.dfy`, `LineClipping.dfy` | its polygon clipping: the passes; when they clip by whole lines |
| `Enclosing.dfy`, `EnclosingBoxes.dfy` | subjects that lie around the clip polygon: which of them lose the whole intersection |
| `ConvexArea.dfy`, `Containment.dfy`, `Overlaps.dfy` | what is left of convex polygons: no larger than the subject, nor than the clip polygon; the overlap of two boxes, exactly |
| `Layering.dfy` | the graph viewer's layering of a topology |
| `Ordering.dfy`, `Decimals.dfy`, `Wrappers.dfy` | total preorders and stable sorting, decimal notation, `Option` |

What the code does not do, although its comments or documentation say so, or a caller might expect it.
Each is stated below with the exact condition under which the expectation is met.

- For every `routes` table that compiles to a document a graph accepts, every rule is read as a rule (slot types are
  not checked here), and the engine does what the table says exactly when no branching node is named by a numeral or
  with a final newline, and no two rule ids differ only in a final newline. Ids that coincide (`a` branching on `b-c`, `a-b` branching on `c`) and ids with
  spaces are refused before an engine is built.
- `suspend_after` is honoured only while a run has never been suspended: `sg_suspended` is never cleared.
- An edge is resolved on the state before the node's patch. That is the same as resolving it after, whatever the
  node does, exactly when the edge is static or its router constant.
- A run that nobody asked to suspend is suspended exactly when it follows an edge to the reserved sentinel, and then
  it loses its position.
- A missing branch id makes SQLite keep the replaced rows, although the comment on `read_latest` says they are
  replaced: the table holds exactly the last write per key until a step is written twice, differently, outside
  branches. Reading by row id is right all the same.
- The PostgreSQL read returns a write exactly when no other row of the run is as late.
- Python's `$` lets node and field names end in a newline, which neither the rule reader nor the owner search gives
  back, and a dot in a field name prints as a dash. A mapping reads back as it was spelled exactly when no name ends
  in a newline, no field name has a dot and the node is not a numeral.
- `pack_requires` is sorted by pack id alone, so mount order matters exactly when mounts of one id differ. A graph
  refuses mounts sharing an id; only a direct call of `structural_hash` can see them.
- Tuples pass `_normalize` untouched, so integers inside them are never tagged.
- A tagged integer and the string that spells its tag have one normal form. A payload is recovered from its normal
  form, up to the order of nodes and edges, exactly when no string outside tuples carries a tag.
- Artifact ids truncate the digest: for any set of contents, listings are honest after every crash of every run that
  puts only those exactly when truncation loses nothing on them.
- From an empty active file every file begun keeps within the rotation ceiling exactly when every line does; an
  over-long line makes a file of its own, and on an empty log rotates an empty file aside. Suffix order is write
  order exactly when the suffixes in use have no gap.
- Clipping keeps only crossings inside a clip edge's own segment. After each pass the polygon is the one clipped by
  the whole line exactly when no crossing is missed, for lying outside the segment or on a nearly parallel edge. A
  subject whose edges miss the first clip edge, with at most two vertices on its inner side, loses the whole
  intersection: every triangle around any clip polygon does, and every axis-parallel rectangle around the unit square.
  A convex box with one corner beyond each side of it, as every tilted rectangle around it has, keeps some area
  exactly when its right and left corners are not below the square, its upper one is not to the right of it, the
  diagonal between left and right leaves the square on the right below the corner, the segment from there to the
  upper corner crosses the top edge, and either the left corner is no higher than the square or the diagonal crosses
  the top edge too. A square that stands on a corner keeps at least half of the unit square.
- Clipping takes every clip polygon for counter-clockwise. A detection whose corners go round clockwise overlaps
  nothing that is kept before it, not even a copy of itself, so deduplication never drops it: of two copies of one
  convex box it keeps one exactly when the corners go round counter-clockwise.
- A clip polygon that is a single point clips nothing. For convex polygons, and a clip polygon with an area, the
  intersection is no larger than either.
- Patch origins cover every scene exactly for a positive patch size and an overlap above minus one pixel; the
  detector's own tiling covers an axis exactly when the axis fits in one patch, or the stride is no wider than the
  patch and divides what is left of the axis.
- The viewer's layering throws a `TypeError` exactly when an edge source or a reachable node is named like an
  inherited object property.

## Model

| member | source | states |
|---|---|---|
| DurableGraphs.OneRuleFires | src/stargraph/authoring.py:203-221 | for every value of the route field exactly one of the three rules fires, so the decision is never the static edge |
| DurableGraphs.DurableGraph.ExecuteNode | src/stargraph/authoring.py:133-151 | the patch a wrapped node returns, applied, is one node tick: successor from the state before the patch, suspend once |
| DurableGraphs.DurableGraph.ExecuteEntry | src/stargraph/authoring.py:162-166 | the entry node restores the stashed successor after a suspend and otherwise changes nothing |
| DurableGraphs.DurableGraph.Dispatch | src/stargraph/authoring.py:424-432 | one tick runs one node, decides, and commits exactly one checkpoint of the state after it |
| DurableGraphs.DurableGraph.Execute | src/stargraph/authoring.py:424-446 | the engine loop of one process ends where the tick-by-tick specification ends, having written exactly its checkpoints, numbered from 0 |
| DurableGraphs.DurableGraph.Run | src/stargraph/authoring.py:388-446 | fresh start or resume from the latest checkpoint of the run; no checkpoint is an error that writes nothing |
| DurableGraphs.StampExactly | src/stargraph/authoring.py:388-446 | a process writes one checkpoint a tick, numbered from 0, outside branches |
| DurablePaths.TickFollowsEdge | src/stargraph/authoring.py:133-151 | the route a node leaves is the target of its static edge, what its router picks, or the halt when there is no edge or it leads to the end; with a pending request it is stashed |
| DurablePaths.FreshRunIsJourney | src/stargraph/authoring.py:348-446 | for any path through the declared nodes and edges from the entry: a fresh process executes exactly these nodes in this order, each on the state the one before left, and ends done, parked or at an unknown node as the last edge says; killed earlier, it has executed as many as it had ticks for |
| DurablePaths.SuspendedRunIsJourney | src/stargraph/authoring.py:133-166 | asked to suspend behind the k-th node of the path, a process executes the first k and a plain resume executes exactly the rest, to the same end |
| DurablePaths.ResumeEntersAt | src/stargraph/authoring.py:403-422 | `resume_to` with a patch: the first node executed is the one named, on the patched state; without a checkpoint there is nothing to resume |
| DurablePaths.Launches | src/stargraph/authoring.py:357-446 | calling `run` again and again, other runs writing in between, leaves the log and the results of the session the theorems are about |
| DurableGraphs.LatestAfterProcess | src/stargraph/checkpoint/sqlite.py:304-327 | after a process whose step numbers restart at 0, the latest checkpoint is that process's last one, and other runs are unaffected |
| DurableGraphs.TickIsStep | src/stargraph/authoring.py:133-166 | every tick is one step of the bare machine (user state, next node), suspended or not; the entry tick is none |
| DurableGraphs.DriveRefines | src/stargraph/authoring.py:133-166 | a process executes exactly a run of the bare machine, wherever it stops, and keeps the suspend cursor consistent |
| DurableGraphs.SessionIsFaithful | src/stargraph/authoring.py:388-446 | invariant over any fresh start and any number of resumes, each killed at any checkpoint, in a shared table |
| DurableGraphs.DurableResume | src/stargraph/authoring.py:388-447 | the executions over all processes are a prefix of the uninterrupted run's, on the same inputs, with the same stored user state, and all of it once a process reports done |
| DurableGraphs.SuspendsAtMostOnce | src/stargraph/authoring.py:141-149 | over the whole life of a run at most one process ends suspended, whatever later launches ask for |
| DurableGraphs.SuspendsAfterFirst | src/stargraph/authoring.py:141-151 | a suspend request cuts the run right after the first execution of the named node, also on a cycle, and changes nothing else |
| DurableGraphs.SuspendHonouredExactly | src/stargraph/authoring.py:417-418 | a request on resume suspends if and only if the run was never suspended and the node is run |
| DurableGraphs.SuspendsUnaskedExactly | src/stargraph/authoring.py:133-151 | a process that was not asked to suspend ends suspended if and only if an executed node's edge resolved to the sentinel, and then nothing was stashed to resume at |
| DurableGraphs.UnaskedSuspensionLosesPosition | src/stargraph/authoring.py:162-166 | in any graph without an empty node name, a run suspended so fails when it is resumed: it stands at the empty name |
| DurableGraphs.ReservedTargetLosesPosition | src/stargraph/authoring.py:348-353 | such an edge is accepted, and one node with it is enough |
| DurableGraphs.EdgeOrderOfNodeExactly | src/stargraph/authoring.py:133-140 | for a node, resolving its edge before or after its patch agrees in every state if and only if it has no router or its patch never moves the router's choice |
| DurableGraphs.EdgeOrderExactly | src/stargraph/authoring.py:133-140 | over all node functions and states the two orders agree if and only if the edge is static or its router constant |
| DurableGraphs.RouterMissesOwnWrite | src/stargraph/authoring.py:133-140 | a router on a field its own node writes chooses by the old value |
| Checkpoints.SqliteReadsLastWrite | src/stargraph/checkpoint/sqlite.py:304-327 | a row may be returned by row-id order if and only if it is the last write of the run, after any interleaving of runs and replacements |
| Checkpoints.LatestExactly | src/stargraph/checkpoint/sqlite.py:304-327 | the latest checkpoint of a run is the write of it that no later write of it follows |
| Checkpoints.SqliteHoldsExactly | src/stargraph/checkpoint/sqlite.py:274-302 | a row is in the table if and only if it is the last write of its (run, step, branch), or any write at all when the branch is missing and nulls are distinct |
| Checkpoints.NullBranchRowsAccumulate | src/stargraph/checkpoint/sqlite.py:274-302 | with distinct nulls the table holds exactly the last write per key if and only if no step of a run is written twice, differently, outside branches |
| Checkpoints.ResumedRunKeepsStaleRow | src/stargraph/graph/run.py:695-712 | a run resumed from its first step keeps the stale row beside the new one |
| Checkpoints.SQLiteTable.Write | src/stargraph/checkpoint/sqlite.py:274-302 | the table after a write is the one its whole log of writes gives |
| Checkpoints.SQLiteTable.ReadLatest | src/stargraph/checkpoint/sqlite.py:304-327 | returns the last checkpoint written for the run, or none |
| Checkpoints.PgReadsLastWrite | src/stargraph/checkpoint/postgres.py:295-322 | with (timestamp, step) strictly increasing per run, the newest row is the last write |
| Checkpoints.PgReadBackExactly | src/stargraph/checkpoint/postgres.py:256-322 | a write is what every following read returns if and only if every other row of its run is strictly earlier |
| Checkpoints.PgHoldsExactly | src/stargraph/checkpoint/postgres.py:256-293 | the upserted table holds exactly the writes no later write of the same run, step and branch follows, a missing branch counting as the empty name |
| Checkpoints.ReadBackInTime | src/stargraph/checkpoint/postgres.py:256-322 | a write is read back if and only if no surviving one of its run is at a later instant, or at the same instant and no earlier step |
| Checkpoints.TimestampTieReadsStale | src/stargraph/checkpoint/postgres.py:295-322 | two writes at one instant, the later one at a smaller step: the read returns the earlier one |
| Checkpoints.PostgresTable.Write | src/stargraph/checkpoint/postgres.py:256-293 | the upserted table is the one its whole log of writes gives |
| Checkpoints.PostgresTable.ReadLatest | src/stargraph/checkpoint/postgres.py:295-322 | returns a newest row, which is the last write while the clock increases |
| Checkpoints.DriversAgree | src/stargraph/checkpoint/postgres.py:295-322 | both drivers refine one append log: they return the same checkpoint |
| Actions.TranslateActions | src/stargraph/runtime/action.py:114-148 | the decision is the first action of the highest kind present, interrupt over halt over goto over parallel; with side effects only it is to continue |
| Actions.PrecedenceExactly | src/stargraph/runtime/action.py:114-148 | kind by kind: the first interrupt; else the first halt; else the first goto; else the first parallel block; else none, and only then |
| Actions.DecisionIsUnique | src/stargraph/runtime/action.py:114-148 | that rule leaves one decision |
| Defrules.CompileRule | src/stargraph/fathom/_ir_builder.py:77-102 | the text of a rule: its actions in order, or skipped at the first that is not routable, or refused when its mapping does not print |
| Defrules.SkippedExactly | src/stargraph/fathom/_ir_builder.py:80-99 | a rule is skipped if and only if one of its actions is neither goto nor halt |
| Defrules.CompiledExactly | src/stargraph/fathom/_ir_builder.py:77-102 | skipping goes before refusing: a rule is refused if and only if all its actions are goto or halt and its mapping does not print |
| Defrules.ActionsSpelled | src/stargraph/fathom/_ir_builder.py:80-90 | the fact a goto or halt prints, slot by slot, its texts escaped |
| Defrules.RuleReadsBack | src/stargraph/fathom/_ir_builder.py:76-102 | a printed rule reads back as its name up to a final newline, its patterns and all its asserted facts, and as nothing more |
| Defrules.SpacedIdIsNoRule | src/stargraph/fathom/_ir_builder.py:102-102 | with a space in its id what is printed is no rule, whatever its conditions and actions, to a reader that has no pattern bindings (`?x <-` after the space would bind the first pattern) |
| Defrules.FactRecovers | src/stargraph/fathom/_action.py:64-71 | the fact a goto or halt prints is extracted as that action under that rule id, for every target and reason |
| Documents.CheckIds | src/stargraph/ir/_validate.py:131-171 | exactly the nodes and rules whose id breaks the grammar are reported |
| Documents.CheckWhens | src/stargraph/ir/_validate.py:202-239 | exactly the mappings that do not print, and those that print but name no node of the document |
| Documents.FindRepeats | src/stargraph/ir/_validate.py:265-284 | every repeated position of a namespace, with the first position of its id, and no other |
| Documents.CheckRepeats | src/stargraph/ir/_validate.py:242-285 | repeats among nodes and among rules, the two kept apart |
| Documents.Validate | src/stargraph/ir/_validate.py:128-189 | reports exactly what the first stage with a fault finds; nothing if and only if the document is valid |
| Documents.ValidExactly | src/stargraph/graph/definition.py:334-339 | a document is accepted if and only if there is nothing at all to complain about |
| Routing.ThenOf | src/stargraph/authoring.py:635-643 | halt for `done`, goto for a declared node, refusal otherwise |
| Routing.CompileOneRoute | src/stargraph/authoring.py:645-671 | the rules of one route, or the first complaint about it |
| Routing.Compile | src/stargraph/authoring.py:627-672 | the rules of all routes in order, or the first failure |
| RouteTables.CompilesExactly | src/stargraph/authoring.py:627-672 | a table compiles if and only if every source is declared, every route has a shape, branching is on a routed verdict, and every target is `done` or declared |
| RouteTables.FailsExactly | src/stargraph/authoring.py:635-672 | the failure reported is that of the first route that does not fit: its source, then its shape or missing verdict, then its first bad target |
| RouteTables.AcceptedTableExactly | src/stargraph/ir/_validate.py:128-189 | which tables a graph accepts, in terms of the table: every route fits, and node and rule ids pass the grammar and do not repeat |
| RouteTables.DirectRouteFires | src/stargraph/authoring.py:627-672 | end to end, for every table of direct routes between plainly named nodes: it is accepted, its rules print and load, and at the source of a route exactly one rule fires, with the table's target |
| RouteTables.NoRouteIsSilent | src/stargraph/authoring.py:627-672 | and at a node without a route none fires |
| Routing.CompiledRulesAre | src/stargraph/authoring.py:645-672 | a successful compilation yields one rule for each arrow of the table, in order, with declared sources |
| Routing.TableExactly | src/stargraph/authoring.py:645-666 | an arrow that applies at a node and verdict is the one a plain table lookup names |
| Routing.OneCaseApplies | src/stargraph/authoring.py:645-666 | no two arrows of a table apply together |
| Routing.RuleLoads | src/stargraph/fathom/_ir_builder.py:76-102 | a compiled rule of an accepted document, printed whole and read, has its name, exactly the node pattern and the verdict pattern if any, and asserts its one action under its id |
| Routing.LoadRules | src/stargraph/fathom/_ir_builder.py:144-175 | the engine's rules by name, a later rule replacing an earlier of the same name; nothing when a mapping does not print or a text is no rule |
| Routing.BuildRouting | src/stargraph/fathom/_ir_builder.py:144-155 | no engine if and only if every rule is skipped; otherwise the loaded rules, or the failure |
| Routing.TableBuildsExactly | src/stargraph/fathom/_ir_builder.py:144-155 | an accepted table gets an engine if and only if it has an arrow |
| Routing.RoutingEngine.Retract | src/stargraph/fathom/_ir_builder.py:137-139 | removes exactly the facts of one template |
| Routing.RoutingEngine.MirrorState | src/stargraph/fathom/_ir_builder.py:134-141 | from any memory, leaves one node fact, one fact per mirrored field, and unrelated facts untouched |
| Routing.RoutingEngine.Evaluate | src/stargraph/fathom/_adapter.py:134-155 | for some order of the firing rules, exactly their actions, and beside each the id of the rule that asserted it |
| Routing.ProducedExactly | src/stargraph/fathom/_ir_builder.py:77-102 | a rule's facts stand for all its actions, in order, each under the rule's id |
| Routing.ProducedInTurn | src/stargraph/fathom/_adapter.py:134-155 | rules that fire in turn produce what each does, one after another |
| Routing.FiredIsDecision | src/stargraph/runtime/action.py:114-148 | when one rule fires, the decision picked from what `evaluate` reports is its action, in whatever order facts come |
| Routing.RuleMatchesExactly | src/stargraph/fathom/_ir_builder.py:76-141 | on the facts of a tick a rule matches if and only if its arrow applies to the node and verdict |
| Routing.LoadedExactly | src/stargraph/fathom/_ir_builder.py:144-175 | all rules of an accepted document are read (slot types unchecked), and each name holds the last rule compiled to it |
| Routing.UnreadableSourceIsSilent | src/stargraph/fathom/_ir_builder.py:134-141 | a branching node named by a numeral or with a final newline: the engine does not do what the table says |
| Routing.LostRuleDisagrees | src/stargraph/authoring.py:650-662 | in an accepted document, if two rule ids are read as one name, there are a node and a verdict at which the engine does not do what the table says |
| Routing.CompilationPreservesMeaning | src/stargraph/authoring.py:627-672 | for every accepted table the rules are read (slot types unchecked), and at every node and verdict the engine fires exactly the table's action, or nothing when it has none, if and only if every source reads back as itself and no two rule ids are read as one name |
| Routing.AcceptedIdsSuffice | src/stargraph/ir/_validate.py:242-285 | in an accepted document rule ids without a final newline are read as distinct names |
| Routing.AcceptedExactly | src/stargraph/graph/definition.py:334-339 | a compiled table is accepted if and only if its nodes are distinct and well named and its rule ids are |
| Routing.CollisionIsRefused | src/stargraph/ir/_validate.py:242-285 | `a` branching on `b-c` and `a-b` on `c` compile, and are refused |
| Routing.SpacedVerdictIsRefused | src/stargraph/ir/_validate.py:146-157 | a verdict with a space in it compiles, and is refused |
| Routing.NumeralNodeIsNotRouted | src/stargraph/fathom/_ir_builder.py:134-141 | a one-node table whose node is a well-named numeral is accepted and loaded, and not followed |
| Routing.SevenIsNumeral | src/stargraph/ir/_ids.py:110-131 | `7` is such a node |
| Routing.NewlineTwinIsLost | src/stargraph/ir/_ids.py:110-131 | two verdicts that differ in a final newline are accepted, and the first rule is lost |
| Routing.TickDecides | src/stargraph/fathom/_ir_builder.py:134-141 | one tick from any memory decides what the table decides and nothing else |
| Routing.RunsFollowTable | src/stargraph/fathom/_ir_builder.py:134-141 | a whole engine run visits the nodes the table alone visits, and conversely |
| Routing.RunIsWalk | src/stargraph/fathom/_ir_builder.py:134-141 | a run by the table goes from node to node only where the table says, or to the next declared node where it says nothing, and stops early only at a halt or behind the last node |
| RuleText.CompileWhen | src/stargraph/ir/_when.py:62-97 | raw text as it is; a mapping as its patterns in order, node first, or the first error |
| WhenTexts.NodeRefExactly | src/stargraph/ir/_when.py:49-49 | the characters a node reference may have, and the one newline that passes behind them |
| WhenTexts.FieldKeyExactly | src/stargraph/ir/_when.py:52-87 | which keys pass once their dots are dashes: a dot may stand anywhere but in front |
| WhenTexts.PrintsExactly | src/stargraph/ir/_when.py:62-97 | a mapping prints if and only if it is not empty, its node is a node reference, and every other key is a field with a scalar |
| WhenTexts.RefusedExactly | src/stargraph/ir/_when.py:72-97 | what is reported of the others: the empty mapping, then the node, then the first bad key or value |
| RuleText.StringRoundTrip | src/stargraph/ir/_when.py:57-59 | reading an escaped string literal gives the value back and stops at the intended quote, for every value and rest |
| RuleText.PrintedReadsBack | src/stargraph/ir/_when.py:62-97 | parsing the printed mapping recovers the node and every mangled field, each up to a final newline, and every value, in order |
| RuleText.NodeRecoveredExactly | src/stargraph/ir/_when.py:47-82 | the node is recovered as a name and unchanged if and only if it does not end in a newline and is not a numeral |
| WhenTexts.NumeralExactly | src/stargraph/ir/_when.py:82-82 | the texts taken for numbers: sign, figures, point with figures, exponent |
| RuleText.FieldsRecoveredExactly | src/stargraph/ir/_when.py:84-97 | the fields are recovered as they were spelled if and only if none of their names ends in a newline or has a dot |
| RuleText.MappingRecoveredExactly | src/stargraph/ir/_when.py:62-97 | the whole mapping reads back as it was spelled if and only if that holds and the node is no numeral and does not end in a newline |
| RuleText.NewlineNodeIsBlurred | src/stargraph/ir/_when.py:47-82 | a node named with a final newline prints, and is read and found without it |
| RuleText.BackfillFindsOwner | src/stargraph/ir/_backfill.py:35-57 | the pattern search on the printed text finds the declared node, without a final newline |
| WhenTexts.SearchExactly | src/stargraph/ir/_backfill.py:35-53 | the search finds the leftmost spelling of a node pattern anywhere in the text, white space free, and nothing only where there is none |
| WhenTexts.CandidateExactly | src/stargraph/ir/_backfill.py:50-57 | the owner proposed: of raw text what the search finds, of a mapping its node |
| RuleText.BackfillRuleNodeIds | src/stargraph/ir/_backfill.py:38-58 | declared owners stay; missing ones are filled exactly with a candidate that is a node of the document |
| BranchMerge.CollectKeys | src/stargraph/graph/_loop_helpers.py:139-148 | every field with its values in branch order, unless some branch is not a mapping |
| BranchMerge.FoldField | src/stargraph/graph/_loop_helpers.py:166-170 | the left fold of a field's values |
| BranchMerge.FoldIsLeft | src/stargraph/graph/_loop_helpers.py:166-170 | the fold takes the values from the left, the result so far first |
| BranchMerge.MergedValueExactly | src/stargraph/graph/_loop_helpers.py:139-182 | a merged field holds the value of its one writer, or the fold of all its writers' values in branch order, and is there if and only if it has a writer |
| BranchMerge.MergeBranchResults | src/stargraph/graph/_loop_helpers.py:139-182 | the merge, the last state when some branch is no mapping, or a conflict on a field written twice without a reducer |
| BranchMerge.MergeSucceedsExactly | src/stargraph/graph/_loop_helpers.py:150-181 | the merge succeeds if and only if every field written by two branches has a reducer |
| BranchMerge.MergedDomain | src/stargraph/graph/_loop_helpers.py:139-182 | the merged fields are the union of the branches' fields |
| BranchMerge.MergeRegroups | src/stargraph/graph/_loop_helpers.py:165-170 | with associative reducers, merging two groups and then the results is merging all at once, also in failing |
| BranchMerge.MergePermutes | src/stargraph/graph/_loop_helpers.py:165-170 | with associative and commutative reducers the merge ignores the order of branches |
| BranchMerge.OrderFreeExactly | src/stargraph/graph/_loop_helpers.py:165-170 | merging is independent of the order of branches if and only if every reducer is associative and commutative |
| StructuralHash.NormalizeValue | src/stargraph/graph/hash.py:83-128 | the recursive normaliser computes the normal form of every payload |
| StructuralHash.NormalizeTopologyValue | src/stargraph/graph/hash.py:107-123 | inside a topology the `nodes` and `edges` lists are normalised and put in order |
| SchemaForms.TopologySorted | src/stargraph/graph/hash.py:107-146 | under `topology` the normalised nodes are in order of their text and the edges in order of source, target and port; every other list keeps its order |
| SchemaForms.IntegerForm | src/stargraph/graph/hash.py:83-103 | integers from -(2^53-1) to 2^53-1 stay, all others become the tag with their decimal notation |
| StructuralHash.NormalizeIdempotent | src/stargraph/graph/hash.py:83-128 | normalising twice is normalising once, for every payload |
| StructuralHash.NormalCleanExactly | src/stargraph/graph/hash.py:98-128 | no integer outside the exact range is left if and only if no tuple of the payload holds one |
| SchemaForms.NormalKeepsExactly | src/stargraph/graph/hash.py:98-128 | the same by paths: an integer out of range is left somewhere if and only if one stood in a tuple |
| StructuralHash.IntegersStayApart | src/stargraph/graph/hash.py:61-103 | tagging never makes two integers equal |
| BigIntTags.StringMeetsInteger | src/stargraph/graph/hash.py:61-103 | a string and an integer normalise alike if and only if the integer is out of range and the string is its tag |
| BigIntTags.RecoveredExactly | src/stargraph/graph/hash.py:83-128 | untagging the normal form gives the payload back, up to the order of nodes and edges, if and only if no string of it outside tuples carries a tag |
| BigIntTags.NormalizeSeparates | src/stargraph/graph/hash.py:83-128 | payloads without tags that normalise alike are rearrangements of one payload |
| BigIntTags.TagCollides | src/stargraph/graph/hash.py:61-103 | 2^53 and the string that is its tag normalise alike, and are not |
| StructuralHash.CoercedIsHashable | src/stargraph/graph/hash.py:217-239 | a coerced state schema holds no float, and normalising it leaves no integer out of range |
| SchemaForms.CoercedAt | src/stargraph/graph/hash.py:217-239 | at every path coercion keeps keys, lengths and leaves; an integral float becomes that integer, another its text, a tuple a list |
| SchemaForms.CoerceKeepsExactly | src/stargraph/graph/hash.py:217-239 | a schema is left unchanged if and only if it has no float and no tuple anywhere |
| SchemaForms.CoercedAlikeExactly | src/stargraph/graph/hash.py:217-239 | two raw schemas are coerced alike if and only if they are alike at every path |
| StructuralHash.TopologyFromIr | src/stargraph/graph/hash.py:149-174 | the sorted node ids and the sorted edges derived from goto, parallel and retry actions |
| StructuralHash.EdgesExactly | src/stargraph/graph/hash.py:162-173 | an edge is derived if and only if a rule of its source id has a goto, parallel or retry action to its target, its port naming which |
| StructuralHash.PackRequiresComponent | src/stargraph/graph/hash.py:186-214 | the needed triples sorted by id, absent when there are none |
| StructuralHash.NeededExactly | src/stargraph/graph/hash.py:204-208 | a triple is needed if and only if a mount declares exactly it |
| StructuralHash.TopologyExactly | src/stargraph/graph/hash.py:149-174 | the topology components are equal if and only if the node ids and the derived edges agree as multisets |
| StructuralHash.SignaturesForgetOrder | src/stargraph/graph/hash.py:177-183 | with distinct ids the signature map ignores the order of nodes |
| StructuralHash.RequiresOrderFreeExactly | src/stargraph/graph/hash.py:186-214 | the component ignores the order of mounts if and only if mounts sharing an id ask for the same versions |
| StructuralHash.MountOrderShows | src/stargraph/graph/hash.py:186-214 | two mounts of one id with different versions, in both orders |
| StructuralHash.StructuralIdentity | src/stargraph/graph/hash.py:296-343 | two normal payloads are equal if and only if topology, signatures, state schema, pack multisets and pack requirements all agree |
| SchemaForms.PayloadHolds | src/stargraph/graph/hash.py:330-343 | the keys of the payload, requirements only where some mount declares them, and the raw schema's shape and leaves at every path of its component |
| SchemaForms.PayloadSorted | src/stargraph/graph/hash.py:149-343 | node ids are in order, edges in order of source, target and port, rule packs in order of id, hash and version |
| SchemaForms.CanonicalIdentity | src/stargraph/graph/hash.py:296-343 | what is encoded is equal if and only if topology, signatures, packs and requirements agree and the raw schemas are alike at every path, for schemas in which no text spells a tag and no property is called topology |
| SchemaForms.SchemaShows | src/stargraph/graph/hash.py:296-343 | a difference in a key, a length or a value at any depth of the state schema changes what is encoded |
| StructuralHash.PayloadForgetsOrder | src/stargraph/graph/hash.py:330-343 | the payload is unchanged by reordering nodes, rules, pack triples and consistent mounts |
| StructuralHash.RefusedExactly | src/stargraph/graph/hash.py:66-80 | hashing is refused if and only if a node signature holds a float |
| SchemaForms.HasFloatExactly | src/stargraph/graph/hash.py:66-80 | the check finds a float if and only if there is one at some path |
| SchemaForms.HashableExactly | src/stargraph/graph/hash.py:66-80 | a document can be hashed if and only if no path of a node signature ends at a float |
| Ordering.StringLeqExactly | src/stargraph/graph/hash.py:161-173 | strings are ordered by the first character in which they differ, a prefix first |
| ArtifactStore.StepKeepsInv | src/stargraph/artifacts/fs.py:124-254 | every step of a put or delete, an abort and a crash keep the store's invariant |
| ArtifactStore.RunsKeepInv | src/stargraph/artifacts/fs.py:124-254 | the invariant holds after any interleaving of puts and deletes with a crash between any two steps |
| ArtifactStore.VisibleContentHashes | src/stargraph/artifacts/fs.py:140-161 | a content file visible under an artifact id holds bytes that were put and that hash to the id |
| ArtifactStore.ListedExactly | src/stargraph/artifacts/fs.py:200-238 | exactly the entries with content and sidecar under an id are listed; no temporary, orphan or sidecar ever is |
| ArtifactStore.ListIsHonest | src/stargraph/artifacts/fs.py:200-238 | unless two put contents share a truncated digest, each listed reference records the hash of its stored bytes and its run |
| ArtifactStore.CollisionShows | src/stargraph/artifacts/fs.py:140-161 | two contents sharing an id but not a digest, put in one run, end in a dishonest listing |
| ArtifactStore.ListingIsHonestExactly | src/stargraph/artifacts/fs.py:140-238 | for any set of contents: all listings reachable by putting only these are honest if and only if no two of them share an id but not a digest |
| ArtifactStore.PutRun | src/stargraph/artifacts/fs.py:140-161 | an uninterrupted put, step by step, ends with both files in place and nothing in flight |
| ArtifactRuns.PutLeaves | src/stargraph/artifacts/fs.py:140-161 | the put leaves the bytes under the first 32 characters of their digest, listed with every field the caller gave, its run and the whole digest; no temporary is left and no other file touched |
| ArtifactRuns.CutAnywhere | src/stargraph/artifacts/fs.py:301-314 | for every length a crash or an abort can leave that much of the content, in the temporary and nowhere else |
| ArtifactRuns.DeleteRun | src/stargraph/artifacts/fs.py:240-261 | a delete removes content and sidecar; cut in between it leaves the sidecar alone |
| ArtifactRuns.TogetherExactly | src/stargraph/artifacts/fs.py:140-161 | two puts can be in flight together if and only if they differ in run or id |
| ArtifactStore.FinishedPutIsSeen | src/stargraph/artifacts/fs.py:140-238 | a finished put reads back byte for byte and is listed with the caller's fields and the full hash |
| ArtifactStore.FilesystemArtifactStore.AtomicWriteBytes | src/stargraph/artifacts/fs.py:301-314 | the target holds the payload and no temporary is left |
| ArtifactStore.FilesystemArtifactStore.Put | src/stargraph/artifacts/fs.py:124-180 | the files after a put, and the reference it returns |
| ArtifactStore.FilesystemArtifactStore.Get | src/stargraph/artifacts/fs.py:182-198 | some file of that name in some run, or not found when there is none |
| ArtifactStore.FilesystemArtifactStore.ListRun | src/stargraph/artifacts/fs.py:200-238 | exactly the references the run's entries give, in name order, whatever order the directory lists them |
| ArtifactStore.FilesystemArtifactStore.Delete | src/stargraph/artifacts/fs.py:240-261 | removes the content under the id in every run with its sidecar, nothing else; not found when there is none |
| AuditLog.JSONLAuditSink.constructor | src/stargraph/audit/jsonl.py:115-128 | opening keeps what is on disk and starts the byte counter at the active file's size |
| AuditLog.JSONLAuditSink.Rotate | src/stargraph/audit/jsonl.py:141-152 | the search for a free suffix ends at the smallest one; the active file moves there |
| AuditLog.JSONLAuditSink.Write | src/stargraph/audit/jsonl.py:169-176 | appends the line, rotating first exactly when it would pass the ceiling; the counter stays the active file's size |
| AuditLog.RotatesExactly | src/stargraph/audit/jsonl.py:169-176 | the active file is set aside under the next suffix if and only if the line would take it over the ceiling; the line goes last |
| AuditLog.SetAsideUnder | src/stargraph/audit/jsonl.py:143-176 | the suffix is the smallest one free, whatever siblings there are |
| AuditLog.WritesConserve | src/stargraph/audit/jsonl.py:141-176 | from contiguous siblings, any writes leave siblings then active file equal to the old content and all lines in write order |
| AuditLog.WritesBound | src/stargraph/audit/jsonl.py:169-176 | every file the sink begins is within the ceiling or holds exactly one line; the files it found keep their bytes |
| AuditLog.CeilingKeptExactly | src/stargraph/audit/jsonl.py:169-176 | from an empty active file every file begun keeps within the ceiling if and only if every line does |
| AuditLog.ZeroNeverRotates | src/stargraph/audit/jsonl.py:169-176 | a ceiling of zero disables rotation |
| AuditLog.EmptyFileExactly | src/stargraph/audit/jsonl.py:169-176 | an empty file is set aside if and only if the active file is empty and the line alone is over the ceiling |
| AuditLog.OrderKeptExactly | src/stargraph/audit/jsonl.py:141-152 | suffix order stays write order for all contents if and only if the suffixes in use have no gap |
| AuditChain.Seal | demos/soc-triage/graph/nodes.py:397-413 | the loop writes the chained trail and returns its head |
| AuditChain.SealedRechecks | demos/soc-triage/graph/nodes.py:397-413 | what is sealed re-checks line by line and carries every event in order, with its run, index and time |
| AuditChain.RechecksExactly | demos/soc-triage/graph/nodes.py:397-413 | a trail re-checks if and only if each digest is that of link and canonical record, each link is the digest before it, and the first is 64 zeros |
| AuditChain.SameHead | demos/soc-triage/graph/nodes.py:397-413 | the main result: two trails that re-check with one head are equal, or two of their records collide, or one hashes to the genesis value |
| AuditChain.AlteredTrailCollides | demos/soc-triage/graph/nodes.py:397-413 | showing another trail under the same head takes such records |
| AuditChain.HeadBindsExactly | demos/soc-triage/graph/nodes.py:397-413 | for any finite set of records, the head determines a trail over them if and only if no two linkable ones collide and none hashes to the genesis value |
| AuditChain.FirstRecordBindsExactly | demos/soc-triage/graph/nodes.py:397-413 | for one first record: if and only if its digest is not the genesis value |
| PackTree.BytesRoundTrip | src/stargraph/bosun/signing.py:132-132 | the 8-byte big-endian length decodes to the length below 2^64 |
| PackTree.FrameLayout | src/stargraph/bosun/signing.py:130-133 | where everything stands in the bytes of one file: path, zero byte, length with the most significant byte first, content |
| PackTree.ParseInvertsStream | src/stargraph/bosun/signing.py:130-133 | the absorbed bytes parse back to the exact list of paths and contents |
| PackTree.StreamInvertsParse | src/stargraph/bosun/signing.py:130-133 | only absorbed streams parse: writing what was parsed gives the bytes back |
| PackTree.StreamsApart | src/stargraph/bosun/signing.py:130-133 | the framing is injective: equal bytes absorbed if and only if equal lists of entries |
| PackTree.TreeStream | src/stargraph/bosun/signing.py:110-134 | the walk absorbs the stream of the signed files in sorted order, whatever order the directory is walked |
| PackTree.StreamAttests | src/stargraph/bosun/signing.py:110-134 | the stream parses to exactly the files of the tree that do not end in `.pub.pem` and are not `manifest.jwt`, with their contents, each once, in path order |
| PackTree.StreamIdentifiesTree | src/stargraph/bosun/signing.py:110-134 | two trees absorb the same bytes if and only if their signed files are equal |
| PackTree.TamperingShowsExactly | src/stargraph/bosun/signing.py:110-134 | adding, removing or changing any other file changes the stream, and nothing else does |
| PackTree.ArtifactsDoNotCount | src/stargraph/bosun/signing.py:125-128 | writing `manifest.jwt` or a `.pub.pem` file leaves the stream unchanged |
| TrustStore.FilesystemTrustStore.Pin | src/stargraph/bosun/signing.py:253-284 | the first fingerprint of a key id is recorded; a different one later is refused and changes nothing |
| TrustStore.VerifyPack | src/stargraph/bosun/signing.py:391-470 | the verdict and the records after one verification, branch by branch |
| TrustStore.VerifiedExactly | src/stargraph/bosun/signing.py:391-470 | verified if and only if the header is acceptable and the token decodes under the trusted key to this tree and key id |
| TrustStore.MandatoryExactly | src/stargraph/bosun/signing.py:391-470 | a bad header and a failed pin raise either way; every other failure is reported when the check is optional and raised for the same reason when it is mandatory; what is recorded does not depend on it |
| TrustStore.HeaderExactly | src/stargraph/bosun/signing.py:391-430 | a header is acceptable if and only if it parses, embeds no key, says EdDSA and names a key |
| TrustStore.RecordsAreWriteOnce | src/stargraph/bosun/signing.py:253-284 | a verification never changes a record, and adds one exactly when it first sees a key |
| TrustStore.RecordsSurvive | src/stargraph/bosun/signing.py:253-284 | over any sequence of verifications a record, once made, stays |
| TrustStore.OneKeyPerId | src/stargraph/bosun/signing.py:253-284 | any two successes under one key id, however far apart, used keys with one fingerprint |
| StableIds.SlugShape | src/stargraph/ir/_ids.py:61-64 | a slug is empty or starts with a lower-case letter or digit, continues with those and dashes, and has at most 24 characters |
| StableIds.SlugSpells | src/stargraph/ir/_ids.py:61-64 | a slug spells the text's letters and digits, lower-cased, in order, and only the length limit drops any |
| Slugs.SlugIsWords | src/stargraph/ir/_ids.py:61-64 | a slug is the words of the text, its longest runs of letters and figures, in lower case with a dash between any two, cut at 24 characters |
| StableIds.FreeSuffixIsNear | src/stargraph/ir/_ids.py:85-89 | the candidate loop cannot outlast the ids already seen |
| StableIds.ChooseId | src/stargraph/ir/_ids.py:83-91 | the candidate loop ends with the base, or the base with the smallest free suffix from 2 |
| StableIds.AutogenIds | src/stargraph/ir/_ids.py:67-92 | the items with every missing id filled in |
| StableIds.IdsAreFresh | src/stargraph/ir/_ids.py:67-92 | explicit ids are kept, all are non-empty, and a generated one is none of the explicit or earlier ids |
| Slugs.GivenIdExactly | src/stargraph/ir/_ids.py:80-91 | a missing id becomes the slug of the name, or of the first value, if that is not in use, and else the slug, or `item`, with the smallest number from 2 that is free |
| StableIds.SharedIdsWereGiven | src/stargraph/ir/_ids.py:67-92 | two items end with one id if and only if both came with it |
| StableIds.OnlyIdsChange | src/stargraph/ir/_ids.py:76-92 | every other field of every item is as it was |
| StableIds.SuffixedAccepted | src/stargraph/ir/_ids.py:110-131 | a suffixed id passes the grammar for suffixes up to 103 digits, and for a full-length base only for those |
| Slugs.AcceptedExactly | src/stargraph/ir/_ids.py:41-137 | the grammar spelled out: at most 128 characters, a lower-case letter or figure first, then those, `_`, `-` and `.`, and perhaps a final newline |
| StableIds.GeneratedIdsAccepted | src/stargraph/ir/_ids.py:67-131 | every generated id passes the grammar for any list of fewer than 10^102 items |
| Matching.BuildPairs | demos/sentinel_dark_watch/graph/nodes.py:832-842 | the candidate pairs in loop order |
| Matching.CandidatesExactly | demos/sentinel_dark_watch/graph/nodes.py:832-842 | they are exactly the pairs of a detection and a report in its row of the distance matrix within the radius |
| Matching.Assign | demos/sentinel_dark_watch/graph/nodes.py:845-856 | each detection is marked with the report the greedy matching gives it |
| Matching.FlagUnmatched | demos/sentinel_dark_watch/graph/nodes.py:859-861 | unmatched detections become dark, the rest stay |
| Matching.Correlate | demos/sentinel_dark_watch/graph/nodes.py:827-861 | `dark_vessel` is false exactly on matched detections, which carry their report |
| Matching.MatchingIsGreedy | demos/sentinel_dark_watch/graph/nodes.py:844-849 | one-to-one, within radius, and every unmatched pair in radius is blocked by a matched pair sharing an endpoint at no greater distance |
| Matching.TiesAreByPosition | demos/sentinel_dark_watch/graph/nodes.py:844-849 | among equal distances the pair listed first wins, by detection and then by report |
| Matching.AtLeastHalf | demos/sentinel_dark_watch/graph/nodes.py:844-849 | at least half as many pairs as any one-to-one matching in radius |
| Suppression.Suppress | demos/sentinel_dark_watch/graph/nodes.py:532-552 | returns the selected detections, in order of confidence, and these deduplicate the input |
| Suppression.KeptOfTwo | demos/sentinel_dark_watch/graph/nodes.py:532-552 | of two detections the less confident one is dropped if and only if both have boxes and the overlap is at least 0.5 |
| Suppression.Visit | demos/sentinel_dark_watch/graph/nodes.py:537-552 | the nested loop over the sorted detections keeps exactly the selected ones, in order |
| Suppression.SuppressionDeduplicates | demos/sentinel_dark_watch/graph/nodes.py:532-552 | in the returned list no earlier box overlaps a later one, confidence never rises, nothing is kept more often than given, and whatever is dropped is overlapped by a kept one of at least its confidence |
| Suppression.DroppedIsCovered | demos/sentinel_dark_watch/graph/nodes.py:538-552 | the last of these, for detections that occur several times |
| Suppression.SelectionIsUnique | demos/sentinel_dark_watch/graph/nodes.py:538-552 | those two properties determine the selection |
| Clipping.EmitVertices | demos/sentinel_dark_watch/graph/nodes.py:471-489 | the vertices one edge of the subject contributes to a pass |
| Clipping.PolygonIntersectionArea | demos/sentinel_dark_watch/graph/nodes.py:456-493 | the nested loop computes the area of the polygon left after all passes |
| Clipping.ShoelaceArea | demos/sentinel_dark_watch/graph/nodes.py:404-414 | the loop computes the shoelace area of a closed ring |
| Clipping.ClipContained | demos/sentinel_dark_watch/graph/nodes.py:456-489 | after all passes every affine function non-negative on the subject is so on the result, and every vertex is on the inner side of every clip edge |
| Clipping.VertexSurvivesExactly | demos/sentinel_dark_watch/graph/nodes.py:456-489 | a subject vertex is in the result if and only if it is on the inner side of every clip edge |
| Clipping.CrossingIsSharedPoint | demos/sentinel_dark_watch/graph/nodes.py:417-433 | an intersection is returned if and only if the segments are not near-parallel and share a point, and then it is that point |
| Clipping.CrossingIsEmitted | demos/sentinel_dark_watch/graph/nodes.py:480-489 | wherever the subject crosses a clip edge inside that edge's segment, the crossing is in the result |
| Clipping.ClipFollowsBoundary | demos/sentinel_dark_watch/graph/nodes.py:471-489 | a pass emits points of the subject's boundary in the order they lie along it |
| Clipping.AreaShift | demos/sentinel_dark_watch/graph/nodes.py:404-414 | the area of a closed ring does not depend on where the ring lies |
| LineClipping.CutExactly | demos/sentinel_dark_watch/graph/nodes.py:417-433 | an edge that changes sides is cut by the whole line in exactly one point of it |
| LineClipping.PassIsLineClipExactly | demos/sentinel_dark_watch/graph/nodes.py:467-489 | one pass clips by the whole line if and only if every edge that changes sides has its crossing found |
| LineClipping.PassesAreLineClipsExactly | demos/sentinel_dark_watch/graph/nodes.py:456-489 | after every pass the polygon is the line-clipped one if and only if no pass misses a crossing |
| LineClipping.StripsMissNothing | demos/sentinel_dark_watch/graph/nodes.py:456-489 | a condition on the two input polygons: with the subject between the perpendiculars at the ends of every clip edge, no pass misses a crossing except of a nearly parallel edge |
| LineClipping.InnerSubjectIsKept | demos/sentinel_dark_watch/graph/nodes.py:456-489 | another: a subject on the inner side of every clip edge comes out of every pass as it went in |
| Enclosing.FewLeftAreLost | demos/sentinel_dark_watch/graph/nodes.py:456-493 | once a pass leaves at most two vertices the area is zero, whatever later passes add |
| Enclosing.FewInnerAreLost | demos/sentinel_dark_watch/graph/nodes.py:456-493 | any subject, any clip polygon: no edge crosses the first clip edge and at most two vertices lie on its inner side, then nothing of the intersection is left |
| Enclosing.EnclosingTriangleIsLost | demos/sentinel_dark_watch/graph/nodes.py:456-493 | every triangle around any clip polygon, either way round, is clipped away |
| Enclosing.EnclosingRectangleIsLost | demos/sentinel_dark_watch/graph/nodes.py:456-493 | so is every axis-parallel rectangle around the unit square, from any corner, either way round |
| Enclosing.EnclosingDiamondKeepsArea | demos/sentinel_dark_watch/graph/nodes.py:456-493 | a square that stands on a corner around the unit square keeps at least half of it, so enclosing alone does not decide |
| EnclosingBoxes.BoxIsKeptExactly | demos/sentinel_dark_watch/graph/nodes.py:456-493 | of a convex box around the unit square with a corner beyond each side, counter-clockwise from the one below, some area is left if and only if the diagonal from left to right and the segment from it to the upper corner are found to cross the right and top edges |
| EnclosingBoxes.TiltedIsKeptExactly | demos/sentinel_dark_watch/graph/nodes.py:456-493 | the same if and only if for every tilted rectangle around the unit square |
| ConvexArea.PassShrinks | demos/sentinel_dark_watch/graph/nodes.py:467-489 | one pass leaves a convex ring convex, of the same sense and no larger, also when crossings are dropped |
| ConvexArea.ClippingShrinks | demos/sentinel_dark_watch/graph/nodes.py:456-489 | so do all passes, for any clip polygon |
| ConvexArea.IntersectionWithin | demos/sentinel_dark_watch/graph/nodes.py:456-493 | for a convex subject the intersection area is between zero and the subject's area |
| Containment.ContainedIsSmaller | demos/sentinel_dark_watch/graph/nodes.py:404-414 | the shoelace area is monotone: a convex ring inside a convex ring with area encloses no more |
| Containment.IntersectionWithinClip | demos/sentinel_dark_watch/graph/nodes.py:456-493 | for convex subject and clip polygon, either way round, the intersection area is at most the clip polygon's |
| Containment.PointClipsNothing | demos/sentinel_dark_watch/graph/nodes.py:456-493 | the clip polygon must have an area: a single point leaves the whole subject |
| Containment.OverlapIsAShare | demos/sentinel_dark_watch/graph/nodes.py:496-509 | the overlap of two convex boxes is at least 0 and at most 1 |
| ConvexArea.OverlapWithin | demos/sentinel_dark_watch/graph/nodes.py:496-509 | the overlap of a convex box with any other is not negative and at most the quotient of their areas |
| Overlaps.OverlapExactly | demos/sentinel_dark_watch/graph/nodes.py:496-509 | for convex boxes with areas the overlap times the union is the intersection, and without areas it is 0 |
| Overlaps.InnerAreaIsKept | demos/sentinel_dark_watch/graph/nodes.py:456-493 | a polygon inside all clip edges has itself for the intersection |
| Overlaps.ClockwiseIsNeverSuppressed | demos/sentinel_dark_watch/graph/nodes.py:496-552 | a detection whose corners go round clockwise is never dropped, whatever box was kept before it |
| Overlaps.SelfOverlapExactly | demos/sentinel_dark_watch/graph/nodes.py:496-509 | a convex box with an area overlaps itself by 1 if its corners go round counter-clockwise, and by 0 otherwise |
| Overlaps.CopiesDeduplicatedExactly | demos/sentinel_dark_watch/graph/nodes.py:532-552 | of two copies of such a box one is kept if and only if they go round counter-clockwise |
| Overlaps.ShiftedOverlap | demos/sentinel_dark_watch/graph/nodes.py:456-509 | an upright box and its copy shifted by s along its side w overlap by (w-s)/(w+s) |
| Overlaps.ShiftedCopySuppressedExactly | demos/sentinel_dark_watch/graph/nodes.py:532-552 | so the copy is dropped if and only if it is shifted by at most a third of the side |
| ConvexArea.SuppressedIsNotLarge | demos/sentinel_dark_watch/graph/nodes.py:538-552 | a kept convex box suppresses nothing of more than twice its area |
| Patches.ComputePatchOrigins | demos/sentinel_dark_watch/scripts/prepare_dataset.py:80-94 | every pair of a row origin and a column origin, in strict row-major order, hence without repeats |
| Patches.StrideExactly | demos/sentinel_dark_watch/scripts/prepare_dataset.py:84-84 | the stride is the whole number of pixels the overlap leaves of the patch, and at least one |
| Patches.OriginsExactly | demos/sentinel_dark_watch/scripts/prepare_dataset.py:86-93 | an axis origin is a multiple of the stride where a whole patch fits, or the last place for one, or 0 where none fits |
| Patches.OriginInside | demos/sentinel_dark_watch/scripts/prepare_dataset.py:85-93 | each origin keeps the patch inside the scene or is 0 on that axis |
| Patches.AxisCoveredExactly | demos/sentinel_dark_watch/scripts/prepare_dataset.py:84-94 | every pixel of every axis is covered if and only if the stride is no wider than the patch |
| Patches.ScenesCoveredExactly | demos/sentinel_dark_watch/scripts/prepare_dataset.py:80-94 | all pixels of all scenes are covered if and only if the patch size is positive and the overlap above minus one pixel |
| Patches.LabelsInPatch | demos/sentinel_dark_watch/scripts/prepare_dataset.py:120-129 | the labels of a patch, in order, with local coordinates |
| Patches.InsideExactly | demos/sentinel_dark_watch/scripts/prepare_dataset.py:120-129 | a local label is there if and only if its label is within the patch |
| Patches.LocalExactly | demos/sentinel_dark_watch/scripts/prepare_dataset.py:120-129 | a local label is there if and only if its label is less than a patch from the origin on both axes, by its coordinates |
| Patches.InsideInOrder | demos/sentinel_dark_watch/scripts/prepare_dataset.py:120-129 | the labels of a patch keep their order |
| Patches.EveryLabelAppears | demos/sentinel_dark_watch/scripts/prepare_dataset.py:80-129 | every label inside the scene appears in some patch at local coordinates in range |
| Patches.TiledFullyExactly | demos/sentinel_dark_watch/graph/nodes.py:130-147 | the detector's tiling covers an axis if and only if it fits in one patch or the stride divides the rest |
| Layering.IndexEdges | demos/graph_viewer/viewer/yaml-parser.js:148-158 | the nodes with incoming edges and the successors of each source, unless a source is an inherited name |
| Layering.RootExactly | demos/graph_viewer/viewer/yaml-parser.js:148-170 | a root is a node no edge leads to, or one of the two terminals whatever leads to it |
| Layering.Expand | demos/graph_viewer/viewer/yaml-parser.js:174-180 | the next frontier: exactly the unvisited declared successors of the layer, each once |
| Layering.FallbackPhases | demos/graph_viewer/viewer/yaml-parser.js:145-190 | given phases as they are, one group when there is no root, else the breadth-first layers and the unreachable rest; fails exactly on inherited names |
| Layering.Layers | demos/graph_viewer/viewer/yaml-parser.js:165-189 | the loop ends, layer k holds exactly the nodes at distance k-1 from the roots, "Ungrouped" exactly the unreachable ones |
| Layering.ReachInIsPath | demos/graph_viewer/viewer/yaml-parser.js:174-180 | distance is the length of a shortest path of declared edges |
| Layering.EveryNodeInOneGroup | demos/graph_viewer/viewer/yaml-parser.js:165-189 | every node is in exactly one group |

## Left out

- Engine: parallel blocks, interrupts and retries inside the loop, event bus, tool and capability checks; a tick and its checkpoint are one atomic step, and a node that would pause for a human is a boundary.
- Resuming past a human pause with an answer: `resume_to` and `patch` are modelled for one launch, the theorems over many processes are about plain resumes.
- Node functions and routers are deterministic functions of the user state; patches to the reserved `sg_*` fields are not modelled.
- Actions: assert, retract and retry are one kind, because they have no routing meaning; the payloads of interrupts and parallel blocks are left out.
- Routing: the CLIPS engine beyond equality matching of conjunctive patterns and asserting facts, raw `when` text in it, pattern bindings, slot types, and provenance slots. Whether CLIPS rejects a rule whose node is a numeral or never fires it is not distinguished. A routes table whose verdict keys print alike (`1` and `"1"`) is not covered.
- Documents: other stages of validation (types, packs, tools, stores, queries, versions); the rows are about nodes and rules.
- RuleText: values that are not strings appear as `str()` prints them; numbers are recognised in decimal notation, with sign, fraction and exponent.
- Checkpoints: state columns, migrations, connection pools, locks, run summaries; a write is one atomic step.
- StructuralHash: the RFC 8785 encoder and SHA-256 (the theorems are about the value that is encoded), schema generation (a schema per node is a parameter), and the insertion order of a dictionary, which `str()` of a dictionary inside a `nodes` list would show. `str()` is an arbitrary function, the identity on strings where stated; floats are finite.
- ArtifactStore: power loss, directory creation, glob characters in ids, `fips_mode`, input/output errors; a write may be cut anywhere and a put aborted. Fetching or deleting by the name of a temporary file is outside the API's ids.
- AuditLog: JSON encoding and signing of events; an event is its bytes. The chained sink in the same file is not modelled.
- AuditChain: SHA-256 and canonical JSON are functions, the first with a fixed output length, the second distinguishing records; the written file's line format is not modelled.
- TrustStore: Ed25519, JWT decoding and fingerprints are functions; unreadable or corrupt record files and sidecars are left out.
- PackTree: the digest itself; the theorems are about the bytes absorbed.
- StableIds: values that are not strings, UUIDs and fact hashes.
- Clipping: coordinates are reals, not floats. The area is bounded by both polygons' and not claimed to be the true intersection's. The exact condition for enclosing boxes is about the unit square and starts at the corner below, counter-clockwise; a box started elsewhere is clipped from another vertex order.
- Matching: haversine is an arbitrary distance, database access and its failure branches are left out.
- Suppression: the overlap of two boxes is an arbitrary function, of which `ConvexArea.RotatedIou` is the one in use.
- Patches: raster reading and label files.
- Layering: the set of inherited property names is a parameter; the order of nodes inside a layer is not stated.
- Small table-like code (version checks, risk bands, governance gates, trigger translation), servers, command lines, user interfaces and model clients.
