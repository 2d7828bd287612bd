# Hephaestus build loop, modelled in Dafny

Hephaestus is a self-improving code generator. It is built from small
*nodes*. Each node has three phases:

- `prep` reads the shared store.
- `exec` does the work, with retries and a fallback.
- `post` writes results back and returns an *action label*.

A *flow* walks from node to node, following each node's successor for the
label it returned. The forge loop wires these nodes into a cycle:

1. The goal proposer picks a task and a directive.
2. The mutation engine produces variants of them.
3. Flow builders generate code for each variant.
4. The test harness runs the code.
5. The scorer rates it.
6. The registry records builds, their lineage and their scores.

This project models that core as pure functions and a few methods. It
proves what each operation promises: the shape of a node run, the walk of
a flow, the wiring of the forge graph, the registry's queries and pruning,
the scoring formula, the harness verdict, the mutation operators and the
best-of-n selection.

Everything the program cannot decide itself is an input:

- the language model;
- running the generated code;
- the clock, uuids and the random stream;
- the file system;
- `math.tanh`.

The random stream is a function from positions to reals in [0, 1). Each
draw advances the position, so a contract can say which draws an
operation uses.

Three consequences of the code as written are stated as lemmas, and the
model keeps the code's behaviour:

- Code that the harness runs always has an error entry, the empty line
  split from standard error. So its execution score is 0
  (`Scoring.ExecutedCodeScoresNoExecution`).
- In the forge loop, the shared "registry" is the registry object, not a
  dictionary. So the goal proposer always cold-starts
  (`GoalProposal.ObjectRegistryColdStarts`).
- The best-of-n builder calls a `mutate` method that the mutation engine
  does not define. So with the default engine no variant is ever built
  (`BestOfN.DefaultMutationEngineFails`).

One module per source component, with shared vocabulary alongside:

- `base.dfy`: options, labels, exceptions, Python slices.
- `text.dfy`: `strip`, `split`, `join`, `lower`, `in`.
- `sorting.dfy`: Python's stable `sorted`.
- `random.dfy`: `random()`, `choice`, `randint`, `shuffle`.
- `directive.dfy`: the directive dictionary.
- `node.dfy`: `Node.run`.
- `node_run.dfy`: what one `Node.run` does, event by event (module `NodeRuns`).
- `successors.dfy`: the `>>` and `-` wiring operators (module `Successors`).
- `flow.dfy`: `Flow`, `BatchNode` and `BatchFlow`.
- `registry.dfy`: the build registry.
- `best_of_n.dfy`: the best-of-n builder.
- `goal_proposer.dfy`: the goal proposer.
- `mutation.dfy`: the mutation engine.
- `harness.dfy`: the test harness.
- `scorer.dfy`: the scorer.
- `flow_builder.dfy`: the flow builder node and the directive loader.
- `legacy_builder.dfy`: the older flow builder node.
- `forge_loop.dfy`: the forge loop.

## Model

| member | source | states |
|---|---|---|
| Nodes.FirstStopFrom | core/base_node.py:126-133 | The retry loop stops at the first attempt from `k` on that does not raise an `Exception`: one that returns, or one that raises a `BaseException` such as `KeyboardInterrupt` or `SystemExit`. Every attempt before it raised an `Exception`, and `None` means every attempt below the bound did. |
| Nodes.Run | core/base_node.py:109-146 | The retry loop computes the run described from the first attempt that does not raise an `Exception`. A prep that raises ends the run with that exception before any attempt. If the attempt returns: prep, attempts `0..k` with waits between them, then post. If it raises anything else, the run raises that exception at once, without fallback or post. If there is none: every attempt, then the fallback after the last failure, then post. Whatever post raises propagates. |
| NodeRuns.PrepRunsFirstAndOnce | core/base_node.py:122-123 | prep is the first event of every run and never happens again. A prep that raises is the whole run: nothing else happens, post receives nothing, and the run raises prep's exception. |
| NodeRuns.PostOnceUnlessRaised | core/base_node.py:122-146 | post runs at most once, and only as the last event. It runs exactly when prep returned and either retries are not allowed, or the first attempt that is not retried returned, or every attempt raised an `Exception` and the fallback recovered. When it runs, the run ends with its label (`None` read as "default") or with what it raised; when it does not, the run raises. |
| NodeRuns.AttemptsShape | core/base_node.py:126-143 | The attempts are numbered 0, 1, …, n-1 in order, and only attempts and waits occur among them. The first attempt is 0 and the last is n-1. No wait happens when `wait <= 0`, and each wait sits between two attempts. |
| NodeRuns.ExecsOfRun | core/base_node.py:126-133 | exec is called with attempt numbers 0, 1, … up to the first success, or `max_retries` times when none succeeds. |
| NodeRuns.AttemptsStopAtFirstSuccess | core/base_node.py:122-130 | At most `max_retries` attempts run, numbered from 0. When prep returned, after the first attempt that does not raise an `Exception`, no more attempts and no fallback happen. If it returned, post receives its value; if it raised, the run raises that exception and post never runs. |
| NodeRuns.FallbackAfterLastFailure | core/base_node.py:133-139 | When prep returns and every attempt raises an `Exception`, all `max_retries` attempts run. The fallback is then called exactly once, with the last attempt's exception. When it re-raises, the run raises that exception and post never runs. |
| NodeRuns.UncaughtEndsRun | core/base_node.py:126-130 | After a prep that returns, an attempt that raises something `except Exception` does not catch (a `KeyboardInterrupt`, a `SystemExit`) ends the run with that exception. No further attempt runs, and neither the fallback nor post is called. |
| NodeRuns.WaitOnlyBetweenAttempts | core/base_node.py:140-143 | A wait happens only between two attempts, never after the last one, and never when `wait <= 0`. |
| NodeRuns.NoRetriesNoExec | core/base_node.py:122-146 | With `max_retries <= 0`, exec is never called and post receives `None`. When prep returns, the run ends with what post returns or raises. |
| Successors.WireOn | core/base_node.py:198-209 | `a - label >> b` sets `a`'s successor for that label to `b`. It keeps `a`'s other labels and leaves every other node unchanged. |
| Successors.RewireOverwrites | core/base_node.py:208-208 | Wiring the same label twice keeps only the second target. |
| Successors.ChainWiresConsecutive | core/base_node.py:148-162 | In a chain `n0 >> n1 >> … >> nk` of distinct nodes, each node's default successor is the next node, because `>>` returns its right operand. Nodes outside the chain are untouched. |
| Flows.WalkFrom | core/flow.py:65-98 | The walk visits at most `fuel` nodes, starting with `current`. It ends in one of three ways: normally, on an action the last node has no successor for; by a raise, which the last node produced; or unfinished when the fuel runs out. |
| Flows.WalkSteps | core/flow.py:79-98 | Each node of the walk returned the recorded action at its step, and each node after the first is the successor that the previous action selects. |
| Flows.RunFlow | core/flow.py:46-105 | A walk that ends normally makes the flow end with its post's label for the last action (`None` read as "default") or with what that post raises. A node's exception propagates out of the flow. |
| Flows.FlowRunShape | core/flow.py:62-102 | The trace is the flow's prep, then the walk's nodes in order starting at `start`, then the flow's post, which comes only when the walk ended normally. |
| Flows.TraceShape | core/flow.py:62-102 | The flow's prep comes once and first, then one event per node in order; post comes once and last exactly when there is a last action. |
| Flows.SelfLoopNeverEnds | core/flow.py:91-98 | Revisiting a node only warns: a node whose action leads back to itself keeps the walk going until the fuel runs out. |
| Flows.AllMappedNeverEnds | core/flow.py:85-87 | If every action any node returns has a successor, the walk never ends normally. It can only raise or run on. |
| Flows.RunBatch | core/flow.py:163-201 | The loop computes the per-item reference result. When no item raises, post receives the list of item results and the batch ends with post's label or with what post raises; otherwise the first exception propagates. |
| Flows.BatchStoppedStays | core/flow.py:191-193 | Once an item's fallback raises, later items never run, and the batch ends with that exception. |
| Flows.BatchOneResultPerItem | core/flow.py:177-190 | With at least one attempt allowed, items that raise only `Exception`s, and fallbacks that recover, there is exactly one result per item, in item order. Each result is what that item's run received. |
| Flows.BatchFlowFrom | core/flow.py:245-260 | Each completed pass records one action. When all passes complete, the parameters are the original ones. An exception stops the loop with that pass's merged parameters still set. |
| Flows.BatchPasses | core/flow.py:248-257 | Pass `j` runs with the original parameters overridden by parameter set `j`, and records the action that pass returned. |
| Flows.MergedKeys | core/flow.py:250-250 | A merged pass holds every key of the original parameters and of its set. Values from the set win over the original ones. |
| Flows.RunBatchFlow | core/flow.py:232-264 | A batch flow runs the flow once per parameter set, with merged parameters. It ends with an action only after every pass; then the original parameters are restored and post, given one action per set, decides the outcome, a label or what post raises. |
| Registry.Find | core/registry.py:251-254 | The scan finds a summary exactly when one carries the id, and the one it finds carries that id. |
| Registry.FindIsFirst | core/registry.py:251-254 | The scan returns the earliest summary carrying the id. |
| Registry.SummaryOf | core/registry.py:128-135 | The summary carries the new id and the clock reading. An entry's missing score, status and imports get the defaults 0.0, "unknown" and []. |
| Registry.AddChild | core/registry.py:141-144 | The child is appended to the parent's list, which is created if missing. Every other parent's list is unchanged. |
| Registry.RecordBuild | core/registry.py:105-150 | A failed write returns `None` and leaves the index unchanged. Otherwise the summary is appended, a truthy parent gains the child, and the new id is returned. |
| Registry.RecordFindsNewBuild | core/registry.py:105-150 | Recording a fresh build keeps ids unique and keeps earlier summaries unchanged. The returned id finds exactly the new summary, and every other id finds what it found before. |
| Registry.RecordLinksChild | core/registry.py:140-144 | The new build becomes the newest child of its truthy parent. Earlier children stay in order and other parents are untouched. |
| Registry.FilterBuilds | core/registry.py:194-204 | Exactly the builds matching every filter are kept, in index order. No filters keep them all. |
| Registry.GetBuilds | core/registry.py:191-211 | The result holds `min(limit, matches)` of the matching builds for a non-negative limit, and a negative limit drops that many from the end. Each build appears no more often than it matches. For a key the summaries carry, the result is sorted in the requested direction, and no match left out comes before one kept. |
| Registry.GetBuildsComplete | core/registry.py:191-211 | With a limit at least the number of matches, every matching build is returned, as often as it is stored. |
| Registry.GetBuildsUnsorted | core/registry.py:207-211 | Sorting on a key the summaries lack returns the matches in index order, cut to `limit`. |
| Registry.Collect | core/registry.py:228-232 | The depth-first walk lists only descendants of the parent, every direct child of the parent, and every child of each id it lists. |
| Registry.Descendants | core/registry.py:223-235 | An id without a lineage entry has no descendants. Otherwise every listed id descends from the build, every child is listed, and so is every child of a listed id. |
| Registry.DescendantsExact | core/registry.py:213-235 | The descendants are exactly the ids that a path down the lineage from the build reaches. |
| Registry.PathsBoundHeight | core/registry.py:228-232 | When every downward path from an id is shorter than `h`, the lineage below it has height at most `h`. |
| Registry.CollectLive | core/registry.py:228-232 | On a lineage of height at most `h` below the parent, a walk with at least `h` steps of fuel finishes. |
| Registry.DescendantsLive | core/registry.py:223-235 | When every downward path from the build is shorter than the fuel, as it is on an acyclic lineage, `get_descendants` returns a list. |
| Registry.Climb | core/registry.py:259-276 | The parent chain starts at the given truthy id and lists only truthy ids. A falsy id gives the empty chain. The last id is one the index does not hold, or a build with a falsy parent. |
| Registry.ClimbUnique | core/registry.py:259-276 | Any list that starts at the id, links each held build to its parent, and ends where the loop stops is the chain `Climb` finds. |
| Registry.ClimbLive | core/registry.py:259-276 | A parent chain of length at most the fuel that ends where the loop stops is exactly what `Climb` returns. So with enough fuel the walk always finishes. |
| Registry.Ancestry | core/registry.py:247-280 | An unknown build has no ancestry. A known build has ancestors exactly when its parent is truthy, and the newest one, listed last, is that parent. The oldest one, listed first, is unknown to the index or has a falsy parent. |
| Registry.AncestryLive | core/registry.py:247-280 | For a known build whose parent chain fits in the fuel, the ancestry is that chain, oldest first. |
| Registry.ClimbLinks | core/registry.py:259-276 | Consecutive ids of the chain are child and parent in the index. |
| Registry.AncestryLinks | core/registry.py:247-280 | In the oldest-first ancestry, each listed build (after the first) has the build listed just before it as its parent. |
| Registry.ClimbFuel | core/registry.py:261-276 | A chain that was found does not change when the walk is allowed more steps. |
| Registry.AncestryExcludesSelf | core/registry.py:247-280 | A finished ancestry never lists the build itself. A build that is its own ancestor makes the loop run for ever. |
| Registry.LineageDepth | core/registry.py:292-293 | The depth is the length of the ancestry, and an unknown build has depth 0. |
| Registry.RootHasDepthZero | core/registry.py:256-261 | A known build without a truthy parent has depth 0. |
| Registry.Similarity | core/registry.py:309-313 | A build that shares an import has a similarity in (0, 1]. |
| Registry.Matched | core/registry.py:306-313 | The matches are exactly the builds sharing an import, each paired with its similarity. |
| Registry.PositionsListed | core/registry.py:306-313 | The positions a filter keeps are exactly the indices it accepts, in increasing order, one entry per accepted index. |
| Registry.MatchedInIndexOrder | core/registry.py:305-314 | `matches` has one pair per build that shares an import, in index order, and each pair holds that build's similarity. |
| Registry.QueryByImports | core/registry.py:305-316 | The result holds exactly the builds sharing an import, in non-increasing similarity. |
| Registry.QueryByImportsStable | core/registry.py:316-316 | The sort is stable: for each similarity, the builds of the result with that similarity are exactly the index's sharing builds with it, in index order. |
| Registry.QueryByImportsCount | core/registry.py:305-316 | The result has one entry per build that shares an import. |
| Registry.TopBuilds | core/registry.py:328-329 | The result holds `min(n, count)` builds for a non-negative `n`; a negative `n` drops that many from the end, as `builds[:n]` does. They are in non-increasing score and drawn from the index, and each scores at least as much as every build left out. |
| Registry.TopBuildsStable | core/registry.py:328-329 | Ties at the cut go to the builds the index holds first: for each score, the builds kept with it are a prefix, in index order, of the index's builds with that score. |
| Registry.KeepIds | core/registry.py:362-365 | A falsy `keep_top_n` keeps nothing. Otherwise the kept ids are exactly the ids of the top builds. |
| Registry.ToPrune | core/registry.py:368-381 | The ids listed are exactly those of builds that are not kept and either score below `min_score` or are older than `older_than`. |
| Registry.ToPruneInIndexOrder | core/registry.py:368-381 | `to_prune` has one entry per prunable build, in index order: the ids of the builds at the prunable indices, in increasing order. |
| Registry.ToPruneCount | core/registry.py:368-381 | `to_prune` has exactly as many entries as there are prunable builds in the index, so `prune` returns that number. |
| Registry.KeepBuildsCount | core/registry.py:386-386 | When the removed ids are exactly those of the prunable builds, the kept builds and the listed ids together number exactly the builds: each build is kept or listed, and not both. |
| Registry.RemoveOne | core/registry.py:384-395 | One removal drops every summary with the id and keeps the others in their order. It deletes the id's lineage entry and removes the id from every children list, keeping the other children in their order. The build counter is unchanged. |
| Registry.RemoveAll | core/registry.py:384-395 | After the removal loop the summaries are the old ones without the removed ids, in their order. The lineage keys lose the removed ids, and each children list is the old one without them, in its order. |
| Registry.KeepBuildsMembers | core/registry.py:386-386 | The list comprehension keeps exactly the summaries whose id is not removed. |
| Registry.WithoutMembers | core/registry.py:393-395 | The rebuilt children list holds exactly the children that are not removed. |
| Registry.Prune | core/registry.py:357-406 | The count returned is the number of ids selected for pruning. The build counter is untouched. |
| Registry.PruneCountsRemoved | core/registry.py:384-406 | With distinct build ids, the count `prune` returns is the number of builds it removed. |
| Registry.PruneEffect | core/registry.py:357-406 | After pruning no pruned id remains anywhere. The surviving builds are exactly those whose id was not pruned, and kept top builds always survive. |
| Registry.PruneKeepsTop | core/registry.py:362-372 | With a truthy `keep_top_n`, the top builds always survive pruning. |
| Registry.PruneKeepsLookups | core/registry.py:384-395 | A build that is not pruned is found after pruning exactly as before, and its children list only loses the pruned ids. |
| BestOfN.Round | scoring/best_of_n.py:94-130 | A round yields a variant exactly when its mutation, build and test all return and the build wrote code. The variant carries the round's index, the mutated task and directive, the built code, and the class name and file path (default ""). It also carries the test results and the score (default 0.0). |
| BestOfN.RoundEscape | scoring/best_of_n.py:94-132 | A round lets an exception out of the loop only when it is not an `Exception`, and then the round yields no variant. A round that yields nothing and lets nothing out had a stage raise an `Exception` or a build write no code. |
| BestOfN.CollectedShape | scoring/best_of_n.py:94-133 | The collected variants come from distinct rounds below `n`, in round order, and each is what its round produced. |
| BestOfN.CollectedComplete | scoring/best_of_n.py:132-133 | A failing round skips only itself: every successful round is collected. |
| BestOfN.Exec | scoring/best_of_n.py:87-136 | When no round lets an exception out, the loop returns exactly the variants of the successful rounds `0..n-1`, in round order. Otherwise it raises the exception of the first round that lets one out, which is not an `Exception`. |
| BestOfN.ArgMax | scoring/best_of_n.py:156-156 | `max(..., key=score)` picks a variant that scores at least as much as every other, and more than every variant before it. |
| BestOfN.MinScore | scoring/best_of_n.py:171-180 | The minimum of the scores is attained and bounds every score from below. |
| BestOfN.Post | scoring/best_of_n.py:151-187 | No variants give "fail" and no selection. Otherwise the best variant and the feedback are stored: its index, its score, the count, and the score range. The action is "success" exactly when the best score exceeds the threshold (default 0.7). |
| BestOfN.WinnerIsFirstMaximum | scoring/best_of_n.py:156-168 | The winner scores at least as much as every variant, and ties go to the earliest round. |
| BestOfN.UnscoredVariantsFail | scoring/best_of_n.py:118-187 | When the test results carry no score, every variant scores 0.0, so a non-negative threshold is never beaten and the builder reports "fail". |
| BestOfN.DefaultMutationEngineFails | scoring/best_of_n.py:94-99 | With the default mutation engine, which has no `mutate` method, every round raises `AttributeError` at its first step. That is an `Exception`, so no round lets it out, nothing is collected, and the builder reports "fail" without a selection. |
| GoalProposal.Instantiate | engine/goal_proposer.py:97-106 | An instantiated goal starts with the chosen template's fixed prefix. |
| GoalProposal.RecentTasks | engine/goal_proposer.py:84-89 | A registry that is not a dictionary yields no tasks. Otherwise at most ten, and none exactly when none of the last ten builds carries a task. |
| GoalProposal.DrawFill | engine/goal_proposer.py:99-106 | Every slot of the template is filled from its own word list. |
| GoalProposal.VaryDirective | engine/goal_proposer.py:109-118 | The varied directive is the default one with, perhaps, a line budget of 150, 175 or 200, and perhaps one extra criterion from the list. |
| GoalProposal.Reinforce | engine/goal_proposer.py:143-152 | Reinforcing adds the directive and changes nothing else. |
| GoalProposal.Degrade | engine/goal_proposer.py:154-164 | Degrading removes the directive if present and changes nothing else. |
| GoalProposal.DegradeAfterReinforce | engine/goal_proposer.py:143-164 | Degrading undoes reinforcing a directive that was not already reinforced. |
| GoalProposal.Exec | engine/goal_proposer.py:72-121 | Success feedback with a last directive reinforces it. With no recent tasks, the cold-start task and the default directive are proposed without any draw. Otherwise the build task comes from a template and the directive is a variation. |
| GoalProposal.ObjectRegistryColdStarts | engine/goal_proposer.py:84-94 | In the forge loop the shared registry is an object, not a dictionary, so the proposer always cold-starts. |
| GoalProposal.Post | engine/goal_proposer.py:135-141 | The proposed task and directive are stored, and the action is "default". |
| Mutation.SwapWords | engine/mutation_engine.py:128-134 | Each word stays or is replaced by one of its listed synonyms. With entropy 0 nothing changes. |
| Mutation.InsertAt | engine/mutation_engine.py:137-140 | `insert` puts the word at the index and shifts the rest right by one. |
| Mutation.MutateWords | engine/mutation_engine.py:125-140 | The word-level mutation raises exactly when the task has fewer than two words and the adjective draw fires. With entropy 0 the words are returned unchanged. |
| Mutation.MutateWordsShape | engine/mutation_engine.py:125-140 | The result is the build task's words with synonyms swapped in. It may also hold one listed adjective, at an index other than the first and the last. |
| Mutation.MutateTask | engine/mutation_engine.py:125-144 | `mutate_task` raises exactly when the word-level mutation does. |
| Mutation.MutateTaskWords | engine/mutation_engine.py:142-142 | Splitting the joined task gives back the mutated word list. |
| Mutation.ZeroEntropyTask | engine/mutation_engine.py:125-144 | With entropy 0 the build task only has its whitespace normalised. |
| Mutation.Trunc | engine/mutation_engine.py:165-165 | `int(x)` truncates toward zero. |
| Mutation.Clamp | engine/mutation_engine.py:166-166 | `max(50, min(v, 200))` lies in [50, 200] and keeps values already inside. |
| Mutation.ScaleWithinFifth | engine/mutation_engine.py:162-166 | Before clamping, a non-negative budget moves by at most 20%, less the truncation. |
| Mutation.MutateConstraints | engine/mutation_engine.py:159-168 | Only `max_lines_per_file` may change, and only to a value in [50, 200]. The keys are kept, and with entropy 0 nothing changes. |
| Mutation.Missing | engine/mutation_engine.py:174-179 | The candidates are exactly the potential criteria not already present. |
| Mutation.MutateCriteria | engine/mutation_engine.py:171-186 | The criteria are a permutation of the old ones, possibly with one new potential criterion added. With entropy 0 they are unchanged. |
| Mutation.MutateDirective | engine/mutation_engine.py:156-188 | The mutated copy has the same keys and the same goal. Its line budget is unchanged or in [50, 200]. Its criteria are a permutation, with at most one new one. With entropy 0 it is the original. |
| Mutation.MutateRound | engine/mutation_engine.py:86-93 | One round keeps the directive's keys. It cannot fail on a task of two or more words, and with entropy 0 it yields the original pair with whitespace normalised. |
| Mutation.MutatedRounds | engine/mutation_engine.py:86-93 | `count` rounds yield `count` variants. They cannot fail with entropy 0 or a task of two or more words. |
| Mutation.RoundsKeepKeys | engine/mutation_engine.py:86-93 | Every round's directive has the keys of the original. |
| Mutation.ZeroEntropyRounds | engine/mutation_engine.py:86-93 | With entropy 0 every round yields the original pair, up to whitespace in the build task. |
| Mutation.Exec | engine/mutation_engine.py:70-96 | The original pair comes first, followed by `n_variants - 1` mutations. Every variant keeps the directive's keys. |
| Mutation.ZeroEntropyExec | engine/mutation_engine.py:70-96 | With entropy 0 every variant is the original pair, up to whitespace in the build task. |
| Harness.LineCount | scoring/test_harness/harness.py:92-93 | The line count is one more than the number of newlines in the stripped code. |
| Harness.AllAllowed | scoring/test_harness/harness.py:177-184 | The allowed-imports check passes exactly when every import is in the allowed list. |
| Harness.CheckConstraints | scoring/test_harness/harness.py:169-189 | Each check is present exactly when its constraint is. The line check passes when the count is within the maximum. The import check passes when every import is allowed. The output check passes when the expected text occurs in the output. |
| Harness.Exec | scoring/test_harness/harness.py:76-191 | A syntax error yields invalid syntax, no execution and one error. A `BaseException` that is not an `Exception`, raised by parsed code, escapes the harness. Otherwise parsed code records its imports and main block, counts as executed unless it raised, carries the constraint checks of the directive on its line count, imports and output, and always carries at least one error entry. |
| Harness.ErrorsEndWithStderr | scoring/test_harness/harness.py:127-166 | The error list ends with the lines of standard error, which join back to it. A caught exception adds two entries. |
| Harness.Post | scoring/test_harness/harness.py:206-233 | The verdict is "success" exactly when the syntax is valid, the code executed, and no error entry is non-empty. |
| Harness.SplitAllEmpty | scoring/test_harness/harness.py:155-155 | Every line of the split standard error is empty exactly when it holds nothing but newlines. |
| Harness.SuccessIff | scoring/test_harness/harness.py:76-233 | The harness completes and passes code exactly when it parses, runs without raising, and writes nothing but newlines to standard error. |
| Scoring.EffectiveWeights | scoring/scorer/scorer.py:46-54 | Empty weights mean the default weights. |
| Scoring.ConstraintScore | scoring/scorer/scorer.py:109-115 | The score times the number of checks present is the number passed, so it is the fraction passed. It is 1 exactly when all present checks passed (so with none), and 0 exactly when there are checks and none passed. |
| Scoring.LineScore | scoring/scorer/scorer.py:118-129 | The line score is 1 up to 50 lines, 0.9 up to 100, 0.7 up to 150, 0.5 up to 200 and 0 beyond. |
| Scoring.LineScoreMonotone | scoring/scorer/scorer.py:118-129 | Longer code never scores better on line count. |
| Scoring.Overlap | scoring/scorer/scorer.py:143-148 | The overlap times the number of imports is the number of imports found, so it is the fraction found. It is 1 exactly when every import is found and 0 exactly when none is. |
| Scoring.CountIn | scoring/scorer/scorer.py:147-147 | The count of imports found equals the number of imports exactly when all are found, and is 0 exactly when none is. |
| Scoring.Share | scoring/scorer/scorer.py:147-147 | `n / m` for a positive `m` lies in [0, 1]; times `m` it gives `n` back, and it is 1 exactly when `n == m` and 0 exactly when `n == 0`. |
| Scoring.ImportReuse | scoring/scorer/scorer.py:135-148 | Import reuse is 0 without a registry, without imports, or when no similar build has imports. Otherwise it is the overlap of the imports with the imports of the similar builds. |
| Scoring.LineageScore | scoring/scorer/scorer.py:151-157 | The lineage score is 0 without a registry or a truthy parent. Otherwise it is `tanh(depth / 5)` for the parent's lineage depth. Over exact reals this lies in [0, 1); in IEEE doubles `math.tanh` reaches 1.0 for depths of 96 and more. |
| Scoring.LineageScoreOrdersDepth | scoring/scorer/scorer.py:151-155 | Of two parents, the one with the deeper ancestry scores strictly higher on lineage, and equal depths score the same. |
| Scoring.LineageScoreZeroIff | scoring/scorer/scorer.py:151-155 | A truthy parent scores 0 on lineage exactly when it has no ancestors. |
| Scoring.ComponentScores | scoring/scorer/scorer.py:103-157 | Every component is in [0, 1]. Syntax, execution and main block are 1 exactly when the results say so. With results, the constraint score is the fraction of checks passed and the line score comes from the line-count table. Without results, both are 1. Import reuse and lineage are their own scores. |
| Scoring.TotalBounded | scoring/scorer/scorer.py:160-160 | With non-negative weights and components in [0, 1], the total lies between 0 and the sum of the weights. |
| Scoring.DefaultWeightsSumToOne | scoring/scorer/scorer.py:46-54 | The default weights are non-negative and sum to 1. |
| Scoring.DefaultTotalInUnit | scoring/scorer/scorer.py:160-160 | Under the default weights the total is in [0, 1]. |
| Scoring.Exec | scoring/scorer/scorer.py:95-165 | The individual scores are the component scores. The total is their weighted sum under the given weights, or the defaults when none are given, and under the defaults it is in [0, 1]. |
| Scoring.Post | scoring/scorer/scorer.py:179-193 | The score is stored, and the action is "success" exactly when the total reaches the threshold (default 0.7). |
| Scoring.ExecutedCodeScoresNoExecution | scoring/scorer/scorer.py:106-106 | Code the harness got to run, and that let nothing escape it, always carries an error entry, so its execution score is 0, never 1. |
| Scoring.ExecutedCodeTotalAtMost | scoring/scorer/scorer.py:103-160 | Under the default weights, code that ran without escaping the harness scores at most 0.75. |
| Scoring.SyntaxErrorFailsScoring | scoring/scorer/scorer.py:103-190 | A build with a syntax error scores below 0.4 under the default weights, and so fails at the default threshold. |
| FlowBuilding.Prep | engine/flow_builder.py:63-73 | The variant's task and directive replace the shared ones when the index is within the list, each only when present. An index past the front of the list raises. |
| FlowBuilding.ExtractClassName | engine/flow_builder.py:222-225 | A class name found is a non-empty run of word characters. |
| FlowBuilding.ExtractIsLeftmost | engine/flow_builder.py:222-225 | The search reports the name captured at the leftmost matching position, and finds nothing exactly when no position matches. |
| FlowBuilding.FindNodeThat | engine/flow_builder.py:241-241 | A match yields "Node" or "Flow" in any case, and a non-empty one-line description. |
| FlowBuilding.FindNodeThatIsLeftmost | engine/flow_builder.py:241-241 | `re.search` finds nothing exactly when no position starts a match, and otherwise reports the match at the leftmost position. |
| FlowBuilding.LetterWords | engine/flow_builder.py:251-251 | Each word found is a non-empty run of ASCII letters. |
| FlowBuilding.LetterWordsExact | engine/flow_builder.py:251-251 | Every word `findall` returns is a maximal run of ASCII letters in the description, and every maximal run of letters is among the words. |
| FlowBuilding.LetterWordsInOrder | engine/flow_builder.py:251-251 | `findall` lists the words left to right: each word is a whole run at its own start, and it ends before the next one begins. |
| FlowBuilding.WordTokensSpell | engine/flow_builder.py:251-251 | The tokens, concatenated, are the word characters of the text in order. |
| FlowBuilding.WordTokensAreRuns | engine/flow_builder.py:251-251 | Each token is a maximal run of word characters occurring in the text. |
| FlowBuilding.RunsAreWordTokens | engine/flow_builder.py:251-251 | Each maximal run of word characters in the text is one of the tokens. |
| FlowBuilding.WordTokensInOrder | engine/flow_builder.py:251-251 | The tokens are whole runs of word characters listed left to right, each ending before the next begins. |
| FlowBuilding.LettersInOrder | engine/flow_builder.py:251-251 | Keeping only the all-letter runs keeps them in their left-to-right order. |
| FlowBuilding.Capitalize | engine/flow_builder.py:253-253 | A capitalised word has an upper-case first letter and lower-case letters after it, and it is the same word up to case. |
| FlowBuilding.JoinCapitalizedLower | engine/flow_builder.py:253-253 | Joining capitalised words gives the words' concatenation up to case, starting with an upper-case letter. |
| FlowBuilding.PlaceholderName | engine/flow_builder.py:241-253 | Without a match, the name is "CustomNode" with the default description. With a match, the description is the captured text. When it has words, the name is the first three of them capitalised and joined, followed by the matched type; otherwise it is "CustomNode". |
| FlowBuilding.PlaceholderRoundTrip | engine/flow_builder.py:256-261 | The class name recovered from the placeholder code is the one it was generated with. |
| FlowBuilding.IsFlowTask | engine/flow_builder.py:109-111 | A task asks for a Flow exactly when "flow" occurs in its lower-cased text. |
| FlowBuilding.Exec | engine/flow_builder.py:113-165 | The model's code is used only when both a model and a template loader are present and generation returns. When generation raises an `Exception`, or either is missing, the placeholder is used. Anything else generation raises propagates out of `exec`. |
| FlowBuilding.Post | engine/flow_builder.py:179-209 | The code, its class name and the variant index (default 0) are stored. The file path is stored exactly when a truthy save path was written. The action is "default". |
| FlowBuilding.PlaceholderBuildNamesClass | engine/flow_builder.py:162-186 | Building without a model always records a class name: the one the placeholder was generated with. |
| FlowBuilding.LoadDirective | engine/flow_builder.py:344-362 | The loader stores the fixed directive (the expansion goal, 200 lines, registry logging, three criteria) and returns "default". |
| FlowBuilding.LoaderIgnoresTask | engine/flow_builder.py:346-357 | The loaded directive does not depend on the build task. |
| LegacyBuilder.Prep | engine/flow_builder_node.py:27-31 | A missing task becomes "No task specified", and a missing directive the empty one. |
| LegacyBuilder.LoadOrCreate | engine/flow_builder_node.py:57-65 | The registry in the store wins. Without one, the registry loaded from disk is used, and a failed load gives an empty registry. |
| LegacyBuilder.DigitsRoundTrip | engine/flow_builder_node.py:71-71 | Reading back the decimal digits of an id gives the id. |
| LegacyBuilder.JoinPath | engine/flow_builder_node.py:71-71 | `os.path.join` adds a separator only when the directory is non-empty and does not end in one. |
| LegacyBuilder.OutPathInjective | engine/flow_builder_node.py:67-71 | Two non-negative ids never share an output file. |
| LegacyBuilder.Post | engine/flow_builder_node.py:54-111 | The new id is one past the last one. The record is appended with the build task, the path, the time and the verdict, and the lineage is unchanged. The feedback names the id and the verdict. The action is "default" exactly when the line test passed, else "test_failed". |
| LegacyBuilder.PostAllKeeps | engine/flow_builder_node.py:67-89 | Successive posts keep the earlier records and advance the counter by one per build. |
| LegacyBuilder.PostAllNumbers | engine/flow_builder_node.py:67-89 | The records that successive posts append are numbered consecutively after the counter, one per build, in order. |
| LegacyBuilder.FreshRegistryCountsFromOne | engine/flow_builder_node.py:57-89 | From a fresh registry the ids are 1, 2, 3, …, so they are never reused. |
| Forge.MutationEngineWiredLast | engine/forge_loop.py:76-77 | Each `mutation_engine >> builder` overwrites the previous one, so the mutation engine's only successor is the last builder. |
| Forge.BuildersWired | engine/forge_loop.py:66-78 | Each of the `n_variants` builders leads to the test harness, and no other builder is wired. |
| Forge.HarnessWired | engine/forge_loop.py:80-84 | Once a builder is wired, the harness routes "success" to the scorer and "fail" to the proposer. |
| Forge.WiringShape | engine/forge_loop.py:66-91 | The successor map of every node after the constructor is fully specified, for any `n_variants`. |
| Forge.WiringClosed | engine/forge_loop.py:72-91 | With at least one builder, every label a reachable node can return has a reachable successor. |
| Forge.ForgeWalkNeverEnds | engine/forge_loop.py:72-91 | With at least one builder, one Flow run of the forge never completes normally: it ends only when a node raises. |
| Forge.NoVariantsEndAtMutation | engine/forge_loop.py:66-77 | With no builders the mutation engine has no successor, so a run ends right after it. |
| Forge.WithDefaults | engine/forge_loop.py:114-119 | `setdefault` adds the registry and the threshold only when absent and keeps every other entry. |
| Forge.LoopCounts | engine/forge_loop.py:125-141 | The counter grows by one per Flow run, including one that raised, and never passes a bound it started below. The bound stops the loop only when it exists and has been reached. |
| Forge.Handle | engine/forge_loop.py:149-152 | A `KeyboardInterrupt` or an `Exception` is caught and ends the loop. Anything else, such as `SystemExit`, propagates out of `run_forge`. |
| Forge.RaiseEndsLoop | engine/forge_loop.py:123-155 | The first Flow run to raise ends the loop after being counted, with the store that run left. A `KeyboardInterrupt` or an `Exception` is caught, and any other exception propagates. |
| Forge.RunForge | engine/forge_loop.py:103-155 | The loop computes the reference iteration. The counter never goes down, and without a bound the loop never stops on it. |
| Forge.StopFlagChecksFirst | engine/forge_loop.py:126-134 | A stop flag present at the start halts the loop before anything runs, even when the bound would also stop it. |
| Forge.UnboundedRunsUntilCaught | engine/forge_loop.py:125-152 | Without a bound and without the flag, only an exception ends the loop, whether caught or propagated. |
| Forge.BoundedRunsExactly | engine/forge_loop.py:131-141 | With a bound, no flag and no exception, the flow runs exactly as many times as the bound exceeds the counter. |
| Sorting.Sort | core/registry.py:328-328 | `sorted` returns a permutation of its input, ordered by the key in the requested direction. |
| Sorting.SortIsStable | core/registry.py:208-208 | Elements with equal keys keep their original order, even with `reverse=True`. |
| Text.SplitOnProperties | scoring/test_harness/harness.py:92-92 | `split("\n")` yields one more piece than there are newlines, no piece holds a newline, and joining the pieces gives the string back. |
| Text.SplitOnCount | scoring/test_harness/harness.py:92-92 | `split("\n")` yields one more piece than there are newlines. |
| Text.SplitOnPiecesClean | scoring/test_harness/harness.py:92-92 | No piece of `split("\n")` holds a newline. |
| Text.SplitOnJoins | scoring/test_harness/harness.py:92-92 | Joining the pieces of `split("\n")` with newlines gives the string back. |
| Text.WordsOfJoin | engine/mutation_engine.py:142-142 | Splitting a space-joined list of whitespace-free words gives the list back. |
| Random.RandInt | engine/mutation_engine.py:138-138 | `randint(a, b)` raises exactly on an empty range, and otherwise returns a value in [a, b]. |
| Random.Shuffle | engine/mutation_engine.py:186-186 | `shuffle` returns a permutation of the list. |

## Left out

- Input and output are not modelled: logging, reading and writing JSON files, directories, and sleeping between retries. A write is a boolean saying whether it succeeded.
- The language model, template rendering and the asyncio event loop are one oracle. It returns code or raises.
- Running the generated code (`compile`, `exec`, capturing standard output and error) is an oracle. It gives the parse result, the captured text, and how the code raised, if it did: an `Exception` the harness catches, or another `BaseException` it lets through.
- `uuid.uuid4()` and `time.strftime` are inputs: a fresh id and a timestamp. Timestamps are natural numbers, since the fixed-width `%Y-%m-%dT%H:%M:%S` strings order like the numbers they spell.
- `random` is a stream of reals in [0, 1). `choice` and `randint` take `floor(u * n)` of one draw, which is not CPython's exact bit-level algorithm.
- `math.tanh` is a parameter. It is required to map non-negative reals into [0, 1), and the lemmas comparing lineage scores also require it to be increasing. Floating-point rounding is not modelled anywhere: scores, random draws and the arithmetic on them are exact reals. So a lineage score never reaches 1.0, whereas `math.tanh` rounds to 1.0 for depths of 96 and more.
- Mutation.ScaleLines: `int(current * (0.8 + 0.4 * random.random()))` is computed over exact reals, so the product can differ from the double-precision one in its last bits, and then truncate to a different integer when it lies within rounding of a whole number. The comparisons `random.random() < entropy` in the mutation operators are likewise exact comparisons of reals.
- Exceptions are reduced to their message and one of three kinds: an `Exception`, a `KeyboardInterrupt`, or another `BaseException` such as `SystemExit`. Only the kind decides which `except` clause catches them.
- Text is modelled on characters. `\w`, `\b` and `lower()` are ASCII-only. `strip()` and `split()` use Python's whitespace set.
- Flows.RunFlow, Flows.RunBatch and Flows.RunBatchFlow: the flow's or batch's own `prep` is taken to return. The base classes' `prep` returns a constant, and no flow or batch of the core overrides it; an exception there would leave `run` before any node or item runs. A node's `prep` that raises is modelled (`Nodes.Run`).
- Flows.WalkFrom: a flow whose walk never ends would loop for ever. The walk carries fuel, and `Unfinished` stands for "still running".
- Registry.Collect: the depth-first walk carries fuel. On a cyclic lineage `collect_descendants` recurses until the stack overflows, which the model reports as `None`.
- Registry.Climb: the ancestry walk carries fuel. A build that is its own ancestor sends `get_ancestry`'s loop round for ever, which the model reports as `None`.
- Harness.Exec: when a `SystemExit` or `KeyboardInterrupt` escapes, `sys.stdout` and `sys.stderr` stay redirected. Stream state is not part of the model, so only the escaping exception is stated.
- Forge.RunForge: the `while True` loop carries fuel, so a forge run without a bound and without the stop flag is modelled only up to the fuel.
- Registry.GetBuilds: sorting is modelled for the numeric keys `score` and `timestamp`, and for a key the first summary lacks. Sorting on string or list fields is left out, as is the `TypeError` Python raises when a key is missing from a later summary.
- `get_build` and `get_recent_builds` are not modelled: the first only reads a file, and the second is `get_top_builds` on timestamps.
- The registry's constructor, `_load_index` and `_save_index` are file I/O.
- `str(directive)`, used as a key for reinforced directives, is modelled as the directive value itself: two directives share a key exactly when they are equal.
- MutationEngine.post only stores the variant list and returns "default". It has no contract beyond its label, which the forge wiring uses.
- The flow builder's prompt context (the reference code, the `node_type` text and the template name) only feeds the language-model oracle, so only the Flow/Node decision is kept.
- The placeholder module's method bodies after the class docstring are fixed text. Only the part up to the docstring is modelled, which is all that the class-name search reads.
- The legacy builder's prompt text, its `call_llm` and its `test_line_limit` are outside the model. The verdict of the line test is a parameter.
- The `HephaestusEngine` wrapper, the command-line entry point, the services, and the deprecated `engine/best_of_n.py` are outside the core and are not modelled.
