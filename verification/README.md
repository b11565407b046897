# NexusFlow scheduling and topology, in Dafny

This project models the logic of NexusFlow's DAG engine, its Plasma coordinator, CPU placement,
the CPU-list and shell printers, Plasma framing, the cell output stream and the hwloc import, and
proves what those parts promise over all inputs and all interleavings.

- **DAG engine** (`Dag`, `TopoSort`, `Pipelines`, `Runner`): graphs are described by chains and
  cycles, independently of any algorithm; Kahn's algorithm is a set of loops over maps and a queue,
  proved to decide exactly that description.
- **Plasma coordinator** (`PlasmaGraph`, `Coordinator`, `CoordinatorLoop`, `CoordinatorSafety`,
  `CoordinatorProgress`, `CoordinatorWake`, `CoordinatorReplies`, `Schedule`): the mutex-guarded
  fields are a class with one method per critical section; the loop and any number of connection
  handlers are a transition system that interleaves at the lock boundaries. `CoordinatorLoop` runs
  the class methods under any schedule and shows that every execution is a run of that system.
- **CPU lists** (`CpuRanges`, `CpuList`, `CpuParse`, `CpuParseLaws`, `Text`, `TextLaws`): both range
  compactors as loops over the same specification, the parser, its grammar, the character-level round
  trip, and the string operations they rest on.
- **Placement** (`Topology`, `Placement`, `NumaBind`, `PlacementLaws`, `SpillOrder`): CPU
  selection, the memory bind derived from it, and the order in which a selection spills.
- **Framing and streams** (`Frames`, `CellStream`): Go and Python ends over a transport that chunks
  at will; two output pumps over one stream.
- **Topology import and report** (`Hwloc`, `HwlocCores`, `HwlocLaws`, `HwlocPaths`, `Hints`, `HintsLaws`, `CoreReport`,
  `ShellQuote`).

`Collections` holds the shared values and the two library sorts. `dafny verify dfyconfig.toml`
checks the whole project.

## Where a promise does not hold

- Validation does not look for cycles. A cyclic pipeline is accepted, its cycle never starts, and
  the coordinator exits cleanly with work undone; `FinishesIffAcyclic` makes acyclicity the exact
  condition.
- An acknowledged branch may never run: it can be merged after the last pick and before the idle
  exit (`AcknowledgedButNeverRun`). `IdleExitDone` gives the exact condition for a complete exit.
- A CPU list does not survive printing and parsing when it contains a negative id or the two
  largest ints, whose range makes the parser's loop wrap and never end (`LoopEndsIff`, `RoundTrip`).
- The Go frame writer has no size check; a frame over 4 MiB is never read back
  (`FrameRoundTrip`). The Python writer refuses it.
- The memory bind counts records, not ids. It says what it is documented to say for every list of
  ids iff no id of a CPU with a known node is listed twice (`VerdictMeaningIff`); otherwise a known
  id is refused (`RepeatIsRefused`) or an unknown one passes (`DuplicateIdsFoolTheCount`).
- `StrategySameNUMA` documents that a spill takes CPUs in node id order; the code takes the nodes in
  list order. Both discovery paths list nodes by id, and then the promise holds
  (`SortedNodesSpillAsDocumented`, `HwlocSpillsInIdOrder`); a topology loaded from JSON keeps the
  order of the file, and then it can fail (`ListOrderIsNotIdOrder`). `DocumentedSpillIff` gives the
  exact condition: the ids of the nodes used up lie below those of the nodes left over, and the id of
  a node used in part lies between.
- The hwloc import numbers a core without an index after the core before it, and replaces a negative
  number by the index of the unit. So two cores of one package can be reported as one physical core
  (`MixedCoresCollapse`, `NegativeIndexCollapses`), and one core as two (`NegativeIndexSplits`).
  `KeysMatchCoresIff` gives the exact condition per package, from the document's indices and
  positions: no two units in different cores are counted at one number, and no core numbered below
  zero holds two units.
- A reply that cannot be written is dropped silently (`ReplyCanBeLost`), except that an error reply
  follows a descriptor that could not be sent. A client has one reply per request iff no last write
  for a request failed (`OneReplyEachIff`).

## Model

| member | source | states |
|---|---|---|
| `TopoSort.TopoOrder` | nexusflow/pkg/dag/graph.go:8-51 | Succeeds exactly when ids are distinct, every dependency is a listed id and there is no dependency cycle, for every queue seeding order and with repeated dependency entries; the result is a permutation of the input with every dependency before its dependents |
| `TopoSort.AddEntries` | nexusflow/pkg/dag/graph.go:20-23 | One node's dependency loop keeps both tables in step with the recorded entries and records each dependency |
| `TopoSort.BuildEdges` | nexusflow/pkg/dag/graph.go:19-24 | The in-degree and successor tables count exactly the recorded dependency entries, which are exactly the dependencies of the nodes |
| `TopoSort.Seed` | nexusflow/pkg/dag/graph.go:26-31 | The queue starts with every id of in-degree zero once, in any order |
| `TopoSort.Pop` | nexusflow/pkg/dag/graph.go:35-44 | Emitting the head of the queue keeps the queue invariant: emitted and queued ids are distinct and are exactly those with nothing left to wait for |
| `TopoSort.Release` | nexusflow/pkg/dag/graph.go:39-44 | Decrementing successors once per entry queues each id exactly when its count reaches zero |
| `TopoSort.Drain` | nexusflow/pkg/dag/graph.go:33-45 | When the queue is empty the emitted ids are exactly those with no outstanding entry, each after all it waited for |
| `TopoSort.WaitingAfterEmit` | nexusflow/pkg/dag/graph.go:39-41 | Emitting an id lowers every other id's outstanding count by its number of entries for that id |
| `TopoSort.Outcome` | nexusflow/pkg/dag/graph.go:47-50 | The one length comparison decides distinctness, closure and acyclicity together |
| `TopoSort.StuckMeansCycle` | nexusflow/pkg/dag/graph.go:47-49 | If distinct, closed input leaves ids unemitted, a cycle exists |
| `Dag.OrderIsWellFormed` | nexusflow/pkg/dag/graph.go:7-8 | A duplicate-free list with dependencies first describes a closed acyclic graph |
| `Dag.ChainDescends` | nexusflow/pkg/dag/graph.go:7-8 | Along a dependency chain positions in such a list strictly decrease |
| `Dag.NoMinimalMeansCycle` | nexusflow/pkg/dag/graph.go:47-49 | A non-empty set of ids each depending on another member contains a cycle |
| `Pipelines.Validate` | nexusflow/pkg/dag/spec.go:29-57 | Accepts exactly the named pipelines with non-blank distinct ids, non-empty commands and resolved dependencies; an error names the first thing wrong |
| `Pipelines.BlankIff` | nexusflow/pkg/dag/spec.go:33-40 | A name or id counts as blank exactly if it is white space only |
| `Pipelines.CyclicPipelineAccepted` | nexusflow/pkg/dag/spec.go:29-57 | A pipeline with a cycle passes validation |
| `Runner.Run` | nexusflow/pkg/dag/run.go:23-79 | Executes a prefix of a linear extension; refuses exactly the non-DAGs; finishes iff every turn succeeds, with one timing of exit code 0 per node; stopped, it says where and why, and the last timing carries the command's own code, or -1 if it did not start |
| `Runner.DependenciesSucceededFirst` | nexusflow/pkg/dag/run.go:34-73 | No node runs before each of its dependencies has run with exit code 0 |
| `Runner.NothingDownstreamRuns` | nexusflow/pkg/dag/run.go:61-71 | A node that depends, however indirectly, on the last executed one has not run |
| `PlasmaGraph.AppendDAG` | nexusflow/pkg/plasma/graph.go:11-43 | Accepts exactly the empty or admissible additions and then returns existing followed by added nodes; an error names the first duplicate id, else the first unsound node, else that the merge is no DAG |
| `PlasmaGraph.AcceptedMerge` | nexusflow/pkg/plasma/graph.go:11-43 | On a well-formed graph a non-empty addition is accepted iff its ids are fresh and pairwise distinct, commands non-empty, dependencies resolved and the addition is acyclic by itself |
| `PlasmaGraph.CycleOnOneSide` | nexusflow/pkg/plasma/graph.go:38-41 | Every cycle of a merged graph lies entirely in the old or entirely in the new nodes |
| `PlasmaGraph.CyclicGraphIsFrozen` | nexusflow/pkg/plasma/graph.go:38-41 | Nothing can be added to a graph that already has a cycle |
| `PlasmaGraph.PickRunnable` | nexusflow/pkg/plasma/graph.go:51-77 | Returns the lexicographically least ready node, or nothing exactly when no node is ready |
| `PlasmaGraph.PickMeans` | nexusflow/pkg/plasma/graph.go:51-77 | A pick is neither completed nor running, has all dependencies completed, and its id comes before every other such id at the first character where they differ; no pick means no such node |
| `TextLaws.StrLessIff` | nexusflow/pkg/plasma/graph.go:74-76 | String order: compared at the first position where the strings differ, a prefix first |
| `PlasmaGraph.PickUnique` | nexusflow/pkg/plasma/graph.go:74-76 | With distinct ids the pick does not depend on listing order |
| `PlasmaGraph.Progress` | nexusflow/pkg/plasma/graph.go:51-77 | In a well-formed graph with unfinished nodes and nothing running there is always a pick |
| `PlasmaGraph.BlockedMeansCycle` | nexusflow/pkg/plasma/graph.go:60-73 | No pick with work left and nothing running means the unfinished nodes contain a cycle |
| `Coordinator.Fields.constructor` | nexusflow/pkg/plasma/coordinator_linux.go:74-83 | Starts with the pipeline's nodes, nothing completed, running or sampled |
| `Coordinator.Fields.Pick` | nexusflow/pkg/plasma/coordinator_linux.go:336-339 | The scheduler's pick and the running count under the lock |
| `Coordinator.Fields.MergeBranch` | nexusflow/pkg/plasma/coordinator_linux.go:203-212 | Appends the branch exactly when it is accepted; otherwise the state is unchanged |
| `CoordinatorLoop.Interleave` | nexusflow/pkg/plasma/coordinator_linux.go:131-397 | The class refines the transition functions: whatever schedule its critical sections are run under, every possible choice takes exactly the step it should and every other none, and the whole is a run of the transition system that ends in the fields' contents with the safety invariant |
| `CoordinatorLoop.LoopSection` | nexusflow/pkg/plasma/coordinator_linux.go:328-397 | Each section of the loop is the loop step its turn calls for: a failing command returns its error without completing it, a succeeding one completes it, cancellation and the idle timeout return, a pending wake-up is consumed |
| `CoordinatorLoop.Wait` | nexusflow/pkg/plasma/coordinator_linux.go:365-394 | The two selects: cancellation, a pending wake-up or the timer, with the idle exit |
| `CoordinatorLoop.Dispatch` | nexusflow/pkg/plasma/coordinator_linux.go:153-229 | The switch on a decoded frame is one receive step of the transition system |
| `CoordinatorLoop.Move` | nexusflow/pkg/plasma/coordinator_linux.go:131-397 | A choice moves exactly when it is possible, and then takes the step it calls for |
| `CoordinatorLoop.FailureEndsLoop` | nexusflow/pkg/plasma/coordinator_linux.go:346-353 | A failing command ends the loop with its id in every schedule; nothing is started or completed after it |
| `CoordinatorLoop.CancelOrTimeoutEndsLoop` | nexusflow/pkg/plasma/coordinator_linux.go:328-334 | So do cancellation wherever the loop looks for it, and an idle wait that has lasted long enough |
| `CoordinatorLoop.ReturnIsFinal` | nexusflow/pkg/plasma/coordinator_linux.go:328-397 | Once the loop has returned nothing starts or completes any more |
| `CoordinatorSafety.RunInv` | nexusflow/pkg/plasma/coordinator_linux.go:197-397 | In every state of every interleaving: the graph is distinct and closed; running is empty or the one executing node (so the polling branch is unreachable); every started node's dependencies are completed and started before it; no id starts twice; the idle flag implies everything is completed |
| `CoordinatorSafety.StepInv` | nexusflow/pkg/plasma/coordinator_linux.go:328-397 | Every step of the loop or a handler keeps the invariant |
| `CoordinatorSafety.MergeStep` | nexusflow/pkg/plasma/coordinator_linux.go:203-212 | A branch merged between any two loop steps keeps the invariant |
| `CoordinatorSafety.MarkStep` | nexusflow/pkg/plasma/coordinator_linux.go:341-344 | Marking the picked node keeps the invariant although branches may have landed since the pick |
| `CoordinatorSafety.CountingTest` | nexusflow/pkg/plasma/coordinator_linux.go:376-379 | `done == total` is equivalent to every id being completed |
| `CoordinatorSafety.AnnouncedIff` | nexusflow/pkg/plasma/coordinator_linux.go:375-383 | Quiescence is announced iff there are nodes and all are completed |
| `CoordinatorProgress.RunGrows` | nexusflow/pkg/plasma/coordinator_linux.go:203-212 | Node list, completed set, samples, executions, requests and replies only ever grow, lists at the end |
| `CoordinatorProgress.RunAcyclic` | nexusflow/pkg/plasma/coordinator_linux.go:204-210 | An acyclic pipeline stays acyclic under every branch; a cyclic one never changes |
| `CoordinatorProgress.HeadFindsWork` | nexusflow/pkg/plasma/coordinator_linux.go:336-341 | With an acyclic pipeline and unfinished nodes, every reachable loop head finds a node to run |
| `CoordinatorProgress.IdleExitDone` | nexusflow/pkg/plasma/coordinator_linux.go:385-394 | At an idle exit every node seen by the preceding pick is completed, and the whole graph is completed iff no branch was merged after that pick |
| `CoordinatorProgress.CycleNeverRuns` | nexusflow/pkg/plasma/coordinator_linux.go:336-363 | No interleaving starts a node on a cycle of the pipeline |
| `CoordinatorProgress.RankDecreases` | nexusflow/pkg/plasma/coordinator_linux.go:328-397 | Every loop step outside the idle wait lowers a rank built on the unfinished-node count; handlers do not change it unless the graph grows |
| `CoordinatorProgress.LoopStepsBounded` | nexusflow/pkg/plasma/coordinator_linux.go:328-397 | Between two idle waits without growth the loop takes at most rank-many steps |
| `CoordinatorProgress.QuiescesWithin` | nexusflow/pkg/plasma/coordinator_linux.go:328-397 | From the start, an unbranched pipeline of n nodes takes at most 5n+4 loop steps before it is idle or has returned |
| `CoordinatorProgress.LoopEnabled` | nexusflow/pkg/plasma/coordinator_linux.go:328-397 | Until it returns the loop always has a next step that is neither failure nor cancellation |
| `CoordinatorProgress.RunsToIdle` | nexusflow/pkg/plasma/coordinator_linux.go:328-397 | Every run can be extended by loop steps alone to an idle exit |
| `CoordinatorProgress.FinishesIffAcyclic` | nexusflow/pkg/plasma/coordinator_linux.go:385-394 | Every idle exit of every run has completed the whole pipeline iff the pipeline is acyclic |
| `CoordinatorProgress.AcknowledgedButNeverRun` | nexusflow/pkg/plasma/coordinator_linux.go:385-394 | A concrete interleaving in which a branch is merged and acknowledged and the coordinator exits without running it |
| `CoordinatorWake.RunWake` | nexusflow/pkg/plasma/coordinator_linux.go:131-136 | No wake-up is lost: in every state of every interleaving, while the loop rests and has not seen all nodes, a wake-up is pending or a handler is about to signal one |
| `CoordinatorWake.QuietMeansComplete` | nexusflow/pkg/plasma/coordinator_linux.go:385-394 | A resting loop with no wake-up coming, idle exits included, has completed the whole graph |
| `CoordinatorWake.UnseenBranchIsPicked` | nexusflow/pkg/plasma/coordinator_linux.go:336-389 | An idle loop that has not seen a branch can be woken and picks a node within three steps |
| `CoordinatorWake.SecondStepPicks` | nexusflow/pkg/plasma/coordinator_linux.go:336-389 | In every continuation, once an idle loop that has not seen a branch has taken two steps without being cancelled or exiting, it has picked a node |
| `CoordinatorReplies.RunReplies` | nexusflow/pkg/plasma/coordinator_linux.go:153-232 | In every state of every interleaving each connection's written replies, whether or not the writes succeed, answer its requests one by one in order, and the sample log is in one-to-one correspondence with the sample requests |
| `CoordinatorReplies.OneReplyEachIff` | nexusflow/pkg/plasma/coordinator_linux.go:153-232 | The client has received exactly one reply per handled request, in order, iff no last write for a request of its connection failed; otherwise it is short of replies |
| `CoordinatorReplies.ReplyCanBeLost` | nexusflow/pkg/plasma/coordinator_linux.go:174-177 | A run in which a greeting is handled and never answered because the write failed |
| `CoordinatorReplies.FailedDescriptorIsAnswered` | nexusflow/pkg/plasma/coordinator_linux.go:218-226 | A descriptor that cannot be sent is answered by an error instead, still one reply |
| `CoordinatorReplies.DescriptorIsSent` | nexusflow/pkg/plasma/coordinator_linux.go:218-226 | A descriptor that is available and can be sent is what the client gets |
| `CoordinatorReplies.PreparedReply` | nexusflow/pkg/plasma/coordinator_linux.go:165-229 | Which reply each request leads to, whether the loop is woken, and what it adds to the graph and the sample log |
| `CoordinatorReplies.AcknowledgedBranchStays` | nexusflow/pkg/plasma/coordinator_linux.go:197-216 | The r-th reply answers the r-th request; an acknowledged branch's nodes are in the graph then and in every later state |
| `CoordinatorReplies.AcknowledgedSampleLoggedOnce` | nexusflow/pkg/plasma/coordinator_linux.go:179-195 | Every handled sample has exactly one log entry, carrying its record, in every later state |
| `CoordinatorReplies.BranchVerdict` | nexusflow/pkg/plasma/coordinator_linux.go:203-216 | In every reachable state of an acyclic pipeline a branch is acknowledged iff it is fresh, distinct, executable, resolvable and acyclic by itself; otherwise it gets an error and nothing changes |
| `Schedule.ExecutionIsLeast` | nexusflow/pkg/plasma/coordinator_linux.go:336-363 | Without branches, in every interleaving, the executed ids never exceed any linear extension in lexicographic order, and once all is completed they are one |
| `Schedule.ExecutionIgnoresListing` | nexusflow/pkg/plasma/coordinator_linux.go:336-363 | Two listings of the same nodes are executed in the same order |
| `Schedule.GreedyIsLeast` | nexusflow/pkg/plasma/graph.go:74-76 | Repeatedly picking the least ready id gives the lexicographically least linear extension |
| `Schedule.LexLeqIff` | nexusflow/pkg/plasma/graph.go:74-76 | The order on id sequences: a prefix, or the smaller string at the first difference |
| `Schedule.GreedyIsExtension` | nexusflow/pkg/plasma/graph.go:51-77 | A pick sequence that covers the graph is a linear extension |
| `Schedule.GreedyUnique` | nexusflow/pkg/plasma/graph.go:51-77 | The pick sequence is determined by the set of nodes |
| `Schedule.RunOne` | nexusflow/pkg/plasma/coordinator_linux.go:336-363 | One turn of the loop executes the scheduler's pick and completes it exactly when the command succeeds |
| `Schedule.DrainLoop` | nexusflow/pkg/plasma/coordinator_linux.go:336-363 | The loop without interference terminates, executing the pick sequence until everything is completed or the first command fails |
| `CpuList.FormatCPUList` | nexusflow/pkg/topology/cpulist.go:47-87 | Prints the maximal runs of the distinct ids, comma separated |
| `CpuList.CPUsToTasksetSpec` | nexusflow/pkg/affinity/cpuset.go:11-40 | Prints the same text as the formatter on every input |
| `CpuList.StreamRuns` | nexusflow/pkg/topology/cpulist.go:61-86 | The streaming pass with start and prev prints exactly the maximal runs |
| `CpuList.ScanRuns` | nexusflow/pkg/affinity/cpuset.go:26-39 | The two-index scan prints exactly the maximal runs |
| `CpuList.Unique` | nexusflow/pkg/topology/cpulist.go:51-59 | The dedupe loop keeps the first occurrence of every id |
| `CpuList.IncTest` | nexusflow/pkg/topology/cpulist.go:69-72 | On increasing 64-bit ids the successor test cannot be fooled by overflow |
| `CpuRanges.RunsCover` | nexusflow/pkg/topology/cpulist.go:61-86 | The runs cover exactly the listed ids |
| `CpuRanges.RunsSeparated` | nexusflow/pkg/topology/cpulist.go:69-72 | Between any two runs at least one id is missing |
| `CpuRanges.RunsAreFewest` | nexusflow/pkg/topology/cpulist.go:46-47 | No list of ranges covering the same ids has fewer entries |
| `CpuParse.ParseCPUList` | nexusflow/pkg/topology/cpulist.go:11-44 | Combines the parts left to right up to the first bad one |
| `CpuParse.ParseOne` | nexusflow/pkg/topology/cpulist.go:17-42 | A part is blank, a range or a single id, with the code's error cases; a range contributes what its loop appends on the wrapping int, if it ends |
| `CpuParse.LoopEndsIff` | nexusflow/pkg/topology/cpulist.go:32-34 | The loop over a range ends iff its upper bound is below the largest int, and then appends exactly the interval |
| `CpuParse.TurnsOfLoop` | nexusflow/pkg/topology/cpulist.go:32-34 | The number of turns of the loop is determined: one per id, and none suffices at the largest int |
| `CpuParse.ParsedInRange` | nexusflow/pkg/topology/cpulist.go:11-44 | Every id returned is a non-negative int, whatever text is accepted |
| `CpuParse.RoundTrip` | nexusflow/pkg/topology/cpulist.go:11-87 | Parsing the printed list gives the sorted distinct ids iff no id is negative and the two largest ints are not both present; a negative id makes the text invalid, the two largest alone make the parser run forever |
| `CpuParse.Reformat` | nexusflow/pkg/topology/cpulist.go:11-87 | Reformatting an accepted text keeps its set of ids, unless it contains the two largest ints |
| `CpuParse.LargestIdsDoNotRoundTrip` | nexusflow/pkg/topology/cpulist.go:32-34 | The two largest ints print as a range on which the parser never ends |
| `CpuParse.PartRoundTrip` | nexusflow/pkg/topology/cpulist.go:22-42 | A printed range parses to its interval iff it is non-negative and does not run up to the largest int; otherwise it is invalid or never ends, respectively |
| `CpuParseLaws.PartIgnoresBlanks` | nexusflow/pkg/topology/cpulist.go:18 | White space around a part never changes what it contributes |
| `CpuParseLaws.ListIgnoresBlanks` | nexusflow/pkg/topology/cpulist.go:12 | White space around a list never changes the outcome |
| `CpuParseLaws.SinglePartIs` | nexusflow/pkg/topology/cpulist.go:37-41 | A numeral without a dash contributes that id |
| `CpuParseLaws.RangePartIs` | nexusflow/pkg/topology/cpulist.go:22-36 | Two numerals around the first dash contribute every id between them |
| `CpuParseLaws.InvalidPartIff` | nexusflow/pkg/topology/cpulist.go:22-41 | A non-blank part is refused, with its own text, iff it is neither a single id nor a range |
| `CpuParseLaws.OneMorePart` | nexusflow/pkg/topology/cpulist.go:17-42 | Each part's ids come after the earlier ones, unless an earlier part or the part itself is bad |
| `CpuParseLaws.ListIsParts` | nexusflow/pkg/topology/cpulist.go:17 | A list is cut exactly at its commas |
| `CpuParseLaws.DocumentedList` | nexusflow/pkg/topology/cpulist.go:46-47 | "0-3,8" is printed for, and parsed as, 0, 1, 2, 3, 8 |
| `Text.AtoiItoa` | nexusflow/pkg/topology/cpulist.go:77-80 | Decimal printing and parsing are inverse on 64-bit ints |
| `TextLaws.ItoaSnoc` | nexusflow/pkg/topology/cpulist.go:77-80 | The last character printed is the units digit, what precedes it the tens |
| `TextLaws.AtoiIff` | nexusflow/pkg/topology/cpulist.go:27-28 | Exactly the numerals with at most one sign whose value fits an int are accepted, with that value |
| `TextLaws.TrimSpaceIs` | nexusflow/pkg/topology/cpulist.go:12-18 | Trimming removes exactly the white space at both ends |
| `TextLaws.JoinSplit` | nexusflow/pkg/topology/cpulist.go:17 | The parts of a split contain no separator and join to the text |
| `Text.SplitJoin` | nexusflow/pkg/topology/cpulist.go:17 | Splitting at commas undoes joining with commas |
| `Placement.SelectCPUs` | nexusflow/pkg/topology/placement.go:19-84 | The outcome of each case: all ids, unknown strategy, flat, preferred node, best-fitting node, spill, shortage |
| `PlacementLaws.PlainSelection` | nexusflow/pkg/topology/placement.go:20-31 | All ids sorted for a request of none or too many; an unknown strategy is refused; the smallest ids on a machine without nodes |
| `PlacementLaws.PreferenceIff` | nexusflow/pkg/topology/placement.go:33-40 | A preferred node succeeds iff it exists and is large enough, and then gives its smallest CPUs; any other preference fails |
| `PlacementLaws.UnpreferredSelection` | nexusflow/pkg/topology/placement.go:42-83 | Without a preference: the smallest CPUs of the largest node, of the lowest id among those, if it is large enough; else the first ids of the spread lists; else the shortage with the total |
| `PlacementLaws.SmallestUnique` | nexusflow/pkg/topology/placement.go:33-63 | Being sorted and the smallest determines the choice |
| `Placement.Largest` | nexusflow/pkg/topology/placement.go:42-63 | Chooses the largest fitting node and among those the lowest id; none exactly when no node fits |
| `Placement.Gather` | nexusflow/pkg/topology/placement.go:65-78 | Collects the first ids of the concatenated sorted node lists |
| `Placement.CPUsOnNode` | nexusflow/pkg/topology/types.go:28-37 | The list of the first node with that id, and nothing if no node has it |
| `PlacementLaws.SelectionShape` | nexusflow/pkg/topology/placement.go:17-23 | Every success of a proper request is sorted and has exactly the wanted number of ids |
| `PlacementLaws.FailsIffTooFew` | nexusflow/pkg/topology/placement.go:65-83 | Without a preference a request fails iff the node sizes sum to less than wanted |
| `PlacementLaws.SelectionSound` | nexusflow/pkg/topology/placement.go:19-84 | On a consistent machine every selection consists of distinct known CPUs |
| `PlacementLaws.ChoiceDistinct` | nexusflow/pkg/topology/placement.go:47-83 | Disjoint duplicate-free node lists give duplicate-free selections |
| `PlacementLaws.SingleNodeIffFits` | nexusflow/pkg/topology/placement.go:47-83 | With disjoint duplicate-free node lists an unconstrained choice stays on one node iff some node is large enough |
| `SpillOrder.SpillInIdOrderIff` | nexusflow/pkg/topology/placement.go:65-83 | For disjoint duplicate-free lists and distinct node ids, list order and id order spill the same CPUs iff the ids are cut where the spill stops |
| `SpillOrder.DocumentedSpillIff` | nexusflow/pkg/topology/placement.go:12-14 | A spilling selection is the documented one exactly under that condition |
| `SpillOrder.SortedNodesSpillAsDocumented` | nexusflow/pkg/topology/discover_linux.go:120 | On a machine whose nodes are listed by increasing id the spill is in node id order, whatever the lists hold |
| `SpillOrder.ListOrderIsNotIdOrder` | nexusflow/pkg/topology/json.go:85-91 | Two nodes of two CPUs listed against their id order: a request for three CPUs exhausts the wrong node first |
| `SpillOrder.SelectedFirst` | nexusflow/pkg/topology/placement.go:66-78 | A selected CPU comes before one that is not: from an earlier node, or smaller in the same |
| `PlacementLaws.PreferredIsPrimary` | nexusflow/pkg/topology/placement.go:33-40 | An honoured preferred node is the node memory is bound to, and no other |
| `PlacementLaws.BestFitIsPrimary` | nexusflow/pkg/topology/placement.go:47-63 | A selection that fits one node is bound to the best-fitting node, and no other |
| `PlacementLaws.OneNodeIsPrimary` | nexusflow/pkg/topology/placement.go:97-127 | Ids taken from one node of a consistent machine are bound to exactly that node |
| `NumaBind.PrimaryNUMANodeForCPUs` | nexusflow/pkg/topology/placement.go:97-127 | Says ok iff the matching records share one non-negative node and are as many as the distinct ids |
| `NumaBind.VerdictMeansAllOnNode` | nexusflow/pkg/topology/placement.go:95-97 | Unless an id of known node repeats, ok means: the list is non-empty, every id is known and all are on that node |
| `NumaBind.VerdictMeaningIff` | nexusflow/pkg/topology/placement.go:95-97 | The verdict has its documented meaning for every list of ids iff no id of a CPU with a known node is listed twice |
| `NumaBind.RepeatIsRefused` | nexusflow/pkg/topology/placement.go:111-123 | A repeated id with a known node is refused although it is on that node |
| `NumaBind.DuplicateIdsFoolTheCount` | nexusflow/pkg/topology/placement.go:111-123 | A repeated id can make up for an unknown one in the count |
| `Frames.ReadFrameBytes` | nexusflow/pkg/plasma/frame.go:13-30 | Reads what `Decode` says and leaves the rest, however the transport chunks the bytes |
| `Frames.ReadFull` | nexusflow/pkg/plasma/frame.go:15 | Fills the buffer from as many reads as it takes, or to the end of the stream |
| `Frames.WriteFrame` | nexusflow/pkg/plasma/frame.go:38-44 | Writes header and payload; the length field wraps at 32 bits |
| `Frames.RecvExact` | nexusflow/sdk/python/nexusflow_sdk/plasma.py:47-56 | Collects exactly n bytes or fails at the end of the stream |
| `Frames.RecvFrame` | nexusflow/sdk/python/nexusflow_sdk/plasma.py:39-45 | Reads the same frames as the Go end; the end of the stream is always an error |
| `Frames.SendFrame` | nexusflow/sdk/python/nexusflow_sdk/plasma.py:33-37 | Sends the same bytes as the Go end and refuses payloads over 4 MiB |
| `Frames.FrameRoundTrip` | nexusflow/pkg/plasma/frame.go:13-45 | A frame is read back as sent with the rest of the stream intact iff it is at most 4 MiB |
| `Frames.StreamRoundTrip` | nexusflow/pkg/plasma/frame.go:13-45 | A sequence of payloads is read back in order with the rest intact iff each is at most 4 MiB |
| `Frames.HeaderRoundTrip` | nexusflow/pkg/plasma/frame.go:18 | The big-endian length field is read back as written |
| `Frames.FrameLayout` | nexusflow/pkg/plasma/frame.go:38-44 | On the wire: the payload's length modulo 2^32 in four bytes, most significant first, then the payload |
| `Frames.BigEndian` | nexusflow/pkg/plasma/frame.go:18 | The length field is big-endian both ways |
| `Frames.TruncatedFrame` | nexusflow/pkg/plasma/frame.go:13-30 | A stream that ends inside a frame never yields one: nothing or a bare header reads as its end, anything else as cut off |
| `Frames.OversizeFrame` | nexusflow/pkg/plasma/frame.go:19-21 | A frame over 4 MiB is refused with its length and its payload is left unread |
| `CellStream.PipeToStream` | nexusflow/pkg/daemon/grpc_linux.go:154-170 | A pump run until a read reports an error or the end sends fresh copies on its side only, so refilling the buffer leaves sent chunks unchanged; what was sent is exactly what was read |
| `CellStream.Pumps` | nexusflow/pkg/daemon/grpc_linux.go:120-138 | Both pumps, each reusing its own buffer, under any schedule of their moves: a run of the transition system, with the sent chunks still holding what was sent |
| `CellStream.RunInCell` | nexusflow/pkg/daemon/grpc_linux.go:120-152 | Both pumps under any schedule until they return, then the final chunk with the exit as it was: a finished run, whose chunks still hold what was sent and concatenate per side to what was read; with steady reads that is the whole output |
| `CellStream.FinalChunkTellsExit` | nexusflow/pkg/daemon/grpc_linux.go:139-152 | The final chunk: 0 for a clean exit, the code as 32 bits for any other, -1 with the text of a failed wait |
| `CellStream.SteadyTakesAll` | nexusflow/pkg/daemon/grpc_linux.go:154-170 | Reads that deliver something while there is anything, and report nothing but the end, take the whole input |
| `CellStream.PumpMoves` | nexusflow/pkg/daemon/grpc_linux.go:154-170 | One read or one send of one pump is one step of the transition system and leaves all earlier chunks intact |
| `CellStream.RunInv` | nexusflow/pkg/daemon/grpc_linux.go:121-152 | In every interleaving of the two pumps, what was sent for a side plus what its pump holds is what it read |
| `CellStream.StreamIsFaithful` | nexusflow/pkg/daemon/grpc_linux.go:121-152 | A finished stream is data chunks followed by one Finished chunk; each side's data concatenates to exactly the bytes read from its pipe |
| `CellStream.NothingAfterFinished` | nexusflow/pkg/daemon/grpc_linux.go:139-152 | The Finished chunk is the last event |
| `Hwloc.Walker.Walk` | nexusflow/pkg/hwloc/parse.go:34-53 | Appends exactly one record per indexed processing unit, in document order: package and NUMA index of the nearest indexed enclosing objects, number of the enclosing core |
| `Hwloc.Walker.Enter` | nexusflow/pkg/hwloc/parse.go:35-49 | The switch passes down exactly the attributes the place determines and advances the core counter |
| `Hwloc.Walker.WalkAll` | nexusflow/pkg/hwloc/parse.go:50-52 | The child loop covers all places below, in order, threading the core counter through |
| `Hwloc.Records` | nexusflow/pkg/hwloc/parse.go:67-71 | All top-level objects together, starting from core number 0 |
| `HwlocPaths.UnitPathsIff` | nexusflow/pkg/hwloc/parse.go:34-53 | The recorded units are exactly the processing units on some path of the document that have a non-negative index |
| `HwlocPaths.NearestIndexIs` | nexusflow/pkg/hwloc/parse.go:37-41 | The inherited index is that of the last object of its kind on the path that has one, or -1 |
| `HwlocCores.RecordsNumbered` | nexusflow/pkg/hwloc/parse.go:42-44 | Every record is of an indexed unit, and its core is the number, in document order, of the very core that most closely encloses it |
| `HwlocCores.NumberClosedForm` | nexusflow/pkg/hwloc/parse.go:42-44 | A core's number is the index of the last indexed core at or before it (0 if there is none) plus the distance from it, reduced to 64 bits |
| `HwlocCores.NumberedApartIff` | nexusflow/pkg/hwloc/parse.go:42-44 | All cores of a document are numbered apart iff the runs that start at its indices do not meet, wrap-around included |
| `HwlocCores.ApartIsDisjoint` | nexusflow/pkg/hwloc/parse.go:42-44 | Without wrap-around, runs are apart iff their intervals of numbers are disjoint |
| `HwlocCores.UnindexedInOrder` | nexusflow/pkg/hwloc/parse.go:42-44 | Without any index the cores are numbered 0, 1, 2, ... in document order |
| `Hwloc.TopologyFromRecords` | nexusflow/pkg/hwloc/parse.go:72-104 | CPUs are the records sorted by index, each with its record's unit, node, package (0 if missing) and core (the unit if missing); nodes are sorted by id and list their CPUs in order; fails exactly on no records |
| `HwlocLaws.NodesPartition` | nexusflow/pkg/hwloc/parse.go:77-102 | The node lists partition, as multisets, the CPUs whose node is known |
| `HwlocLaws.ConsistentIffDistinctPus` | nexusflow/pkg/hwloc/parse.go:75-104 | The machine is consistent iff no two processing units share an index |
| `HwlocLaws.TopologyFromDocument` | nexusflow/pkg/hwloc/parse.go:56-104 | The whole import from the decoded document: fails iff it has no indexed unit; otherwise the CPUs are its units sorted by index and the nodes list them |
| `HwlocLaws.ImportConsistentIff` | nexusflow/pkg/hwloc/parse.go:56-104 | The imported machine is consistent iff the indexed units of the document have distinct indices |
| `HwlocPaths.CpuDepictsUnit` | nexusflow/pkg/hwloc/parse.go:75-95 | Every imported CPU depicts a unit of the document: its index, its nearest node, its nearest package or 0 |
| `HwlocPaths.UnitIsDepicted` | nexusflow/pkg/hwloc/parse.go:75-95 | Every indexed unit of the document is depicted by a CPU, and there are as many CPUs as units |
| `HwlocPaths.SamePackageIff` | nexusflow/pkg/hwloc/parse.go:85-90 | Two imported CPUs share a package iff the nearest package indices of their units, raised to zero, agree |
| `HwlocPaths.SocketCountIs` | nexusflow/pkg/topology/hints.go:66-97 | The report counts one socket per package index of the document, raised to zero |
| `HwlocLaws.HwlocSelectionBinds` | nexusflow/pkg/topology/placement.go:97-127 | On a machine read from hwloc with distinct units, a selection that fits a node is bound to that node |
| `HwlocLaws.HwlocSpillsInIdOrder` | nexusflow/pkg/hwloc/parse.go:102 | A machine read from hwloc lists its nodes by id, so its spill is the documented one |
| `Hints.BuildClusterHints` | nexusflow/pkg/topology/hints.go:56-141 | Every field of the report in terms of the machine, with attained maxima and minima; a bare report without topology |
| `Hints.PackageIDs` | nexusflow/pkg/topology/types.go:40-51 | The increasing list of the distinct package ids |
| `Hints.Tally` | nexusflow/pkg/topology/hints.go:69-74 | CPU ids per package in list order and the distinct (package, core) pairs |
| `Hints.CountCores` | nexusflow/pkg/topology/hints.go:77-80 | Counts each package's distinct cores, in any iteration order |
| `Hints.Sockets` | nexusflow/pkg/topology/hints.go:82-97 | One summary per package and the attained maximum of logical CPUs |
| `Hints.NumaSummaries` | nexusflow/pkg/topology/hints.go:104-125 | One summary per node and the attained maximum and minimum sizes |
| `HintsLaws.LogicalConserved` | nexusflow/pkg/topology/hints.go:82-97 | Socket logical CPUs sum to the total |
| `HintsLaws.IdsConserved` | nexusflow/pkg/topology/hints.go:69-74 | The packages' id lists together are, as a multiset, the machine's id list |
| `HintsLaws.CoresConserved` | nexusflow/pkg/topology/hints.go:75-102 | Per-socket physical cores sum to the distinct (package, core) pairs |
| `HintsLaws.CoresBounded` | nexusflow/pkg/topology/hints.go:82-97 | No socket has more physical cores than logical CPUs |
| `CoreReport.SharedKeyIff` | nexusflow/pkg/hwloc/parse.go:81-92 | Two units share a (package, core) key without sharing a core iff they are of one package and their runs count the same number at their positions, or a unit keyed by its own index meets such a number or another such unit |
| `CoreReport.SharedCoreIff` | nexusflow/pkg/hwloc/parse.go:81-92 | Two units share a core without sharing a key iff the core is numbered below zero and the units differ |
| `CoreReport.ClashMeansMeeting` | nexusflow/pkg/hwloc/parse.go:42-44 | Two numbered cores are confused only where two different runs meet |
| `CoreReport.KeysMatchCoresIff` | nexusflow/pkg/topology/hints.go:69-80 | The keys and the cores of a package match one to one iff no two of its units clash or are split |
| `CoreReport.SocketCoresRightIff` | nexusflow/pkg/topology/hints.go:75-97 | The physical cores reported for a socket are at most its cores without splits, at least without clashes, and in either case equal iff there is neither |
| `CoreReport.RunsApartMeansRight` | nexusflow/pkg/topology/hints.go:69-80 | A package whose units are all in cores numbered from zero up, in runs that do not meet, is reported right |
| `CoreReport.ReportedKeys` | nexusflow/pkg/topology/hints.go:69-74 | The (package, core) pairs of an imported machine are exactly the keys of the document's units |
| `CoreReport.MixedCoresCollapse` | nexusflow/pkg/topology/hints.go:69-80 | A core without an index followed by one with index 0 in one package: two cores, reported as one |
| `CoreReport.NegativeIndexCollapses` | nexusflow/pkg/hwloc/parse.go:81-84 | A core with a negative index is keyed by its unit, which can be the index of another core: two cores, reported as one |
| `CoreReport.NegativeIndexSplits` | nexusflow/pkg/hwloc/parse.go:81-84 | A core with a negative index and two units: one core, reported as two |
| `HintsLaws.SocketReadsBack` | nexusflow/pkg/topology/hints.go:88-93 | A socket's printed list reads back as exactly its package's ids iff they are non-negative and do not include both of the two largest ints; otherwise it cannot be read back |
| `HintsLaws.ListsPartition` | nexusflow/pkg/topology/hints.go:82-97 | With unique ids every CPU is in exactly one of the readable lists, that of its package; a list is readable under that same condition |
| `HintsLaws.ListsKnownOnly` | nexusflow/pkg/topology/hints.go:82-97 | A list that can be read back contains only ids of known CPUs |
| `HintsLaws.NodeReadsBack` | nexusflow/pkg/topology/hints.go:107-112 | A node's summary has its id and size, and a list that reads back as its CPUs under the same condition as a socket's |
| `HintsLaws.SocketSpelledOut` | nexusflow/pkg/topology/hints.go:82-102 | A socket reports the number of CPUs of its package and of distinct cores among them |
| `HintsLaws.SocketIffPackage` | nexusflow/pkg/topology/types.go:40-51 | There is a socket for exactly the packages some CPU is in |
| `HintsLaws.SuggestionSpelledOut` | nexusflow/pkg/topology/hints.go:131-138 | The suggested task size is that of a largest socket, the first list that of the lowest package |
| `HintsLaws.NodeExtremes` | nexusflow/pkg/topology/hints.go:104-121 | The reported extremes bound the node sizes and are attained |
| `ShellQuote.QuoteRoundTrip` | nexusflow/pkg/topology/hints.go:151-159 | A POSIX shell reads the quoted text back as the single word s iff s has no NUL |
| `ShellQuote.QuotedExtends` | nexusflow/pkg/topology/hints.go:151-159 | Inside a longer line a quoted string contributes exactly s to the current word |
| `ShellQuote.ShortcutsAgree` | nexusflow/pkg/topology/hints.go:152-157 | The empty and quote-free shortcuts agree with the general form |
| `ShellQuote.QuoteExample` | nexusflow/pkg/topology/hints.go:151-159 | A quote inside is written as a closing quote, a double-quoted quote and an opening quote |
| `ShellQuote.ExportLine` | nexusflow/pkg/topology/hints.go:168 | Evaluating an export line sets the variable to exactly the unquoted text and changes no other |

## Left out

- Wall-clock time: the idle clock, its bumps and all timers are nondeterministic steps, so no claim is made about how long an idle exit takes.
- JSON, YAML and XML decoding: the model starts from decoded nodes, messages and objects; in particular that a JSON `depends_on` key does not bind to the node field is not visible here.
- File-descriptor passing, shared memory, performance counters, cgroups, huge pages and process execution: their results are arbitrary inputs.
- CoordinatorReplies.OneReplyEachIff: a write delivers a whole frame or nothing; a frame cut off in the middle is not modelled.
- Coordinator.Fields.SignalWake: the one-slot channel is a flag; blocked senders cannot occur because the send gives up.
- Collections.Ints and Collections.SortSlice: the library sorts work on values instead of in place; the unstable sort promises key order and multiset only.
- CpuList.FormatCPUList: increments without 64-bit wrap-around; `CpuList.IncTest` shows the wrapped test agrees on every sorted list.
- Schedule.DrainLoop: the loop without concurrent handlers, cancellation or the idle wait; with them it is `CoordinatorLoop.Interleave`.
- ShellQuote.ExportLine: the reader treats unquoted expansions, operators and escapes as unreadable rather than interpreting them (the quoting never emits them), and `export` is interpreted for one `NAME=VALUE` operand.
- Prometheus text, JSON rendering of hints, the matrix and Open MPI formats, the dashboard and command-line plumbing: field-by-field output with only easy claims.
- nexusflow/pkg/kubermetrics and its manifest (cluster-wide installation of remotely fetched binaries): deliberately not part of this model.
