# Verified models of hnsw-rvv and of the gem5 tools beside it

The repository searches nearest neighbours with HNSW graphs and simulates that search with gem5. This project models
its algorithms in Dafny and proves what they keep, compute and undo. Nothing here runs the original programs. Verify
with

    dafny verify dfyconfig.toml

## What is modelled

- **HNSW index** (`Graphs`, `BeamSearch`, `Neighbors`, `HnswLinks`, `HnswDescent`, `HnswInsert`, `Hnsw`,
  `SixPoints`, `VisitedList`). The beam search, the neighbour selection heuristic, the greedy descent, insertion,
  update, replacement and deletion on layered link lists, and the k-nearest search. The class invariant covers link
  lists, levels, entry point, labels and deletion records.
- **Exact search and ground truth** (`BruteForce`, `ExactSearch`, `Floats`, `GroundTruth`, `DatasetFile`). The flat
  store, its filtered scan, the creator, labels as floats, the file format, the checker and the recall count.
- **Pipeline viewer** (`PipeView`, `PipeTrace`, `Timeline`). The reorder queue over whole runs, the trace loop, and the
  layout of timelines.
- **Dependency traces** (`Words`, `Varint`, `Framing`, `Text`, `DepTrace`, `TraceFiles`). Varints, framing, the text
  form, and both conversion scripts.
- **Checkpoint upgrader** (`Upgrader`, `UpgraderFiles`). Loading, dependency resolution, and the apply loop.
- **Run control** (`Machine`, `Checkpoints`, `CpuSwitching`). The simulator as an oracle over guest events, checkpoint
  series, and CPU switches.
- **Builders and mergers** (`TesterTree`, `PortBinder`, `PortPlans`, `MemoryMerge`, `GpuPorts`).
- **Small tools** (`CopyrightYears`, `CopyrightBlocks`, `LogRoll`).
- **Shared** (`Options`, `Sequences`, `Orders`, `Arithmetic`).

Distances are real numbers given by an arbitrary function; random levels, guest events, message serialisation and file
contents are parameters. Heaps are finite sets with the order that decides who is popped. Where a heap may break ties
in any way, so does the model.

## Where the code does not do what one would expect

Each of these is proved by the members named; where a law fails, they say exactly when it holds.

- Inserting into an index whose entry is live but where the descent ends at a deleted element that reaches only deleted
  ones has no candidate; the source then reads the last entry of an empty vector (`HnswInsert.Wire`,
  `SixPoints.DeletedNeighboursStrand`).
- The integrity check asserts that every element has an inbound link (`include/hnswlib/hnswlib/hnswalg.h:1400-1404`).
  Insertions alone can take the last one away (`HnswLinks.OfferOrphansIff`, `SixPoints.FirstPointIsOrphaned`).
- Replacing a deleted element under a label that another element carries breaks the label table
  (`Hnsw.RelabelKeepsMatch`).
- Removing the label in the last slot of the flat store leaves it in the dictionary, and adding it again writes where no
  search looks (`BruteForce.RemovedIsDelete`, `BruteForce.ReaddedAfterLastRemovalIsLost`). The source also reads a
  dictionary entry right after erasing it; the model takes the value it had.
- A filtered exact scan can drop an allowed element although its heap has room (`ExactSearch.FilteredScanIsExactIff`,
  `ExactSearch.FilteredScanCanMiss`).
- The comment in `gem5/configs/common/Simulation.py:788-791` says that guest checkpoint requests are ignored. A request
  inside a period ends the series after that period (`Checkpoints.RequestsIgnoredIff`, `Checkpoints.RequestEndsSeries`).
  The model follows the code.
- The guard before the repeated switch compares the switch period with the absolute last tick, so with fewer ticks left
  the loop overruns it (`CpuSwitching.RepeatSwitch`).
- The description of downgraders in `gem5/util/cpt_upgrader.py:56-61` does not match the readiness test
  (`Upgrader.DocumentedOrderIff`, `Upgrader.DocumentedDowngradeOrderFails`, `Upgrader.CompletesIffLeveled`). The model
  follows the code.
- Self links can satisfy the half-count check in place of links that are never bound (`PortBinder.PassedCheckIff`,
  `PortBinder.SelfLinksFoolTheCheck`).
- A message whose size reads as negative takes the whole rest of the stream, and one that the stream cuts short is handed
  over as it is (`Framing.HugeSizeTakesAll`, `Framing.CutMessageIsRead`).
- A compact timeline that does not start on a cycle can put two cycles into one column and then grows too long
  (`Timeline.CompactLineIsExactIff`, `Timeline.UnalignedCompactLineCollides`).
- Year ranges without four-digit ends are not read back (`CopyrightYears.YearsRoundTripIff`,
  `CopyrightYears.ShortRangeIsLost`). A comment that reaches the end of a file is never reported, and a C comment is
  only closed on a later line (`CopyrightBlocks.FindRuns`, `CopyrightBlocks.FindCBlocks`).

## Model

| member | source | states |
|---|---|---|
| BeamSearch.Search | include/hnswlib/hnswlib/hnswalg.h:309-440 | for every closed layer, entry point, distance and eligibility test: the result is eligible and reachable, holds at most `ef` elements, is everything findable when it holds fewer, and no neighbour of a member is missing unless `ef` better ones were kept; the walk is best-first: it always goes on at the closest queued element and ends exactly when nothing is queued or everything queued is farther away than a full result |
| BeamSearch.Expand | include/hnswlib/hnswlib/hnswalg.h:250-302 | visiting all neighbours of one candidate keeps the search invariant: everything visited is reachable, queued or expanded, and everything rejected is beaten by a full result set |
| BeamSearch.Visit | include/hnswlib/hnswlib/hnswalg.h:285-299 | one neighbour: the three outcomes (rejected, queued only, entered with the worst one popped) all keep the invariant and the worst-distance bound; it is queued exactly if a full result does not beat it |
| BeamSearch.BareStopAgrees | include/hnswlib/hnswlib/hnswalg.h:346-354 | the shorter stop test of the bare search gives the same verdict as the general one in every reachable state without deletions or filter |
| BeamSearch.StopIsSafe | include/hnswlib/hnswlib/hnswalg.h:246-250 | stopping at the bound loses nothing: the result set is full and locally optimal |
| BeamSearch.NearWalkIsFound | include/hnswlib/hnswlib/hnswalg.h:309-440 | if all elements of a walk from the entry lie within radius r, each of them is found or the result is full of elements within r |
| BeamSearch.WideBeamIsExact | include/hnswlib/hnswlib/hnswalg.h:309-440 | a beam at least as wide as the set of findable elements returns exactly that set |
| BeamSearch.KeepNearest | include/hnswlib/hnswlib/hnswalg.h:1315-1317 | popping the worst down to k leaves a set of k nearest elements |
| Neighbors.Select | include/hnswlib/hnswlib/hnswalg.h:443-483 | the pruning heuristic returns a selection: all candidates if fewer than m, otherwise pairwise unrelated ones, every candidate left out being covered by a chosen one or behind a full selection; never empty for nonempty candidates |
| Neighbors.SelectionIsUnique | include/hnswlib/hnswlib/hnswalg.h:443-483 | that description has exactly one solution, so the heuristic is determined by its inputs |
| Neighbors.SelectionOfTwo | include/hnswlib/hnswlib/hnswalg.h:443-483 | of two candidates the closer one, or of two equally close ones the one with the larger identifier, is taken, and the other one unless it is strictly closer to the first than to the query |
| Neighbors.Drain | include/hnswlib/hnswlib/hnswalg.h:517-522 | emptying the heap lists each element once, farthest first |
| HnswLinks.LayerIsClosed | include/hnswlib/hnswlib/hnswalg.h:1381-1399 | in intact lists, every layer's links stay inside the layer, so every search on it is well defined |
| HnswLinks.Offer | include/hnswlib/hnswlib/hnswalg.h:556-626 | a back link keeps the list if present, appends while there is room, and otherwise replaces the list by the heuristic's selection among all; the list stays distinct, within capacity and free of self links |
| HnswLinks.Connect | include/hnswlib/hnswlib/hnswalg.h:506-630 | connecting keeps all lists intact, gives the element exactly the selection from its candidates, farthest first, offers every chosen neighbour the link back, changes no other list on any layer, and returns the last and closest chosen neighbour |
| HnswLinks.UnlinkedIsUnreachable | include/hnswlib/hnswlib/hnswalg.h:1242-1254 | an element nobody links to yet cannot be found by a search from elsewhere, so a new element never becomes its own candidate |
| HnswLinks.CollectTwoHops | include/hnswlib/hnswlib/hnswalg.h:1008-1029 | the update's candidate set is exactly the element, its neighbours and theirs |
| HnswLinks.RelinkAround | include/hnswlib/hnswlib/hnswalg.h:1008-1068 | an update gives exactly the element's neighbours on the layer fresh lists, each the selection among the closest elements two links away, and touches nothing else |
| HnswDescent.Descend | include/hnswlib/hnswlib/hnswalg.h:1216-1238 | the loop within one layer computes the greedy walk: passes over the current list, each taking every strictly closer element, until one finds none |
| HnswDescent.GreedyEndsAtMinimum | include/hnswlib/hnswlib/hnswalg.h:1216-1238 | that walk ends, at an element none of whose neighbours is closer, and no farther than its start |
| HnswDescent.DescendTo | include/hnswlib/hnswlib/hnswalg.h:1213-1239 | the loop over the upper layers computes the walk through them from the entry point, the highest layer first |
| HnswDescent.DescentEndsAtMinimum | include/hnswlib/hnswlib/hnswalg.h:1213-1239 | that walk ends on the wanted layer, at a local minimum of the layer above, no farther than the entry point, and at the entry point itself when there is no layer above |
| HnswInsert.SearchLayer | include/hnswlib/hnswlib/hnswalg.h:225-305 | the construction search is the beam search over live elements |
| HnswInsert.FoundIsLive | include/hnswlib/hnswlib/hnswalg.h:225-305 | it returns live elements of the layer, and none if and only if every reachable element is deleted |
| HnswInsert.Wire | include/hnswlib/hnswlib/hnswalg.h:1213-1254 | insertion keeps all lists intact and wires the new element on every shared layer from that layer's own search; the highest search starts where the descent ends, each lower one at the closest neighbour chosen above it; it fails if and only if the entry is live and everything reachable from the end of the descent on the highest shared layer is deleted, and then changes nothing |
| HnswInsert.WireStep | include/hnswlib/hnswlib/hnswalg.h:1242-1254 | wiring one layer leaves the wiring of the layers above it and the lists of those below it as they were |
| HnswInsert.Rewire | include/hnswlib/hnswlib/hnswalg.h:1074-1139 | repairing wires the element afresh on each of its layers, the searches entered as in an insertion, leaves a layer untouched exactly where the search finds nobody else and enters the next one at the same place, and never changes layers above the element |
| HnswInsert.Move | include/hnswlib/hnswlib/hnswalg.h:995-1071 | a changed vector: first fresh lists around the element on each of its layers, then fresh wiring of the element; a lone element is left alone; all lists stay intact |
| Hnsw.RelabelKeepsMatch | include/hnswlib/hnswlib/hnswalg.h:971-990 | overwriting a label keeps labels and lookup table in bijection if and only if the new label is unused or already belongs to that element |
| Hnsw.ReportAnswers | include/hnswlib/hnswlib/hnswalg.h:1318-1322 | the reported pairs are the kept elements' distances and labels, each once |
| Hnsw.Index.constructor | include/hnswlib/hnswlib/hnswalg.h:89-144 | a fresh index is empty, caps M at 10000, builds with a beam at least that wide, and satisfies the invariant if and only if M is not 0 |
| Hnsw.Index.Append | include/hnswlib/hnswlib/hnswalg.h:1177-1211 | a new element gets the next identifier, its label and blank lists, and the stored elements stay in order |
| Hnsw.Index.UpdatePoint | include/hnswlib/hnswlib/hnswalg.h:995-1071 | keeps the invariant, changes one vector and moves the element in the graph |
| Hnsw.Index.MarkDelete | include/hnswlib/hnswlib/hnswalg.h:853-886 | marks exactly the labelled element, or reports an unknown label or a repeated marking and changes nothing; the invariant on deletion counters and the vacant set is kept |
| Hnsw.Index.UnmarkDelete | include/hnswlib/hnswlib/hnswalg.h:895-928 | the inverse, with the same error cases |
| Hnsw.Index.AddOrReplace | include/hnswlib/hnswlib/hnswalg.h:954-992 | each outcome exactly when it is due; when it replaces, one formerly deleted element is revived with the new vector and label and moved, and labels and lookup still match if and only if the label was not carried by another element; otherwise it adds the point |
| Hnsw.Index.AddPoint | include/hnswlib/hnswlib/hnswalg.h:1153-1267 | each outcome exactly when it is due: full index, deleted label, update of the known label with a move, no candidates, with the point stored but unlinked, or a new element wired on all shared layers; the invariant is kept except after an insertion without candidates |
| Hnsw.Index.Insert | include/hnswlib/hnswlib/hnswalg.h:1176-1267 | a new element is wired and becomes the entry point exactly if it is the highest; there are no candidates if and only if the old index, as it was before the call, leads the descent to a place from which only deleted elements can be reached, and then vector, label and lookup entry are stored, the lists are blank and the entry point is the old one |
| Hnsw.NewestIsNoBridge | include/hnswlib/hnswlib/hnswalg.h:1177-1254 | whether the new element will find a neighbour does not depend on its own presence |
| SixPoints.StageIsInserted | include/hnswlib/hnswlib/hnswalg.h:1213-1254 | six points in the plane, M = 2, inserted one by one on level 0 or with the first two on level 1: the lists after each insertion are wired from those before it as an insertion wires them |
| SixPoints.DeletedNeighboursStrand | include/hnswlib/hnswlib/hnswalg.h:1241-1254 | in the index of those six points whose first two are on level 1, with all points but the first deleted, a seventh point at (11, -5) finds no neighbour although the entry is live |
| SixPoints.FirstPointIsOrphaned | include/hnswlib/hnswlib/hnswalg.h:1400-1404 | all six on level 0: the lists stay intact, but the last insertion takes away the only inbound link of the first point |
| HnswLinks.OfferOrphansIff | include/hnswlib/hnswlib/hnswalg.h:556-626 | a back link leaves an element without inbound links if and only if the offered list holds its only one and the heuristic, on a full list that lacks the new element, drops it |
| Hnsw.Index.SearchKnn | include/hnswlib/hnswlib/hnswalg.h:1270-1324 | only elements that are not marked as deleted and whose label passes the filter are returned; a beam that is not full holds all of those within reach of the end of the descent, and any other one next to the beam is at least as far away as all of it; the answer reports distances and labels of the k closest in the beam |
| Hnsw.ConnectedSearchIsExact | include/hnswlib/hnswlib/hnswalg.h:1270-1324 | when the base layer is reachable from the start and the beam is as wide as the set of wanted elements, the kept elements are k nearest among all wanted ones |
| VisitedLists.VisitedList.constructor | include/hnswlib/hnswlib/visited_list_pool.h:16-20 | starts before its first reset with arbitrary cell contents |
| VisitedLists.VisitedList.Reset | include/hnswlib/hnswlib/visited_list_pool.h:22-28 | nothing is marked after a reset, whatever the cells held, including when the 16-bit counter wraps around |
| VisitedLists.VisitedList.Mark | include/hnswlib/hnswlib/visited_list_pool.h:10-31 | marking adds one element to the marked set |
| VisitedLists.RunSearch | include/hnswlib/hnswlib/hnswalg.h:229-283 | over any visiting order each element counts as new once, however many searches used the list before |
| BruteForce.Index.constructor | include/hnswlib/hnswlib/bruteforce.h:46-56 | an empty store of the given capacity |
| BruteForce.Index.AddPoint | include/hnswlib/hnswlib/bruteforce.h:64-83 | the contents become the old ones with the label set, or nothing changes when the store is full |
| BruteForce.Index.RemovePoint | include/hnswlib/hnswlib/bruteforce.h:86-103 | the label is removed and the store stays consistent if and only if the label was unknown or not in the last slot in use |
| BruteForce.AddedIsInsert | include/hnswlib/hnswlib/bruteforce.h:64-83 | adding is map insertion on the contents |
| BruteForce.RemovedIsDelete | include/hnswlib/hnswlib/bruteforce.h:86-103 | removing is map deletion exactly when the label is not in the last slot; otherwise the dictionary keeps it, pointing behind the slots in use |
| BruteForce.ReaddedAfterLastRemovalIsLost | include/hnswlib/hnswlib/bruteforce.h:64-103 | a label removed from the last slot and added again is in no slot that a search looks at |
| ExactSearch.Scan | include/hnswlib/hnswlib/bruteforce.h:106-135 | the heap ends as the k first elements, by distance then label, among the allowed slots within a cutoff fixed by the first allowed slots |
| ExactSearch.SmallestIsUnique | include/hnswlib/hnswlib/bruteforce.h:106-135 | the k first elements are unique |
| ExactSearch.SmallestMeans | include/hnswlib/hnswlib/bruteforce.h:106-135 | what is left out is farther away than everything chosen or, at the same distance, has a larger label |
| ExactSearch.FilteredScanIsExactIff | include/hnswlib/hnswlib/bruteforce.h:106-135 | a filtered scan answers correctly if and only if the cutoff keeps k allowed slots or all of them |
| ExactSearch.UnfilteredScanIsExact | include/hnswlib/hnswlib/bruteforce.h:106-135 | without a filter the scan is always exact and full |
| ExactSearch.FilteredScanCanMiss | include/hnswlib/hnswlib/bruteforce.h:118-131 | three slots on which a filtered scan drops an allowed slot although the heap has room |
| GroundTruth.ExactAnswer | tools/create_dataset.cpp:79-79 | the unfiltered search answers with exactly the topk nearest, ties by label |
| GroundTruth.DrainInto | tools/create_dataset.cpp:81-85 | draining from the back writes the heap in ascending order into exactly its cells |
| GroundTruth.CreateTruth | tools/create_dataset.cpp:74-86 | every row of the flat arrays is the exact answer of its query in ascending order, with its distances |
| GroundTruth.PrefixIsTrueAnswer | tools/create_dataset.cpp:78-86 | every prefix of a row is the exact answer for that smaller k |
| Floats.LabelsSurviveIff | tools/create_dataset.cpp:82-82 | all labels below n survive storage as 32-bit floats if and only if n is at most 2^24 + 1 |
| Floats.BitsReadBack | tools/check_dataset.cpp:67-67 | a 32-bit label has a non-negative single-precision bit pattern, which truncates to the float nearest to the label |
| Floats.CellsLookLike | tools/check_dataset.cpp:67-67 | from 2^23 up to 2^24 the patterns count up from 0x4B000000, and halving a number takes one off its exponent |
| GroundTruth.CountHits | src/hnsw_search.cpp:59-65 | counts the positions whose label is in the ground truth |
| GroundTruth.CalculateRecall | src/hnsw_search.cpp:25-66 | the total is the number of pairs of query and position whose label stands among the topk cells of the query or, without cells, is the query itself; it fails exactly when there is no ground truth for more than one neighbour |
| GroundTruth.RecallBound | src/hnsw_search.cpp:27-70 | the total never exceeds queries times topk, and reaches it if and only if every query found topk true neighbours |
| GroundTruth.CheckTruth | tools/check_dataset.cpp:57-83 | the checker's count is the number of exact answers' labels that stand among the first topk stored ones |
| GroundTruth.FullScoreIff | tools/check_dataset.cpp:57-85 | the check scores in full if and only if every query's exact answer is stored |
| GroundTruth.CreatedTruthScoresInFull | tools/check_dataset.cpp:57-85 | a ground truth made by the creator whose labels survived scores in full for every topk up to the stored one |
| GroundTruth.NearestScoresInFull | src/hnsw_search.cpp:25-72 | without ties in distance, any search that returns a nearest set scores in full |
| GroundTruth.WrittenTruthScoresInFull | tools/check_dataset.cpp:57-85 | a file whose neighbour cells are the float patterns of the creator's labels reads back and scores in full, for at most 2^24 + 1 train points |
| GroundTruth.VectorIsRow | tools/create_dataset.cpp:79-79 | row i of a block holds the cells from i times the dimension on |
| GroundTruth.CreateAndCheck | tools/check_dataset.cpp:35-85 | the whole way on any vectors: created, stored as floats, written, read back and checked with the vectors of the file; the rows stored are the exact answers by the metric on the rows of the blocks, and the count is tests times topk for at most 2^24 + 1 train points |
| DatasetFile.WriteBin | utils/dataset.cpp:54-75 | writes the header and the four blocks, in this order, as little-endian words |
| DatasetFile.ReadBin | utils/dataset.cpp:33-47 | reads the header and the blocks its sizes describe, and fails on a file that ends early |
| DatasetFile.FileLayout | utils/dataset.cpp:66-74 | the bytes of a written file: the four sizes and the cells of the four blocks, four bytes each, the lowest first |
| DatasetFile.FileReadsBack | utils/dataset.cpp:34-74 | a written dataset reads back exactly |
| DatasetFile.OnlyWholeFilesAreRead | utils/dataset.cpp:33-47 | bytes behind the last block change nothing, and a file cut short anywhere is not read |
| PipeView.RunConserves | gem5/util/o3-pipeview.py:212-277 | over a whole run, what was drained plus what waits is exactly what arrived, as multisets |
| PipeView.RunKeepsOrder | gem5/util/o3-pipeview.py:212-277 | if no instruction is overtaken by more than `min` earlier arrivals, the drained part is sorted and nothing waiting precedes it |
| PipeView.OutputIsSortedPermutation | gem5/util/o3-pipeview.py:212-277 | the printed instructions are exactly the arrivals within the bounds on number and fetch tick, and retired if asked for, each as often as it arrived; under the bounded-displacement assumption they are sorted |
| PipeView.OutputIsStable | gem5/util/o3-pipeview.py:212-277 | instructions with the same sequence number come out in the order in which they arrived, whatever the thresholds |
| PipeView.BoundIsTight | gem5/util/o3-pipeview.py:45-50 | for all thresholds one place more breaks the order: there are arrivals overtaken by at most min + 1 that come out unsorted |
| PipeTrace.Viewer.constructor | gem5/util/o3-pipeview.py:45-66 | starts with nothing queued and nothing printed |
| PipeTrace.Viewer.PrintInsts | gem5/util/o3-pipeview.py:231-277 | sorts in place and pops from the front until `lower` instructions are left, printing those that pass |
| PipeTrace.Viewer.QueueInst | gem5/util/o3-pipeview.py:212-227 | queues and drains at the high-water mark, as the functional run does |
| PipeTrace.Viewer.ProcessTrace | gem5/util/o3-pipeview.py:94-207 | a whole trace prints the run of the instructions as they were at the retire lines, in order, from the first fetch at or behind the first line in range up to the first fetch too far behind the last tick or number |
| PipeTrace.SkipToStart | gem5/util/o3-pipeview.py:94-126 | stops at the first fetch at or behind the first line in range, or at the end |
| PipeTrace.QueuedInstIsLatest | gem5/util/o3-pipeview.py:155-193 | a queued instruction holds, for each stage, the tick of the latest line for it, for a store's completion the one that the latest retire line carries if these are asked for, and the number of the latest fetch; 0 where no line speaks of it |
| Timeline.LastTick | gem5/util/o3-pipeview.py:340-352 | the largest of the stages' ticks |
| Timeline.TickOnExactlyOneLine | gem5/util/o3-pipeview.py:354-378 | every tick from the fetch to the last event falls into the window of exactly one line, in both forms |
| Timeline.ColumnIsCycleModWidth | gem5/util/o3-pipeview.py:380-381 | the column of a tick is its cycle modulo the width |
| Timeline.RankIsAlphabetical | gem5/util/o3-pipeview.py:387-387 | stages at the same place are sorted by their names |
| Timeline.Events | gem5/util/o3-pipeview.py:374-387 | a line's events are exactly the nonzero stages in its window, in the order of their offsets |
| Timeline.DrawLine | gem5/util/o3-pipeview.py:388-411 | the loop draws dots up to each event's column, its mark, and dots up to the width |
| Timeline.LineLength | gem5/util/o3-pipeview.py:388-411 | a line is never shorter than the width, and exactly as long if and only if no two marks share a column |
| Timeline.PrintInst | gem5/util/o3-pipeview.py:337-416 | all lines of an instruction; fails exactly when every stage tick is zero |
| Timeline.ColumnsTellCyclesApart | gem5/util/o3-pipeview.py:369-411 | two ticks on a line share a column only if they share a cycle, unless one lies in the one cycle of a compact line that wraps into the column of the fetch |
| Timeline.TimelineIsExact | gem5/util/o3-pipeview.py:337-416 | for stages in different cycles, none in the wrapping cycle of a compact line: every line has `width` cells, and a stage's mark stands on the one line whose window holds its tick, in the column of its cycle, and nowhere else |
| Timeline.CompactLineIsExactIff | gem5/util/o3-pipeview.py:369-411 | a compact line has `width` cells if and only if no drawn stage lies in that cycle; otherwise it is longer |
| Timeline.AlignedStaysInLine | gem5/util/o3-pipeview.py:372-373 | no stage does when the fetch starts a cycle |
| Timeline.UnalignedCompactLineCollides | gem5/util/o3-pipeview.py:369-411 | for every width and every cycle of more than one tick, an instruction whose compact line puts two cycles into one column and is longer than the width |
| Varint.EncodeVarint | gem5/util/protolib.py:147-159 | writes the base-128 encoding, low groups first |
| Varint.DecodeVarint | gem5/util/protolib.py:100-128 | the reading loop as a function of the bytes, including end of file and too many bytes |
| Varint.EncodedLength | gem5/util/protolib.py:153-159 | the encoding fits into n bytes if and only if the value is below 128^n |
| Varint.DecodeOfEncode | gem5/util/protolib.py:100-159 | decoding an encoding with anything behind it gives the value modulo 2^32 below 2^63, its sign-extended form up to ten bytes, and an error beyond, using exactly the encoding's bytes |
| Varint.DecodeMeans | gem5/util/protolib.py:112-128 | on any bytes: the seven-bit groups up to the first byte without the continuation bit, taken modulo 2^32 and made negative from 2^63 on; an end of file without such a byte; an error if ten bytes go on |
| Varint.EncodedIsBase128 | gem5/util/protolib.py:153-159 | all bytes of an encoding but the last have the continuation bit, and their groups, lowest first, are the value |
| Varint.DecodeIsBounded | gem5/util/protolib.py:112-128 | on every byte stream the decoder stops within ten bytes with a value in [-2^32, 2^32), an end of file or an error |
| Framing.EncodeMessage | gem5/util/protolib.py:162-168 | appends one length-prefixed message |
| Framing.FrameReadsBackIff | gem5/util/protolib.py:131-168 | a framed payload comes back whole, with exactly the rest left, if and only if its length is between 1 and 2^32 - 1 |
| Framing.DecodeAll | gem5/util/protolib.py:131-144 | the reading loop gives the messages up to the first failed attempt and what is left of the stream, or the messages up to a payload that does not parse |
| Framing.StreamRoundTrip | gem5/util/protolib.py:131-168 | any sequence of framable messages that the serialiser inverts is read back and the stream is used up |
| Framing.EmptyMessageEndsDecoding | gem5/util/protolib.py:138-139 | a zero-length message ends decoding at that point, whatever follows |
| Framing.BadMessageFails | gem5/util/protolib.py:140-142 | a message that does not parse fails, after all messages before it |
| Framing.CutMessageIsRead | gem5/util/protolib.py:140-140 | a message cut short by the end of the stream is handed over as it is |
| Framing.HugeSizeTakesAll | gem5/util/protolib.py:137-141 | a size of 2^63 or more takes the whole rest of the stream |
| Framing.BadSizeStops | gem5/util/protolib.py:136-144 | decoding ends at a size of more than ten bytes, of which ten are used up, and at one that the stream cuts short |
| DepTrace.PrintRecord | gem5/util/decode_inst_dep_trace.py:167-215 | the piecewise writer produces the record's line |
| DepTrace.LineReads | gem5/util/decode_inst_dep_trace.py:167-215 | the format of a line: number, counter, weight, type, optional address, size and flags, and delay behind commas, then the two dependency lists, each behind a colon |
| DepTrace.ParseLine | gem5/util/encode_inst_dep_trace.py:158-206 | the parser as a function of the line, including every way it fails |
| DepTrace.LineParsesIff | gem5/util/encode_inst_dep_trace.py:158-159 | a line must have exactly three parts between colons |
| DepTrace.FieldsParseIff | gem5/util/encode_inst_dep_trace.py:161-191 | the fields parse if and only if the numbers fit, the type is valid and there are at least five fields, or eight for a load or store |
| Text.NumeralIff | gem5/util/encode_inst_dep_trace.py:161-163 | a numeral is digits with single underscores between them |
| DepTrace.ParsedLineSeesFields | gem5/util/encode_inst_dep_trace.py:158-206 | from a printed line the parser sees exactly the printed fields and both dependency lists, of any length |
| DepTrace.TextRoundTripIff | gem5/util/encode_inst_dep_trace.py:157-206 | printing and parsing gives the record back, with its defaults filled in, if and only if it is valid and its memory fields are present exactly for loads and stores |
| TraceFiles.DecodeTrace | gem5/util/decode_inst_dep_trace.py:163-218 | the decoding script prints every message of a stream, up to one that does not parse, and counts all of them, those with order and those with register dependencies |
| TraceFiles.EncodeTrace | gem5/util/encode_inst_dep_trace.py:157-209 | the encoding script frames the records of all lines, or fails if one does not parse |
| TraceFiles.TextLines | gem5/util/decode_inst_dep_trace.py:163-215 | a printed text has one line per record |
| TraceFiles.ConversionsRoundTrip | gem5/util/decode_inst_dep_trace.py:163-215 | for a serialiser that inverts itself on the records that occur, binary to text to binary to text: printable records come back with defaults filled in, and the second text is the first |
| Upgrader.Process | gem5/util/cpt_upgrader.py:257-269 | the apply loop ends with the outcome of the rounds, and its order of updates is one in which the rounds may run |
| Upgrader.RunLogIsOrdered | gem5/util/cpt_upgrader.py:257-269 | in every such order each tag runs at most once and after every upgrade it depends on |
| Upgrader.LogListsRan | gem5/util/cpt_upgrader.py:257-269 | every such order lists exactly the pending tags that are not left over |
| Upgrader.RunLogReplays | gem5/util/cpt_upgrader.py:150-159 | in every such order each downgraded tag is present when its turn comes, so no removal fails, and the updates one by one lead to the tags of the outcome |
| Upgrader.DoneMeansUpToDate | gem5/util/cpt_upgrader.py:257-269 | a completed run ends with the initial and upgrader tags minus the downgrader tags, whatever order each round takes, and then nothing is left to apply |
| Upgrader.AbortsIffCycle | gem5/util/cpt_upgrader.py:258-263 | when pending tags depend on upgrades only, the run aborts if and only if some nonempty set of them has each member depending on a member |
| Upgrader.CompletesIffLeveled | gem5/util/cpt_upgrader.py:258-269 | with downgraders too, the run completes if and only if the pending tags can be put into levels by what they wait for |
| Upgrader.RemovalIsNotEarlier | gem5/util/cpt_upgrader.py:144-148 | a tag that runs finds every downgraded tag it depends on still present: its removal is pending and never in an earlier round |
| Upgrader.DocumentedOrderIff | gem5/util/cpt_upgrader.py:56-61 | that a tag runs after the removal of the downgraded tags it depends on is guaranteed, over all orders within rounds, if and only if no tag that runs depends on a downgraded tag |
| Upgrader.DocumentedOrderOfPending | gem5/util/cpt_upgrader.py:56-61 | read off the pending tags: it is guaranteed if none of them depends on a downgraded tag, and for a run that completes only then |
| Upgrader.DocumentedDowngradeOrderFails | gem5/util/cpt_upgrader.py:56-61 | a documented use of downgraders, a tag that depends on the removed one and on an upgrade, aborts |
| UpgraderFiles.Register | gem5/util/cpt_upgrader.py:96-142 | the tables name the latest file of each tag and version; loading stops exactly at a file without either function |
| UpgraderFiles.ChainLegacy | gem5/util/cpt_upgrader.py:171-175 | versions 3, 4, ... up to the first gap depend on their predecessors only and no other list changes; fails exactly when version 3 lacks version 2 |
| UpgraderFiles.Forward | gem5/util/cpt_upgrader.py:178-185 | the tag joins the lists of exactly the tags it forwards to, or fails exactly at an unknown one |
| UpgraderFiles.ResolveAndAudit | gem5/util/cpt_upgrader.py:177-192 | every tag ends up with its own dependencies and those who forward to it; fails if and only if some tag forwards to or depends on an unknown tag |
| UpgraderFiles.LoadAll | gem5/util/cpt_upgrader.py:165-192 | a tag depends on its file's list, or on its predecessor in the legacy chain up to the first missing version, and on everybody who forwards to it; upgrade and downgrade tags are those of the files of each kind; loading fails if and only if a file has neither function, version 3 lacks version 2, or a tag forwards to or depends on an unknown tag; the rules are audited even though lists grow after their audit |
| Machine.Sim.Simulate | gem5/src/sim/simulate.cc:189-249 | the simulator advances by the requested ticks or to the next guest event before them, and reports which |
| Checkpoints.RunTo | gem5/configs/common/Simulation.py:252-256 | running to a tick, skipping guest requests: either the tick is reached exactly, with all events before it over, or the clock stands at the first exit before it |
| Checkpoints.ScriptCheckpoints | gem5/configs/common/Simulation.py:246-283 | the checkpoints added are `when`, `when + period`, ... without gaps, up to a count determined by the guest's events still to come, and none when the start lies behind `when`; the run ends at the last one when no more were wanted or a request fell into the last period, else at the last tick or the first event before it when the next one lies behind, else at the exit that came first, and reports that cause |
| Checkpoints.RequestsIgnoredIff | gem5/configs/common/Simulation.py:265-281 | guest requests leave the series as long as promised if and only if none falls into a period before the last |
| Checkpoints.RequestEndsSeries | gem5/configs/common/Simulation.py:265-281 | one request in the first period ends the series after two checkpoints although at least three were due |
| Checkpoints.SeriesIsBounded | gem5/configs/common/Simulation.py:265-281 | no more than the maximum beyond the first, and none beyond the last tick |
| Checkpoints.BenchCheckpoints | gem5/configs/common/Simulation.py:286-303 | one checkpoint per guest request still to come, in order, up to the maximum and the last tick; the run ends at the last one wanted, at the first exit, or at the last tick, and reports that cause; none if that tick has passed |
| CpuSwitching.SwitchCpus | gem5/src/python/m5/simulate.py:351-414 | a switch succeeds if and only if every old CPU runs and every new one is idle and not among the old; then exactly the new ones replace the old |
| CpuSwitching.RepeatSwitch | gem5/configs/common/Simulation.py:453-471 | switches every freq ticks back and forth between the same two groups and ends at most freq ticks after the last switch: at the last tick, or at the next guest event, as its cause says; it stays within the last tick if freq ticks are left at the start, and otherwise overruns it and ends rejected unless the guest stops it |
| CpuSwitching.AlternationIsChained | gem5/configs/common/Simulation.py:463-468 | swapping the pairs makes each switch name as old exactly those the previous one switched in |
| CpuSwitching.FirstSwitches | gem5/configs/common/Simulation.py:737-773 | restore, fast-forward and standard switches lead through their groups one after the other, each at the tick to which the guest's events let the simulator come |
| CpuSwitching.FirstTicks | gem5/configs/common/Simulation.py:737-773 | those ticks: 10000 ticks in, or at the next guest event when fast-forwarding or warming up, or the given number of ticks after the first standard switch |
| CpuSwitching.CheckOptions | gem5/configs/common/Simulation.py:482-735 | the options pass if and only if they make sense together |
| CpuSwitching.MainPart | gem5/configs/common/Simulation.py:787-814 | periodic checkpoints, repeated switching or checkpoints at the guest's request, whichever the options choose, with their ticks, their end and their cause |
| CpuSwitching.Run | gem5/configs/common/Simulation.py:474-820 | for every option combination: refused exactly when fatal; otherwise no switch ever fails, each names as old exactly the CPUs running, and the run is the first switches at their ticks, then the main part with its switches and checkpoints, then the checkpoint at the end |
| TesterTree.NumTesters | gem5/configs/example/memtest.py:150-161 | the multiplier loop computes the number of testers below a spec |
| TesterTree.ScalePrototypes | gem5/configs/example/memtest.py:236-260 | one prototype per level; n levels out, size, associativity and miss registers are scaled by the product of n cache counts and latency by 10^n, and clusivity and clean writeback alternate |
| TesterTree.SubsystemsAreProduct | gem5/configs/example/memtest.py:280-329 | a level has the product of the outer cache counts in subsystems |
| TesterTree.Builder.constructor | gem5/configs/example/memtest.py:279-280 | starts with no subsystem on any level |
| TesterTree.Builder.MakeLevel | gem5/configs/example/memtest.py:285-347 | the recursion creates exactly the testers and subsystems of its subtree, gives every subsystem a name nobody else has, and never runs out of prototypes |
| TesterTree.Build | gem5/configs/example/memtest.py:350-351 | the whole tree has numtesters testers and the product of the outer counts in subsystems on each level |
| PortBinder.BindPorts | gem5/configs/example/read_config.py:333-379 | the pass over any order makes the greedy selection, or fails on the half count |
| PortBinder.EndsAreDisjoint | gem5/configs/example/read_config.py:364-374 | no port index is used twice; in particular at most one direction of a link is made |
| PortBinder.IndicesInOrder | gem5/configs/example/read_config.py:364-374 | each port's indices are used as 0, 1, 2, ... without gaps |
| PortBinder.HalfCountIff | gem5/configs/example/read_config.py:376-379 | without self links the half-count check passes if and only if every link is made, once |
| PortBinder.PassedCheckIff | gem5/configs/example/read_config.py:376-379 | when the check passes, every listed link was made if and only if no port index is linked to itself |
| PortBinder.SelfLinksFoolTheCheck | gem5/configs/example/read_config.py:376-379 | four self links make the check pass while two crossed links, on ports without index gaps, stay unbound |
| PortPlans.MadeIffNext | gem5/configs/example/read_config.py:364-374 | an entry of the list is made if and only if at each of its two ports as many ends were used before as its index says |
| PortPlans.BindsIffPlan | gem5/configs/example/read_config.py:354-379 | greedy is as good as any choice: without self links the check passes if and only if one direction of every link can be picked so that at every port the indices come as 0, 1, 2, ... in the order of the list |
| MemoryMerge.CopyPages | gem5/util/checkpoint_aggregator.py:107-114 | copies the claimed pages, or what there is of them |
| MemoryMerge.BytesAreRelocated | gem5/util/checkpoint_aggregator.py:99-114 | each byte of a checkpoint's pages stands in the merged image behind the pages of all earlier ones |
| MemoryMerge.RegionsAreDisjoint | gem5/util/checkpoint_aggregator.py:99-114 | the regions of different checkpoints do not overlap |
| MemoryMerge.AddressFollowsByte | gem5/util/checkpoint_aggregator.py:72-78 | a relocated address points at the byte the old one pointed at |
| MemoryMerge.RenamedIsInjective | gem5/util/checkpoint_aggregator.py:68-70 | renaming with numbers of equal length determines section and number |
| MemoryMerge.NamesNeverCollide | gem5/util/checkpoint_aggregator.py:59-70 | renamed cpu sections of different checkpoints or names differ |
| MemoryMerge.MergedNamesDistinct | gem5/util/checkpoint_aggregator.py:61-79 | all merged cpu sections have distinct names |
| MemoryMerge.Pad | gem5/util/checkpoint_aggregator.py:123-131 | pads with whole pages of the character 0, as few as reach the memory size |
| MemoryMerge.HasCpuIff | gem5/util/checkpoint_aggregator.py:66-67 | the search finds the name if and only if it contains the three letters |
| MemoryMerge.Aggregate | gem5/util/checkpoint_aggregator.py:58-140 | every cpu section of every checkpoint is there, renamed, its address moved and its other entries kept, and nothing else; image, page count and latest tick of the whole merge; the range is the merged pages or the memory size rounded up to a page, the image is the merged one followed by that many characters 0, and as long as the range when no image is short |
| GpuPorts.GroupCount | gem5/configs/example/apu_se.py:481-483 | the rounded-up quotient is the number of groups |
| GpuPorts.SharedPorts | gem5/configs/example/apu_se.py:955-962 | the counter gives unit i the port of group i div size and ends behind the last group |
| GpuPorts.AssignPorts | gem5/configs/example/apu_se.py:924-977 | unit, instruction, scalar and processor ports are consecutive blocks that end at the last port; shared ports follow the group that the translation wiring picks by division |
| GpuPorts.SharedTlbIsInjective | gem5/configs/common/GPUTLBConfig.py:261-278 | no two units share a port of a coalescer and every coalescer picked exists |
| GpuPorts.WireDataTlbs | gem5/configs/common/GPUTLBConfig.py:232-260 | one wire per unit and lane, as the division says; fails exactly for one unit in the two-unit configuration |
| GpuPorts.DataTlbIsInjective | gem5/configs/common/GPUTLBConfig.py:232-260 | every pair of coalescer and port is used once, the coalescer exists and its port is below the number of units that share it, for any number of units and buffers |
| GpuPorts.ConfigurationsMean | gem5/configs/common/GPUTLBConfig.py:126-133 | the four configurations: a buffer for each of the 64 lanes of each unit, one for all units, one per unit, one per pair of neighbouring units |
| CopyrightYears.DateStr | gem5/util/find_copyrights.py:195-220 | prints the maximal runs of the set; fails exactly on the empty set |
| CopyrightYears.RunIsMaximal | gem5/util/find_copyrights.py:207-218 | the years before and after a printed run are not in the set |
| CopyrightYears.PrintedLooksLike | gem5/util/find_copyrights.py:200-220 | single years and ranges with a dash, separated by commas |
| CopyrightYears.ProcessDates | gem5/util/find_copyrights.py:115-132 | the union of what each item stands for; items that are neither a range nor a number add nothing |
| CopyrightYears.AllYearsAre | gem5/util/find_copyrights.py:116-132 | a year is read if and only if some item stands for it |
| CopyrightYears.RangeMeans | gem5/util/find_copyrights.py:112-124 | four digits, a dash and four digits, with blanks around the dash and anything behind, stand for all years between |
| CopyrightYears.YearMeans | gem5/util/find_copyrights.py:125-130 | an item without a dash stands for its number, or for nothing |
| CopyrightYears.ItemReadsBackIff | gem5/util/find_copyrights.py:112-130 | a printed run reads back in full if and only if it is one year or has four-digit ends |
| CopyrightYears.YearsRoundTripIff | gem5/util/find_copyrights.py:115-220 | reading the printed set back never adds a year, and gives the same set if and only if neighbouring years have four digits |
| CopyrightYears.ShortRangeIsLost | gem5/util/find_copyrights.py:112-130 | the years 999 and 1000 are lost |
| CopyrightBlocks.FindRuns | gem5/util/find_copyrights.py:22-50 | in line-comment languages the blocks are exactly the maximal comment runs above the first stopping line |
| CopyrightBlocks.FindCBlocks | gem5/util/find_copyrights.py:52-106 | in C-like languages the blocks are exactly the C comments and slash-comment runs, split at new notices, above the first line of code; the assertions on mode and start never fail, the one on mixed comments fails exactly at the first line with both marks outside a C comment, if the walk gets there |
| CopyrightBlocks.Find | gem5/util/find_copyrights.py:15-17 | the search finds the first occurrence of a mark, and none only if there is none |
| CopyrightBlocks.CommentIff | gem5/util/find_copyrights.py:13-34 | a line is a comment if its first character behind white space is a hash mark, or in Lisp if it has a semicolon, unless it is a first line with an interpreter or editor mode |
| CopyrightBlocks.SlashLineIff | gem5/util/find_copyrights.py:76-84 | a slash comment has nothing but white space before its first slashes, and opens no C comment |
| CopyrightBlocks.StartsNoticeIff | gem5/util/find_copyrights.py:86-88 | a notice starts where only white space stands between the first slashes and the word |
| CopyrightBlocks.FirstLineIsPassed | gem5/util/find_copyrights.py:24-66 | a first line with an interpreter or editor mode is in no block |
| CopyrightBlocks.LanguagesAre | gem5/util/find_copyrights.py:22-61 | which languages have which comments |
| CopyrightBlocks.FindCopyrightBlocks | gem5/util/find_copyrights.py:20-109 | the same over all languages, by the family of their comments; unknown ones are refused, and all blocks found are listed from the top down without overlap |
| LogRoll.Fill | gem5/util/logroll.py:83-89 | after the first loop the buffer is full or the input has ended, and every dump so far was right |
| LogRoll.Roll | gem5/util/logroll.py:75-94 | at every point where the program waits, a dump prints exactly the last n lines in order, or all lines when n is not positive |

## Left out

- hnswlib: saving, loading and resizing an index, locks and concurrent access, custom stop conditions, the memory layout of elements, and search metrics.
- hnswlib: the L2 and inner-product kernels and their vectorised forms; a distance is any function to the reals, and rounding of distances is not modelled.
- Hnsw.Index.constructor: for M = 0, where the lists of the upper layers have no room at all, it does not give the invariant, so that nothing is said about the operations of such an index.
- Hnsw.Index.SearchKnn: for k = 0 and a search width of 0 the model returns nothing at once, where the source starts a search with an empty result heap.
- HnswLinks.RelinkAround: takes the update probability to be 1, the only value the source passes.
- DatasetFile.ReadBin: reports a short file as an error, where the source leaves memory uninitialised; block sizes are unbounded, where the source multiplies 32-bit integers.
- DepTrace.ParseLine: digits and blanks are those of ASCII, where the source's conversion also takes others.
- CopyrightYears.ProcessDates: digits and blanks are those of ASCII here, too.
- Upgrader.Process: takes rules in which no tag is both added and removed; two files with one tag and different functions, which the source accepts, are not modelled.
- Floats.BitsReadBack: negative numbers, fractions and labels of 2^31 and more are not modelled.
- CopyrightBlocks.FindCopyrightBlocks: the test for an editor mode line is a parameter.
- MemoryMerge.Aggregate: leaves out the process number entry, the sections other than cpu sections, and compression.
- Checkpoints.ScriptCheckpoints: leaves out the instruction-count mode and simpoints.
- CpuSwitching.Run: with the simpoint options the main part is left out, and instruction counts end a stretch only as guest events do.
- CpuSwitching.SwitchCpus: leaves out memory modes and the test that a CPU supports taking over.
- UpgraderFiles.LoadAll: leaves out the type checks on what a file defines, and the conversion of old version numbers to tags.
- TesterTree.Build: leaves out crossbars, memory controllers and the parameters of testers.
- GpuPorts.WireDataTlbs: leaves out the second and third level of translation buffers.
- PipeTrace.Viewer.ProcessTrace: a trace line is given by its fields; header, colours, the sign that tells abandoned instructions from completed ones, addresses and disassembly are left out.
- Framing.DecodeAll: protocol buffer serialisation is any pair of functions, faithful where a round trip is stated on the messages that occur; file headers and the magic number are left out.
- LogRoll.Roll: dumps are stated at the points where the program waits for a line, not between two statements.
- Result parsing scripts, sweep scripts, argument parsing, network, cache and memory configuration scripts, and the simulator itself: the scripts pass values on to other programs or to simulator objects, which are not part of this model.
