# Verified models of vLLM algorithms

These Dafny modules model nine pieces of vLLM that hold real algorithms with state, and prove what each of them is
for. Where the code does not meet what its comments, names or callers promise, the model keeps the code as it is,
states the condition under which the promise holds, and has a lemma at an input for which it does not.

| Part | Modules |
|---|---|
| Build-time report over a ninja log: reading the log, sharing elapsed time among running tasks | `NinjaTarget`, `NinjaLogSpec`, `NinjaLog`, `NinjaIntegral`, `NinjaSweep`, `NinjaSummary`, `NinjaReport` |
| Signatures of graph partitions | `PartitionSpec`, `PartitionSignature` |
| Memory planning over wrapper lines | `MemoryPlanSpec`, `MemoryPlan` |
| Chunked virtual-memory allocator (ROCm) against a driver that may fail | `ChunkLayout`, `Extension`, `Driver`, `CumemAllocator` |
| Flat log-probability container | `LogprobDict`, `PythonList`, `FlatLogprobsSpec`, `FlatLogprobs` |
| Module tree printer with collapsed layers | `Numerals`, `PyIntegers`, `IndexRanges`, `Splitting`, `ModuleTree`, `PrintedTree`, `PrintedText`, `ModulePrinter` |
| Scalar type ids, and the largest value of a small float format | `Bits`, `ScalarTypes`, `FloatFormats` |
| Bad-words logits processor | `BadWordsSpec`, `BadWords` |
| Merging of streamed outputs | `OutputMergeSpec`, `OutputMerge` |
| Lockstep chunks of data-parallel ranks | `DPChunkingSpec`, `DPChunking` |

Code that updates objects is modelled by classes and methods with loops, each proved against a specification on
values; the theorems are lemmas about those specifications. `Wrappers` and `Sequences` hold what the parts share. Floats of the Python code are exact reals. The CUDA
driver, torch inductor's scheduler and the sampler are abstract: the driver is a class whose faults are an arbitrary
function, the scheduler is a record of names, and the sampler is the list of tokens that it would like to take.

## What turned out not to hold

Each point names the lemma with the condition, which is exact (an if-and-only-if) unless said otherwise, and then the
lemma or method with an input that fails.

- The build report takes a negative start for "no start seen yet": the computed earliest start is right if and only
  if no start is negative or the last entry listed is the earliest (`NinjaSummary.EarliestExact`,
  `NegativeStartForgotten`). The latest end starts from zero and is right if and only if some end is not negative
  (`NinjaSummary.LatestExact`, `NegativeEndIsZero`).
- The code's own comment says that a buffer without allocation is not taken as an input. It is taken if and only if
  the partition frees one that has a node and that it did not create, or touches an allocated name whose real name
  has no allocation (`PartitionSpec.NoneLayoutTakenExact`); the forward run finds really everything if and only if,
  besides, every such name that is used is live at the front and not freed before
  (`PartitionSpec.FindsEverythingExact`, `NoneLayoutInputIsMissing`).
- The final assertion of the memory planner does not show that the lines were well nested. A list that passes it is
  well nested if and only if no subgraph is entered while more have been left than entered
  (`MemoryPlanSpec.WellNestedExact`, `NotWellNestedYetComplete`).
- Rounding the base chunk size up to the granularity can wrap around 64 bits; the chunk size is then zero and the
  next line divides by it. The number of chunks can wrap as well; the allocation then returns a pointer to a range
  with no chunk mapped (`ChunkLayout.ComputeLayout`, `ChunkSizeWraps`, `ChunkCountWraps`).
- The allocator's global error code is checked after a successful call as well. An old error that nobody has
  cleared makes the next wake-up fail after its first chunk, whose handle is never released
  (`CumemAllocator.Allocator.CreateAndMap`, `PendingErrorLeaks`).
- A slice with a negative step reads like the slice of the list only if it selects one position or only empty ones
  (`FlatLogprobsSpec.SliceExact`, `ReversedSlice`).
- Signatures tell subtrees apart if no name followed by a colon begins another name. For names in which no line break
  follows a colon this is exact; for other names it is sufficient (`ModuleTree.SignatureExact`, `ColonCollides`).
  Layers that collide are printed as one although they differ (`PrintedTree.CollisionIsShownWrongly`).
- A numeral such as "007" is printed as "7": a name is shown as it is if and only if it is no numeral or is written
  without plus sign, underscore, leading zero or negative zero (`PyIntegers.ShownAsItIs`, `PrintedTree.ListedExact`,
  `SevenIsNotPlain`).
- The word built for the largest value of a float format is wrong for IEEE formats with one exponent bit, and is
  no word at all for formats with NaNs at the top and no mantissa bits (`FloatFormats.FloatingPointMaxExact`,
  `WrongWords`).
- Adding minus infinity masks a finite logit but turns plus infinity into NaN (`BadWordsSpec.MaskedExact`,
  `InfinityEscapes`).
- Merging b and then c is not always the same as merging what b and c merge into: the second way can fail an
  assertion where the first does not. It succeeds if and only if the first does and every index that c brings
  logprobs for had logprobs from its first completion on in b and c alone; the results are then equal
  (`OutputMergeSpec.FoldAssociative`, `GroupingFails`).
- A rank without tokens has no row for the one dummy token that all ranks expect of it
  (`DPChunking.RowsAreExpected`, `DPChunking.ForwardImplChunked`, `NoRowForDummy`).

## Model

| member | source | states |
|---|---|---|
| NinjaIntegral.WeightedGridFree | vllm/tools/report_build_time_ninja.py:201-206 | The weighted duration of a target, written as an integral of 1/(number running) over elementary slots, is the same on every grid that holds all start and end times; so it depends neither on the order of the entries nor on how the sort breaks ties. |
| NinjaIntegral.WeightedBound | vllm/tools/report_build_time_ninja.py:74-89 | On any grid the integral of a target lies between zero and its duration, which is the assertion about weighted durations without its epsilon. |
| NinjaIntegral.SharesAddUp | vllm/tools/report_build_time_ninja.py:253-259 | Conservation: the weighted durations of all targets add up exactly to the time during which at least one target runs. |
| NinjaSweep.Sweep | vllm/tools/report_build_time_ninja.py:230-256 | The event loop over sorted events fails with a KeyError if and only if some target ends before it starts; otherwise it ends with nothing running, sets every weighted duration to the integral, and its total is the busy time. |
| NinjaSummary.SortedEventsAreSchedule | vllm/tools/report_build_time_ninja.py:218-228 | A stable sort by time and action name puts a target's start before its own stop exactly when it does not end before it starts, and keeps each event once. |
| NinjaSummary.EarliestExact | vllm/tools/report_build_time_ninja.py:209-214 | The computed earliest start is the least start if and only if no start is negative or the last entry listed has the least start. |
| NinjaSummary.NegativeStartForgotten | vllm/tools/report_build_time_ninja.py:209-214 | Starts -5 and 3, in this order, give the earliest start 3. |
| NinjaSummary.LatestExact | vllm/tools/report_build_time_ninja.py:210-216 | The computed latest end is the greatest end if and only if some end is not negative. |
| NinjaSummary.NegativeEndIsZero | vllm/tools/report_build_time_ninja.py:210-216 | One entry with the end -1 gives the latest end 0. |
| NinjaSummary.LengthIsBusyPlusIdle | vllm/tools/report_build_time_ninja.py:220-220 | For starts that are not negative, the reported length is the busy time plus the idle gaps between the first start and the last end. |
| NinjaSummary.SummarizeEntries | vllm/tools/report_build_time_ninja.py:198-259 | On distinct target objects the report is an IndexError for no entries and a KeyError exactly if some target ends before it starts; otherwise every weighted duration is the integral on every grid and within its bounds, the total is the busy time, the CPU time is the sum of all ends less the sum of all starts, and with starts that are not negative the total is the length less the idle gaps. |
| NinjaLogSpec.BuildStartIsLast | vllm/tools/report_build_time_ninja.py:124-143 | The line at which the collected build starts is the last line that began a build (an end before the last end seen, or a repeated command with another interval); no line after it begins one. |
| NinjaLogSpec.SameHashSameInterval | vllm/tools/report_build_time_ninja.py:133-143 | All records of the collected build that share a command hash have the same start and end. |
| NinjaLogSpec.EndsNeverGoDown | vllm/tools/report_build_time_ninja.py:124-131 | The ends of the collected build's records never go down. |
| NinjaLogSpec.FirstsAscend | vllm/tools/report_build_time_ninja.py:144-148 | The hashes stand in the order of their first records, which is the order in which the dictionary lists its targets. |
| NinjaLogSpec.NamesAccountForAll | vllm/tools/report_build_time_ninja.py:144-147 | Every name logged since the build start is in the names of exactly one hash, as often as it was logged. |
| NinjaLog.RepeatedCommand | vllm/tools/report_build_time_ninja.py:132-143 | Comparing a record with the one collected target of its hash decides whether any earlier record of the build conflicts with it. |
| NinjaLog.ReadTargets | vllm/tools/report_build_time_ninja.py:104-148 | The reader fails on a wrong header or on a number that cannot be read, and otherwise returns distinct targets, one for each hash since the build start in order of first appearance, each with the interval of its first record, whose milliseconds are a thousand times the target's seconds, and all its names in order; unless everything is shown, the targets come out in non-decreasing end order. |
| NinjaReport.Report | vllm/tools/report_build_time_ninja.py:104-259 | From log text to totals: which logs fail and with which error of the reader or the sweep, and for all others that every target of the last build gets its integral and the total is the busy time of the last build. |
| PartitionSpec.InputsExact | vllm/vllm/env_override.py:226-254 | A partition's inputs are exactly the names that its nodes' allocated reads and writes go by, as far as no node of it creates them, and the names with a node that it uses last and does not create; it frees exactly those of them that have a node and that it uses last. |
| PartitionSpec.ReturnsExact | vllm/vllm/env_override.py:224-289 | A partition returns exactly the names that stand for what its nodes create and is live behind it, and for what it takes, knows and does not use last. |
| PartitionSpec.SignatureExact | vllm/vllm/env_override.py:256-316 | Each field of a signature in terms of the nodes: the input nodes, which of them are deallocated, the allocated names returned, the constants taken and the flag passed on. |
| PartitionSpec.NoneLayoutExact | vllm/vllm/env_override.py:201-219 | A name has no allocation if and only if aliases of mutations lead from it over buffers without allocation to one that is no alias. |
| PartitionSpec.UnmetIsLive | vllm/vllm/env_override.py:318-320 | The unmet names that the reverse loop carries are exactly the live ones: those with a later use, or use as a graph output, that no partition in between returns. |
| PartitionSpec.ForwardRunExact | vllm/vllm/env_override.py:184-190 | Running the partitions forward on their signatures finds every allocated name that is taken and every allocated graph output present if and only if no partition frees an allocated name, without returning it, that is still live behind it. |
| PartitionSpec.NamesAreFound | vllm/vllm/env_override.py:226-277 | That run succeeds exactly if, at every partition, what each allocated read or write that is not created there goes by is present where it has an allocation, and so is every allocated known name used last there, and every allocated graph output at the end. |
| PartitionSpec.FreedNamesUnused | vllm/vllm/env_override.py:258-277 | If a name freed in one partition is neither a graph output nor taken by a later one, every allocated name is found, and everything is found if and only if the used names without an allocation are live at the front. |
| PartitionSpec.FindsEverythingExact | vllm/vllm/env_override.py:184-190 | The forward run finds every input and every graph output, allocated or not, if and only if no allocated name is freed too early and every used name without an allocation is live at the front and not freed before. |
| PartitionSpec.NoneLayoutTakenExact | vllm/vllm/env_override.py:201-266 | A partition takes some name without an allocation if and only if it uses one last that has a node and that it did not create, or reads or writes an allocated name, not created by it, that goes by a name without an allocation. |
| PartitionSpec.NoneLayoutPresence | vllm/vllm/env_override.py:201-219 | Nothing ever returns a name without an allocation: it is present at a partition exactly if it is live at the front and nobody has freed it. |
| PartitionSpec.NoneLayoutInputIsMissing | vllm/vllm/env_override.py:201-205 | Two partitions, the second of which reads and frees a name without an allocation that the first creates: the name becomes an input and is not there when it is needed. |
| PartitionSignature.GetGraphPartitionSignature | vllm/vllm/env_override.py:221-322 | The reverse loop pairs partitions and flags from the end, fails with a KeyError exactly if a partition returns an allocated name without a node, and otherwise gives each partition the signature that its nodes' reads, writes, creations and last uses and liveness ask for, field by field. |
| MemoryPlanSpec.StatesAreDistinct | vllm/vllm/env_override.py:167-168 | Two subgraphs never share a planning state. |
| MemoryPlanSpec.SharedStateIsSharedScope | vllm/vllm/env_override.py:160-170 | Two lines are governed by the same planning state if and only if the same subgraph, or none, is innermost around both. |
| MemoryPlanSpec.TopGoverns | vllm/vllm/env_override.py:165-170 | What stands on top of the stack at a line is the state of the innermost subgraph around it. |
| MemoryPlanSpec.WellNestedNeverUnderflows | vllm/vllm/env_override.py:161-172 | A well-nested list never meets an empty stack. |
| MemoryPlanSpec.WellNestedExact | vllm/vllm/env_override.py:167-172 | A list that passes the final assertion is well nested if and only if no subgraph is entered while more have been left than entered. |
| MemoryPlanSpec.NotWellNestedYetComplete | vllm/vllm/env_override.py:171-172 | A list that exits before it enters passes the final assertion although it is not well nested. |
| MemoryPlan.Wrapper.Trim | vllm/vllm/env_override.py:152-158 | Everything dropped is at the end and is a planning line for a name that is no output, and the last line left is of another kind or is for an output, so no line for an output is ever dropped. |
| MemoryPlan.Wrapper.MemoryPlanReuse | vllm/vllm/env_override.py:116-172 | After trimming, planning fails with an IndexError exactly if a planning line or an exit meets an empty stack or more is left than entered, and with the assertion exactly if something stays open; otherwise every planning line is planned with the state of its innermost subgraph, every other line stays, and each state is retired once. |
| ChunkLayout.MemcreateChunkSize | vllm/csrc/cumem_allocator.cpp:15-42 | The base chunk size is a positive multiple of a megabyte that fits 64 bits: the configured megabytes where they are positive and do not overflow, 256 MB in all other cases. |
| ChunkLayout.CeilDivExact | vllm/csrc/cumem_allocator.cpp:345-348 | The 64-bit ceiling division is the ceiling if and only if the sum does not wrap; if it wraps the quotient is zero. |
| ChunkLayout.AlignExact | vllm/csrc/cumem_allocator.cpp:319-319 | Rounding a positive size up to the granularity gives the least multiple that is not smaller, if and only if the sum does not wrap. |
| ChunkLayout.ChunksAreDisjoint | vllm/csrc/cumem_allocator.cpp:160-178 | The running offsets of the map and unmap loops give adjacent ranges that do not overlap and that stay inside the whole range. |
| ChunkLayout.ComputeLayout | vllm/csrc/cumem_allocator.cpp:319-369 | The layout divides by zero exactly if rounding the base chunk size up wraps; otherwise the chunks are positive multiples of the granularity, all but the last as large as the aligned chunk size, and add up to the aligned size, if and only if adding a chunk to it does not wrap. |
| ChunkLayout.ChunkSizeWraps | vllm/csrc/cumem_allocator.cpp:344-346 | A configured chunk size of 2^44 - 1 megabytes becomes zero at a granularity of two megabytes. |
| ChunkLayout.ChunkCountWraps | vllm/csrc/cumem_allocator.cpp:347-348 | With one megabyte less, an allocation of four megabytes gets no chunk. |
| CumemAllocator.Allocator.CreateHandles | vllm/csrc/cumem_allocator.cpp:150-159 | Without a pending error it succeeds if and only if no creation has a fault and all sizes are positive; every chunk then gets a fresh live handle of its size, and otherwise all are released again; with an old error pending exactly the first creation happens and stays. |
| CumemAllocator.Allocator.MapChunks | vllm/csrc/cumem_allocator.cpp:160-179 | With live handles of the right sizes it succeeds if and only if no mapping has a fault and the chunks' ranges are free and not empty; every chunk is then mapped to its handle at its prefix-sum address, and otherwise all are unmapped and every handle is released. |
| CumemAllocator.Allocator.CreateAndMap | vllm/csrc/cumem_allocator.cpp:95-193 | Without a pending error it succeeds if and only if none of its calls has a fault, all sizes are positive and every chunk's range is free; the range is then fully backed, and otherwise the driver holds what it held before, for any failures of creation and mapping; only a failure to set access rights is reported with the range left backed. |
| CumemAllocator.FreeIsEnough | vllm/csrc/cumem_allocator.cpp:150-190 | Against a driver without faults positive sizes and free ranges are all that success needs. |
| CumemAllocator.FreeRange | vllm/csrc/cumem_allocator.cpp:160-178 | Chunks that tile a free range have free ranges. |
| CumemAllocator.Allocator.UnmapAndRelease | vllm/csrc/cumem_allocator.cpp:195-239 | Exactly the calls that fail leave their chunk mapped or their handle live and the first failing status is recorded; on a backed range only the driver's own faults can fail, and without any the driver is back to what it held before the range was backed. |
| CumemAllocator.Allocator.MyMalloc | vllm/csrc/cumem_allocator.cpp:299-427 | A pointer is returned if and only if no error is pending, granularity and reservation succeed, the chunk size does not wrap and no call of the mapping can fail; it means a backed range cut into the chunks of the layout, and no chunk at all if the number of chunks wraps; no pointer means that the driver holds what it held before and that the error stays pending. |
| CumemAllocator.Allocator.PythonCreateAndMap | vllm/csrc/cumem_allocator.cpp:664-729 | It succeeds if and only if no error is pending and no call can fail, and success means a backed range; a failed wake-up leaves the driver as it was, and the error is cleared either way; with an old error pending the call is refused and leaves one handle behind. |
| CumemAllocator.Allocator.PythonUnmapAndRelease | vllm/csrc/cumem_allocator.cpp:648-661 | Putting a backed range to sleep leaves nothing of it in the driver, and the error is cleared. |
| CumemAllocator.Allocator.SleepAndWake | vllm/csrc/cumem_allocator.cpp:648-729 | After each call of any alternating run of sleep and wake-up the range is either fully backed chunk by chunk or the driver holds nothing of it, whatever creations and mappings have failed; if none fails and the range was free, it is backed exactly after an odd number of calls. |
| CumemAllocator.PendingErrorLeaks | vllm/csrc/cumem_allocator.cpp:150-159 | With no fault of the driver at all, a wake-up that finds an old error pending is refused and leaves one live handle that nobody releases. |
| CumemAllocator.WithoutPendingError | vllm/csrc/cumem_allocator.cpp:150-190 | The same wake-up without an old error succeeds and maps its chunk. |
| LogprobDict.LastEntryWins | vllm/vllm/logprobs.py:113-120 | A dictionary comprehension over a list of entries holds exactly the last entry of each key. |
| LogprobDict.FirstEntryOrders | vllm/vllm/logprobs.py:113-120 | Its keys stand in the order of their first entries. |
| LogprobDict.FromEntriesOfDict | vllm/vllm/logprobs.py:66-71 | Flattening a dictionary into entries and building it again gives the same dictionary in the same order. |
| PythonList.PositionsExact | vllm/vllm/logprobs.py:121-133 | A slice, with negative bounds counted from the end, selects a position if and only if it lies in the list on the right sides of both bounds and its distance to the first such position is a multiple of the step, for steps of either sign. |
| PythonList.PositionsSelect | vllm/vllm/logprobs.py:121-133 | The selected positions go strictly up for a positive step and strictly down for a negative one. |
| FlatLogprobsSpec.AppendedView | vllm/vllm/logprobs.py:63-93 | Appending a stretch of entries keeps the columns well formed, leaves every earlier position as it was and adds the one dictionary that the entries build, with duplicate keys resolved as a dictionary would. |
| FlatLogprobsSpec.AscendingSlice | vllm/vllm/logprobs.py:121-133 | A non-empty slice with positive step is a well-formed container whose dictionaries are those of the same slice of the list. |
| FlatLogprobsSpec.SliceExact | vllm/vllm/logprobs.py:121-133 | A non-empty slice of any step reads, position by position, like the slice of the list if and only if the step is positive, or one position is selected, or all selected positions are empty. |
| FlatLogprobsSpec.ReversedSlice | vllm/vllm/logprobs.py:121-133 | Two positions of one entry each, sliced backwards, do not read like the reversed list. |
| FlatLogprobs.FlatLogprobs.Append | vllm/vllm/logprobs.py:63-72 | The container stands for the list with the dictionary appended, None read as empty. |
| FlatLogprobs.FlatLogprobs.AppendFast | vllm/vllm/logprobs.py:74-93 | The container stands for the list with the dictionary appended that the zipped lists would build, although it is never built. |
| FlatLogprobs.FlatLogprobs.Extend | vllm/vllm/logprobs.py:95-98 | The container stands for the list with all dictionaries appended. |
| FlatLogprobs.FlatLogprobs.ExtendFlat | vllm/vllm/logprobs.py:95-98 | Extending with another container, or with itself, appends what that one stood for when the call began. |
| FlatLogprobs.FlatLogprobs.GetItem | vllm/vllm/logprobs.py:110-120 | Index i gives the i-th dictionary of the list, index -i the i-th from the end, and any other an IndexError. |
| FlatLogprobs.FlatLogprobs.GetSlice | vllm/vllm/logprobs.py:121-133 | A slice with step zero is a ValueError, an empty one an IndexError, and one with positive step a container for the same slice of the list; in particular [-k:] gives the last k dictionaries and [a:b] those from a up to b. |
| FlatLogprobs.FlatLogprobs.Iterate | vllm/vllm/logprobs.py:146-152 | Iteration yields the dictionaries of the list in order. |
| FlatLogprobs.AppendLogprobsForNextPosition | vllm/vllm/logprobs.py:175-206 | The flat container and the plain list get the same dictionary for the next position. |
| FlatLogprobs.NextEntriesExact | vllm/vllm/logprobs.py:184-206 | That dictionary is built from the entries whose token, logprob and decoded token stand at the same place of the three lists, the first with the sampled token's rank and the k-th after it with rank k; there are as many as the shortest list has, but at most one more than the number asked for unless all are. |
| FlatLogprobs.RunBoth | vllm/vllm/logprobs.py:46-48 | Any run of the same operations leaves the flat container and the list with the same dictionaries, None read as empty. |
| IndexRanges.ReadRangesOfText | vllm/vllm/model_inspection.py:53-58 | The printed text of any non-empty list of ranges, negative numbers included, reads back as that list. |
| IndexRanges.MaximalIsUnique | vllm/vllm/model_inspection.py:49-57 | There is only one way to write a set of indices as maximal ranges, so the text is canonical. |
| IndexRanges.CanonicalText | vllm/vllm/model_inspection.py:44-58 | Two printed texts for the same distinct indices are equal. |
| IndexRanges.FormatIndexRanges | vllm/vllm/model_inspection.py:44-58 | An empty list is an IndexError; otherwise the text reads back to exactly the input multiset, in ascending order, and the ranges are maximal if the indices are distinct. |
| ModuleTree.FlattenInjective | vllm/vllm/model_inspection.py:36-41 | A preorder listing of paths and infos determines the tree and where its listing ends. |
| ModuleTree.SignatureInjective | vllm/vllm/model_inspection.py:36-41 | Equal signatures mean equal trees, for names that are not empty and hold no dot, as long as no name followed by a colon begins another name of the two trees. |
| ModuleTree.SignatureExact | vllm/vllm/model_inspection.py:36-41 | All trees over a set of names have different signatures if no name followed by a colon begins another one; if in no name a line break follows a colon, only then. |
| ModuleTree.ColonFree | vllm/vllm/model_inspection.py:36-41 | In particular names without colons, with or without line breaks, are never confused. |
| ModuleTree.ColonCollides | vllm/vllm/model_inspection.py:36-41 | For all u, v and infos, the tree with the child u:v and the tree with the child u whose info begins with v: are different and have the same signature. |
| PrintedTree.FaithfulFromParts | vllm/vllm/model_inspection.py:92-128 | Groups that stand for all numbered children and entries that stand for all named ones make a printed tree that stands for the module, under every path, if equal signatures mean equal layers wherever layers are grouped. |
| PrintedTree.UnambiguousIsDecided | vllm/vllm/model_inspection.py:103-109 | Equal signatures mean equal layers everywhere in a tree in which no name followed by a colon begins another name. |
| PrintedTree.CollisionIsShownWrongly | vllm/vllm/model_inspection.py:106-117 | Layers with colliding signatures, which are printed as one group, have to be shown differently. |
| PyIntegers.PyIntExact | vllm/vllm/model_inspection.py:96-101 | A child's name is an integer if and only if it is digits, with single underscores only between digits, behind at most one sign; its value is the sum of the place values. |
| PyIntegers.ShownAsItIs | vllm/vllm/model_inspection.py:96-125 | A name is shown as it is if and only if it is no integer, or is written without plus sign, underscore, leading zero or negative zero. |
| PyIntegers.DigitsExact | vllm/vllm/model_inspection.py:53-58 | The text of a number is digits without a leading zero whose place values add up to the number. |
| PyIntegers.DigitsUnique | vllm/vllm/model_inspection.py:53-58 | No other digits without a leading zero do. |
| PrintedTree.PartOfChild | vllm/vllm/model_inspection.py:93-101 | A child whose name is an integer is numbered with its value; any other stays a named child, shown under its name, and adds nothing to the numbered ones; neither changes what becomes of its neighbours. |
| PrintedTree.ListedExact | vllm/vllm/model_inspection.py:97-101 | What the printer shows is the tree's own listing, each path and info exactly once, if and only if every name that is an integer is written in the printer's own way. |
| PrintedTree.SevenIsNotPlain | vllm/vllm/model_inspection.py:97-101 | A child named 007 is shown as 7, so the listing differs. |
| PrintedText.RenderInjective | vllm/vllm/model_inspection.py:76-131 | The lines of a printed tree, followed by lines that do not lie deeper, determine the tree: labels, counts, infos, nesting, and which lines are groups. |
| PrintedText.TextDetermines | vllm/vllm/model_inspection.py:134-136 | Printed trees with the same text are equal, if infos are lines that begin with a class name and names hold neither a closing parenthesis nor a line break. |
| ModulePrinter.GroupBySignature | vllm/vllm/model_inspection.py:106-109 | There is one bucket for each signature, and it lists exactly the numbered children of that signature, in their order. |
| ModulePrinter.FormatGroups | vllm/vllm/model_inspection.py:111-128 | There is one printed group for each signature, and they stand in the order of the first indices of their buckets; heading and count agree with the bucket and the body is that of the bucket's first layer, whether or not signatures decide which layers are equal. |
| ModulePrinter.FormatModuleTree | vllm/vllm/model_inspection.py:61-131 | The lines are the rendering of a printed tree that has, at every level, the groups of its signatures in the order of their first indices and then the named children in their order, and that loses nothing where equal signatures mean equal layers: repeating each group's representative for each index of its heading gives back every path and info of the module exactly once, with integer names rewritten. |
| ModulePrinter.FormatModelInspection | vllm/vllm/model_inspection.py:134-136 | The text is that of a printed tree of the model, which can be read if names and infos are of the readable kinds, and which stands for the model if equal signatures mean equal layers. |
| ModulePrinter.SameText | vllm/vllm/model_inspection.py:134-136 | Such models with the same text have the same listing, and exactly the same rows if their numeral names are plain: the text loses nothing. |
| Bits.AndMask | vllm/vllm/scalar_type.py:149-150 | Masking with w ones keeps the remainder modulo the w-th power of two, also of negative biases. |
| Bits.OrDisjoint | vllm/vllm/scalar_type.py:146-151 | Or-ing a field above the bits that are there adds it, so the fields of an id occupy disjoint bits. |
| ScalarTypes.SameIdExact | vllm/vllm/scalar_type.py:136-164 | Two types have the same id if and only if all six fields agree in the bits that the id holds of them; every id is below 2 to the 58th. |
| ScalarTypes.ComputeId | vllm/vllm/scalar_type.py:143-160 | The accumulated value is the side-by-side layout of the fields with widths 8, 8, 1, 32, 1 and 8. |
| ScalarTypes.FieldsOfId | vllm/vllm/scalar_type.py:143-160 | Dividing an id by the power of two of a field's offset and taking as many bits as the field has gives the field back. |
| ScalarTypes.WindowInjective | vllm/vllm/scalar_type.py:137-142 | Among types with 8-bit fields and biases in one 32-bit window the id determines the type. |
| ScalarTypes.FromIdExact | vllm/vllm/scalar_type.py:308-312 | After any sequence of registrations every registered type is found again by its id if and only if no two different types agree in all that an id holds. |
| ScalarTypes.WindowFromId | vllm/vllm/scalar_type.py:308-312 | In particular every type is found again if all are in one window. |
| ScalarTypes.TypeObject.Id | vllm/vllm/scalar_type.py:136-164 | The id is computed and registered on the first use of an object, and neither computed nor registered again. |
| ScalarTypes.RegisterThenLookUp | vllm/vllm/scalar_type.py:308-312 | Registering types one after the other and looking up the id of any of them gives back that type, if no two collide. |
| FloatFormats.ValueMonotone | vllm/vllm/scalar_type.py:71-101 | In a binary format of section 3.4 of IEEE 754-2019 encodings are ordered as the numbers they stand for, subnormal ones included. |
| FloatFormats.MaxIntIsWord | vllm/vllm/scalar_type.py:99-101 | The or of the shifted parts is a word with a clear sign bit, the re-biased exponent and the left-aligned mantissa. |
| FloatFormats.FloatingPointMaxExact | vllm/vllm/scalar_type.py:71-101 | The word built decodes to a finite double equal to the largest value among all finite encodings of the format, if and only if the format is neither IEEE with one exponent bit nor one with NaNs at the top and no mantissa bits. |
| FloatFormats.WrongWords | vllm/vllm/scalar_type.py:71-101 | IEEE with one exponent bit and one mantissa bit gives a wrong double, and four exponent bits with NaNs at the top and no mantissa bits give no word. |
| FloatFormats.RawMinIsNegated | vllm/vllm/scalar_type.py:121-126 | Setting the sign bit of the word gives the negated double. |
| BadWordsSpec.CleanExact | vllm/vllm/logits_process.py:66-83 | A token sequence contains no non-empty bad word as a contiguous block if and only if no step of it completes one. |
| BadWordsSpec.MaskedExact | vllm/vllm/logits_process.py:81-85 | After the processor a logit is minus infinity if and only if it was before, or it was finite and its token completes a bad word. |
| BadWordsSpec.InfinityEscapes | vllm/vllm/logits_process.py:81-85 | The logit plus infinity of a forbidden token becomes NaN, not minus infinity. |
| BadWords.CheckTokenIdsBounds | vllm/vllm/logits_process.py:106-121 | The tokens reported are those at exactly the places, in the words written one after the other, that hold a token outside the vocabulary, in this order. |
| BadWords.InitWordBias | vllm/vllm/logits_process.py:89-104 | The cached bias is minus infinity exactly for the bad words of one token. |
| BadWords.LastTokenBias | vllm/vllm/logits_process.py:64-83 | The suffix comparison finds exactly the tokens that complete a longer bad word; an empty bad word is an IndexError. |
| BadWords.NoBadWordsLogitsProcessor.Call | vllm/vllm/logits_process.py:56-87 | Exactly the tokens that complete a bad word are masked and all others keep their logit; a token outside the vocabulary makes every call a ValueError that names all such tokens, and an empty word makes it an IndexError. |
| BadWords.Generate | vllm/vllm/logits_process.py:56-87 | On any run of steps with finite or masked logits no bad word ever occurs in what has been generated, and a run stops early only where the token was masked by the model or would have completed a bad word. |
| OutputMergeSpec.FoldIndices | vllm/vllm/outputs.py:151-173 | After any sequence of deltas the indices are distinct and stand in the order of their first appearance. |
| OutputMergeSpec.FoldContents | vllm/vllm/outputs.py:154-167 | Aggregation is concatenation per index: each index has exactly the text, tokens and logprobs it was given, in order, and the finish data that came last. |
| OutputMergeSpec.FoldLatest | vllm/vllm/outputs.py:168-170 | Without aggregation the one completion of each index is the last one given for that index, in the order of first appearance. |
| OutputMergeSpec.FoldAssociative | vllm/vllm/outputs.py:145-173 | Merging what b and c merge into fails no assertion if and only if merging b and then c fails none and every index that c brings logprobs for had logprobs from its first completion on in b and c alone; the results are then equal. Without aggregation they are always equal. |
| OutputMergeSpec.GroupingFails | vllm/vllm/outputs.py:160-162 | Three outputs of one index, the second without logprobs: merging one after the other works, merging the last two first fails. |
| OutputMergeSpec.FoldConcat | vllm/vllm/outputs.py:151-173 | Merging deltas one after the other equals merging all their completions at once. |
| OutputMergeSpec.FoldOkExact | vllm/vllm/outputs.py:160-162 | No assertion fails if and only if every index that gets logprobs had logprobs from its first completion on. |
| OutputMerge.CompletionOutput.Extend | vllm/vllm/outputs.py:155-167 | Text, tokens and logprobs are appended and the rest is taken over, or the object is left half merged if there are no logprobs to extend. |
| OutputMerge.RequestOutput.AddCompletion | vllm/vllm/outputs.py:151-173 | A completion goes to the first output of its index, in place, or to the end, and no other output changes. |
| OutputMerge.RequestOutput.Add | vllm/vllm/outputs.py:145-173 | With distinct indices, each index ends up with the concatenation of all it was given, or, without aggregation, with the last completion it was given, in the order of first appearance; finished once either was; no assertion fails exactly if nothing is aggregated or all arriving logprobs have a first list, and a failed one leaves the completions before the failing one merged and that one half merged. |
| DPChunkingSpec.LocalSizeIs | vllm/vllm/forward_context.py:84-86 | Each local size lies between one and the chunk size, takes the rank's next tokens as long as it has any, and is one afterwards. |
| DPChunkingSpec.WorkedExact | vllm/vllm/forward_context.py:72-87 | Over a rank's first ceil(tokens/chunk) chunks the sizes add up to its sharded tokens, and every further chunk adds exactly one dummy token. |
| DPChunkingSpec.SpTokensAt | vllm/vllm/forward_context.py:61-69 | Every shard of a rank's group has the ceiling of the rank's tokens divided by the group size. |
| DPChunkingSpec.ShardsCover | vllm/vllm/forward_context.py:61-69 | The shards together hold all tokens, and each group has fewer rows of padding than shards. |
| DPChunking.ComputeChunkedLocalNumTokens | vllm/vllm/forward_context.py:72-87 | The loop gives every shard the local size of its own sharded tokens, for any chunk size and index. |
| DPChunking.RowsAreExpected | vllm/vllm/model_executor/layers/fused_moe/runner/default_moe_runner.py:568-583 | The clamped chunk bounds of a rank give as many rows as every rank expects of it if and only if the rank has a token, and they are its next rows. |
| DPChunking.NoRowForDummy | vllm/vllm/model_executor/layers/fused_moe/runner/default_moe_runner.py:568-583 | A rank without tokens has no row in its first chunk, where one is expected. |
| DPChunking.ForwardImplChunked | vllm/vllm/model_executor/layers/fused_moe/runner/default_moe_runner.py:555-588 | A rank's chunk loop fails if and only if it has no tokens while another rank has some; otherwise it runs as many chunks as the largest rank needs, each with the rows that all ranks expect, stores every token's result in its place, and the sizes are cleared at the end. |
| DPChunking.RegionIs | vllm/vllm/forward_context.py:179-184 | The running totals cut the gathered buffer into adjacent regions, one of each shard's size. |
| DPChunking.NaiveMulticast | vllm/vllm/distributed/device_communicators/all2all.py:51-73 | Filling the regions gives every rank the rows of all ranks in rank order and nothing else. |

## Left out

- Floating point: reals stand for the floats of the build report, logits and logprobs, so rounding, the epsilon of the weighted-duration assertion and the warning threshold are not modelled.
- Build report: printing, grouping by extension and the splitting of a log line at tabs; a line is already malformed, without readable numbers, or a record.
- NinjaSummary.SummarizeEntries: requires distinct target objects, because the reader returns a new object for each hash.
- Partitions: the order of ordered sets, symbol inputs and the node objects behind names; a cycle of mutation aliases, on which the code recurses without end, counts as allocated.
- Memory planning: what a planning line does with its state, and how the output names are computed; they are a parameter.
- Allocator: the CUDA branch, Python reference counts, the interpreter lock, failures of `ensure_context`, of the C heap and of the Python callback, `my_free`, and the conversion of handles to Python tuples.
- CumemAllocator.Allocator.MyMalloc: the size given to the release of the address range is not modelled, and neither is the 32-bit loop counter.
- Addresses: prefix sums are added to the base without 64-bit wrap-around, because the reserved range lies in the address space.
- FlatLogprobs: item assignment, deletion and insertion, which the class refuses.
- ModuleTree.SignatureInjective: infos are taken as given strings without line breaks, which the code removes; how they are composed from a module is not modelled, and neither are shared submodules, which the listing visits once.
- PyIntegers.PyIntExact: a name is read as Python's int() reads sign, ASCII digits and single underscores; surrounding blanks and other digits are not modelled.
- ModulePrinter.SameText: names with a closing parenthesis or a line break are left out, because a line of a named child can then look like the lines of other children.
- ModulePrinter.FormatModuleTree: infos are taken to begin with something other than white space, as class names do; a parser that computes the tree from the text is not given, only that the text determines it.
- FloatFormats.FloatingPointMaxExact: formats whose finite encodings the code does not settle (infinities together with a non-IEEE NaN scheme, or IEEE without infinities) are left out.
- Scalar types: integer ranges, the bias added to the raw bounds, `has_nans`, `is_ieee_754`, type names and the C++ twin.
- BadWords.NoBadWordsLogitsProcessor.Call: later calls have the vocabulary of the first; tensor broadcasting over other sizes is not modelled.
- Bad words: the tokenizer step that turns strings into token lists.
- OutputMerge.RequestOutput.Add: completion objects are not shared between the two outputs, and a completion's token list is a value, so lists shared by two completions are not modelled; logprobs are a list.
- DPChunking.ForwardImplChunked: the experts are a function of one token, and the exchange between ranks is left out; all that is checked of it is that every rank announces the sizes that are expected.
- Data-parallel metadata: the assertions of `make`, the context managers' generators and timing statistics.
