# Demand paging, replacement, trace reduction and blocked multiplication

A Dafny model of the paging simulator in `Assignment2/starter` and of the two algorithms beside it that
make and shorten its traces.

* **Paging.** `Simulator.Machine` is the program: a two-level page table of packed words, a coremap, physical
  memory, a swap file with its bitmap, the counters and the algorithms' globals, changed in place by methods that
  follow pagetable.c, swap.c, sim.c, fifo.c, clock.c and opt.c function by function. Every method is proved
  against the step functions of module `Paging`, which work on values and keep the invariant `Paging.Inv`. A run
  (`Runs.IsRun`) is a sequence of such states, where the replacement policy may answer any frame below memsize
  and clear any reference bits; theorems about runs therefore hold of every policy.
* **Replacement.** `Residency` reduces the simulator to the list of loaded pages, and proves that it is a
  reduction. On that list `Optimal`, `Fifo` and `Phases` compare policies; `Policies` brings the results back to
  simulator runs under each algorithm's own answers, and `OptAsBuilt` treats opt with the list that opt_init really
  builds. `Clock` works on the simulator's reference bits, and `ClockCost` shows what frame 0 costs it. `ReadRuns`
  makes the runs that the negative results need, and `SwapUse` tells from the trace how much swap it can take.
* **Trace reduction.** `Fastslim` models fastslim.py as a state change per input line (`Fastslim.Reducer` in
  place) and ties its buffer flushes to misses of the simulator.
* **Multiplication.** `Layout` has the blocked layout as a permutation of the cells, `Multiply` the in-place
  conversions, the naive and the blocked loop nests. Zero, plus and times are uninterpreted (`Multiply.Arith`), so
  no algebraic law is used and the equality of the two programs also holds of doubles.

Main results: the version word an access finds, over whole runs, and exactly when it is the number of writes to the
page; the reachable-state invariants; exact counters and slots, and how much swap is enough; optimality of the
furthest-next-use choice, and exactly when opt as built is optimal; FIFO's order, competitive and conservative
bounds; CLOCK's termination, second chance, and exactly when it has a competitive factor; the phase lower bound of
fastslim's flushes; and blocked equals naive multiplication.

## Where the code departs from its documentation

* pagetable.c:196 overwrites all flags when a page comes in, PG_ONSWAP among them. A page that was read from
  swap, only read, and evicted again takes the clean branch (pagetable.c:64-66) and is filled with zeros at its next
  use, although the comments above find_physpage promise its data back from swap. `LostWrite.ReadVisitLosesWrite` is
  such a run; `Transparency.TransparentIff` says which runs are not affected, for every trace and policy, and
  `Transparency.TransparentFromHistory` says it again by references and evictions alone.
* opt_init (opt.c:118-127) links only the first address of the trace, and nothing assigns `pte->vaddr`.
  `OptAsBuilt.EvictsFrameZero` proves that opt then always answers frame 0, and `OptAsBuilt.BuiltIsMinimalIff` that it
  has the least number of misses, on all traces over n pages against all policies, if and only if memsize is 1 or at
  least n; for every memsize between, `OptAsBuilt.BuiltMissesMore` gives two runs of the simulator that differ. `Policies.OptBeatsAny` takes the list and the addresses that opt_evict was written for as
  its premise `OptKnows`.
* clock.c:42-46 sets the hand to 0 and then advances it, so the sweep goes on at frame 1. With one frame it never
  ends once the bit is set (`Clock.SweepEndsIff`), and a run always gets there with the bit set
  (`Clock.OneFrameNeverEnds`), namely at the first reference to a second page (`Clock.OneFrameEvictsIff`). With more
  frames it never evicts frame 0, so that it has no competitive factor at all (`ClockCost.ClockFactorIff`).
* fastslim.py:80-82 puts the mark on the fresh item, which is dropped, and the last buffer is never printed:
  `Fastslim.LastPhaseIsNotPrinted`.

## Model

| member | source | states |
|---|---|---|
| Words.SameBits | Assignment2/starter/swap.c:14-26 | a word is determined by its binary digits |
| Words.TestsBit | Assignment2/starter/swap.c:127-135 | masking a word with one bit is nonzero exactly if the bit is set |
| Words.SetsBit | Assignment2/starter/swap.c:100-111 | or-ing a mask in sets that bit and no other |
| Words.ClearsBit | Assignment2/starter/swap.c:113-124 | and-ing with the complement of a mask clears that bit and no other, in 32 bits |
| Bitmaps.FullWord | Assignment2/starter/swap.c:64-87 | a word equals WORD_ALLBITS exactly if all 32 bits are set, so skipping such words skips no free slot |
| Bitmaps.PackedSet | Assignment2/starter/swap.c:100-111 | setting bit i%32 of word i/32 adds slot i to the packed set and changes no other slot |
| Bitmaps.PackedClear | Assignment2/starter/swap.c:113-124 | clearing bit i%32 of word i/32 removes slot i and changes no other slot |
| Bitmaps.FirstFree | Assignment2/starter/swap.c:64-87 | the lowest slot not taken; none only if all are taken |
| Bitmaps.Bitmap.constructor | Assignment2/starter/swap.c:28-62 | a new bitmap of any nbits has no slot in use and every leftover bit of its last word marked |
| Bitmaps.Bitmap.Alloc | Assignment2/starter/swap.c:64-87 | returns the lowest free slot and marks exactly it; fails, changing nothing, exactly if all nbits slots are in use; both asserts hold |
| Bitmaps.Bitmap.Mark | Assignment2/starter/swap.c:100-111 | adds one slot to the set, leftover bits stay marked |
| Bitmaps.Bitmap.Unmark | Assignment2/starter/swap.c:113-124 | removes one slot from the set, leftover bits stay marked |
| Bitmaps.Bitmap.IsMarked | Assignment2/starter/swap.c:127-135 | nonzero exactly for slots in the set and leftover bits |
| Addresses.IndicesNameThePage | Assignment2/starter/pagetable.h:39-41 | both indices are in range, and two addresses share both exactly if they lie in the same block of 4096 bytes |
| Addresses.AlignedIndicesNameTheAddress | Assignment2/starter/pagetable.h:39-41 | on page-aligned addresses below 2^36 the pair of indices is injective |
| Addresses.FrameWord | Assignment2/starter/pagetable.c:196-196 | a frame number shifted into an entry word decodes to that frame with every flag clear, PG_ONSWAP included |
| Addresses.DecodeSet | Assignment2/starter/pagetable.c:201-205 | or-ing a flag into an entry word sets that flag and keeps the frame, the other flags and the swap offset |
| Addresses.DecodeClear | Assignment2/starter/pagetable.c:43-44 | and-ing a flag out of an entry word clears that flag and keeps everything else |
| Paging.Initial | Assignment2/starter/sim.c:119-125 | the state before the first reference satisfies the invariant, whatever malloc left in memory |
| Paging.FreeFrame | Assignment2/starter/pagetable.c:29-34 | the lowest frame not in use; none only if all are in use |
| Paging.WriteBack | Assignment2/starter/pagetable.c:48-62 | writing the victim out keeps frames, flags and slots consistent, with a new or a reused slot |
| Paging.Evict | Assignment2/starter/pagetable.c:43-67 | an eviction that finds swap room keeps the invariant |
| Paging.EvictForm | Assignment2/starter/pagetable.c:43-67 | whole outcome of an eviction: the guard on PG_ONSWAP always passes; clean drops the page; dirty writes the frame to the page's own slot or the lowest free one; fails only if there is none |
| Paging.Load | Assignment2/starter/pagetable.c:181-205 | a page-in keeps the invariant |
| Paging.Vacate | Assignment2/starter/pagetable.c:26-67 | yields a frame not in use, keeps the invariant and makes no page resident |
| Paging.Fetch | Assignment2/starter/pagetable.c:157-212 | after find_physpage the page is resident and the invariant holds, for any answer of the policy |
| Paging.Step | Assignment2/starter/sim.c:49-63 | an access keeps the invariant and the number of frames |
| Runs.ReplaysIff | Assignment2/starter/sim.c:66-83 | the references replayed are one for each line that is no comment, in order, each with the line's type and with its address, or the address of the reference before if the line has none; no other sequence is |
| Accesses.StoresAndModifiesWrite | Assignment2/starter/sim.c:49-63 | types S and M, and no others, add one to the version word found and make the page dirty; a page stays dirty while resident |
| Accesses.HitOrMiss | Assignment2/starter/pagetable.c:158-182 | a reference is counted once, and as a hit exactly if its page is resident |
| Accesses.SameBlockHits | Assignment2/starter/pagetable.h:39-41 | after a reference, another to the same 4096 bytes is a hit under any policy; with one frame no other reference is |
| Runs.RunKeepsInv | Assignment2/starter/sim.c:66-83 | the invariant holds in every state of every run from a good state |
| Runs.StepEntries | Assignment2/starter/pagetable.c:157-212 | what one reference does to every entry: the referenced one is valid, referenced, and dirty if written or dirty before; the victim's is invalid; others lose at most their reference bit |
| Runs.StepOwners | Assignment2/starter/pagetable.c:26-75 | a hit leaves the coremap alone; a miss puts the page in the first free frame, else in the victim's, and counts one miss |
| Runs.StepFails | Assignment2/starter/pagetable.c:48-53 | a reference ends the program exactly if it misses and its victim needs a slot when none is left |
| FlatMemory.EvictViews | Assignment2/starter/pagetable.c:43-67 | an eviction changes what is kept of no page, except that a clean victim is forgotten |
| FlatMemory.LoadViews | Assignment2/starter/pagetable.c:184-196 | a page-in brings back what is kept of the page, or zeros with the address if nothing is |
| FlatMemory.StepIsFlat | Assignment2/starter/sim.c:49-63 | refinement: each access sees and changes its page as in a flat memory and no other page, but for the victim of a clean eviction |
| FlatMemory.ContentOverRun | Assignment2/starter/sim.c:66-83 | over a whole run from the start, the content of every page is the writes since its last clean eviction, with the address that filled it |
| Transparency.SeenOverRun | Assignment2/starter/sim.c:49-63 | the version an access finds is the number of writes to its page since the page was last lost; the tag test passes exactly if the page was filled for the same address or not at all |
| Transparency.SinceLossIsAll | Assignment2/starter/sim.c:58-61 | writes since the last loss are all writes exactly if nothing had been written before each loss of the page |
| Transparency.SeesEveryWrite | Assignment2/starter/sim.c:49-63 | an access finds the number of all earlier writes exactly if its page was not lost after a write |
| Transparency.TransparentIff | Assignment2/starter/pagetable.c:35-72 | every page always holds its number of writes if and only if no reference evicts a clean frame whose version word is nonzero; for every trace, policy and memsize |
| Transparency.DirtyMeansWritten | Assignment2/starter/pagetable.c:196-205 | in every state of a run a resident page is dirty exactly if it was written since it was last brought in |
| Transparency.LossFromHistory | Assignment2/starter/pagetable.c:46-66 | a reference loses a page's content exactly if it evicts the page and the page was not written since it was last brought in |
| Transparency.TransparentFromHistory | Assignment2/starter/pagetable.c:35-72 | every page always holds its number of writes if and only if no page with earlier writes is evicted without a write since it was last brought in |
| Transparency.AllWritesTransparent | Assignment2/starter/pagetable.c:201-205 | on traces of writes only, paging is flat memory under every policy |
| Transparency.TagCheckNeverFails | Assignment2/starter/sim.c:54-56 | on page-aligned traces every access finds its own address stored |
| Transparency.NoTagFails | Assignment2/starter/sim.c:54-56 | no reference of such a run is among the failing ones |
| LostWrite.ReadVisitLosesWrite | Assignment2/starter/pagetable.c:196-196 | counterexample: one frame, one slot, five references; the last one reads 0 from a page written once |
| Bookkeeping.EvictCounts | Assignment2/starter/pagetable.c:46-67 | each eviction is counted once, as dirty or as clean |
| Bookkeeping.StepCounts | Assignment2/starter/pagetable.c:157-182 | one reference keeps hits + misses = references, frames in use = min(memsize, misses), and evictions = misses - frames in use |
| Bookkeeping.CountersOverRun | Assignment2/starter/pagetable.c:11-15 | these hold in every state of every run, where references are the accesses made |
| Bookkeeping.SlotsAreStable | Assignment2/starter/pagetable.c:53-57 | a page that has a swap slot keeps it for the rest of the run |
| Bookkeeping.OneOwnerPerSlot | Assignment2/starter/swap.c:222-256 | there are exactly as many slots taken as pages that own one |
| Bookkeeping.OutOfSwapMeansFull | Assignment2/starter/swap.c:222-234 | swap runs out exactly if no frame is free, the victim is dirty and swapsize other pages own slots |
| SwapUse.StepTakesSlot | Assignment2/starter/pagetable.c:48-62 | a page gets its slot when it is evicted dirty without one, and in no other way |
| SwapUse.SlotsAreWritten | Assignment2/starter/swap.c:222-234 | in every state of a run, a page that owns a slot, or is resident and dirty, has been written |
| SwapUse.EnoughSwap | Assignment2/starter/swap.c:222-234 | while at most swapsize distinct pages have been written, no victim finds swap full, under any policy |
| SwapUse.OffsetsFit | Assignment2/starter/swap.c:222-256 | in every state of a run the 16 bytes at every offset in use lie inside a file of swapsize pages, and no two overlap |
| Bookkeeping.ReachableState | Assignment2/starter/pagetable.c:43-72 | in every reachable state frames in use and valid entries pair off both ways; valid excludes on-swap; on-swap implies clean and a slot; the taken slots are the owned ones, each owned once |
| Residency.Refer | Assignment2/starter/pagetable.c:26-75 | after a reference its page is loaded, within memsize frames, no page twice |
| Residency.StepLoaded | Assignment2/starter/pagetable.c:157-212 | the simulator's frames and its miss counter change as the list of loaded pages says |
| Residency.MissesFrom | Assignment2/starter/sim.c:66-83 | from any state on, the miss counter grows by the misses counted on the list |
| Residency.MissesOverRun | Assignment2/starter/sim.c:66-83 | the final miss counter is that count from empty memory |
| Optimal.NextUse | Assignment2/starter/opt.c:35-49 | the first position of a page among the coming references; none exactly if it is not there |
| Optimal.Furthest | Assignment2/starter/opt.c:55-79 | the first frame of greatest distance |
| Optimal.OptVictimIsFurthest | Assignment2/starter/opt.c:55-79 | opt_evict's choice is a page never used again, or else one used no earlier than any other |
| Optimal.PotentialStep | Assignment2/starter/opt.c:55-79 | exchange argument: one reference keeps the furthest-use memory at most as many misses behind any other memory as it has been spared |
| Optimal.MinWithin | Assignment2/starter/opt.c:35-94 | the same over whole traces from any two memories |
| Optimal.MinIsOptimal | Assignment2/starter/opt.c:35-94 | from empty memory, evicting a page of furthest next use misses no more often than any victims whatever |
| Optimal.NoChoice | Assignment2/starter/opt.c:55-79 | with one frame, or as many frames as pages, all victims give the same number of misses from any memory |
| Optimal.OnceAround | Assignment2/starter/opt.c:55-79 | for every memsize, the trace 0 to memsize and 0 again misses memsize + 2 times if page memsize replaces page 0, else memsize + 1 times |
| Optimal.FrameZeroIsOptimalIff | Assignment2/starter/opt.c:55-79 | always evicting frame 0 is minimal on all traces over n pages if and only if memsize is 1 or at least n |
| Phases.FlushForcesMiss | Assignment2/starter/traceprogs/fastslim.py:77-88 | from any memory, misses are at least the flushes, less one if the buffer is not loaded |
| Phases.FlushesBoundMisses | Assignment2/starter/traceprogs/fastslim.py:77-88 | on a nonempty trace a buffer of k pages that flushes n times forces n+1 misses on every policy with at most k frames |
| Fifo.EvictIsDequeue | Assignment2/starter/fifo.c:21-30 | replacing the frame under ind and advancing ind is dequeue and enqueue of the circular order |
| Fifo.ReferIsEnqueue | Assignment2/starter/fifo.c:21-30 | each reference under fifo is one queue operation, the first filling of free frames included |
| Fifo.FifoIsQueue | Assignment2/starter/fifo.c:21-30 | fifo's misses are those of a queue of memsize pages |
| Fifo.SegmentMisses | Assignment2/starter/fifo.c:21-30 | a queue misses a segment of at most memsize distinct pages at most once each |
| Fifo.FifoIsConservative | Assignment2/starter/fifo.c:21-30 | a segment with at most memsize distinct pages, from any memory, has at most that many fifo misses |
| Fifo.PhaseMisses | Assignment2/starter/fifo.c:21-30 | fifo misses at most memsize times per phase |
| Fifo.FifoIsCompetitive | Assignment2/starter/fifo.c:21-30 | fifo's misses are at most memsize times those of any victims |
| Policies.ChosenIsAnswer | Assignment2/starter/pagetable.c:35-37 | an eviction function is asked exactly when a reference evicts; opt's list loses one address per reference |
| Policies.GivesUpAt | Assignment2/starter/pagetable.c:48-53 | a reference without next state is one whose victim, as the algorithm chose it, must be written out when swap is full |
| Policies.NeverGivesUp | Assignment2/starter/pagetable.c:48-53 | with a slot for every page the trace writes, no reference ends the program |
| Policies.CountedMiss | Assignment2/starter/pagetable.c:181-205 | counting before allocating, as the code does, is the specified step |
| Policies.FifoIndexOverRun | Assignment2/starter/fifo.c:21-30 | in every state of a fifo run ind is a frame, and is 0 while frames are free; frames in use are the lowest ones |
| Policies.QueueInLoadOrder | Assignment2/starter/fifo.c:21-30 | in every state of a fifo run the pages from ind around the memory stand in the order in which they were last brought in |
| Policies.FifoEvictsOldest | Assignment2/starter/fifo.c:21-30 | every page fifo evicts was brought in before every other page in memory |
| Policies.FifoBeatsAnyByFactor | Assignment2/starter/fifo.c:21-30 | the simulator's miss count under fifo is at most memsize times that of any run of any policy on the same trace |
| Policies.FifoStretch | Assignment2/starter/fifo.c:21-30 | between any two points of a fifo run with at most memsize distinct pages referenced, the miss count grows by at most that number |
| Policies.AllReferenced | Assignment2/starter/fifo.c:21-30 | in every state of a run under fifo or opt every resident page has its reference bit set: their evictions clear none |
| Policies.ClockGivesSecondChance | Assignment2/starter/clock.c:23-61 | in a run of the simulator under clock, a victim was not referenced since the hand last passed it, and is never frame 0 |
| Policies.OptBeatsAny | Assignment2/starter/opt.c:35-94 | given the list and the addresses opt_evict needs, the simulator's miss count under opt is at most that of any run of any policy |
| ReadRuns.ReadSucceeds | Assignment2/starter/pagetable.c:46-66 | while no resident page is dirty, a read succeeds without swap, for any victim, and leaves none dirty |
| ReadRuns.ReadRun | Assignment2/starter/pagetable.c:46-66 | any pages can be read with any victims by a whole run, even without swap |
| ReadRuns.SameMisses | Assignment2/starter/pagetable.c:26-37 | with one frame, or at least as many frames as there are pages, any two runs on the trace have equal miss counters |
| OptAsBuilt.EvictsFrameZero | Assignment2/starter/opt.c:55-94 | in every run with the list opt_init leaves, every eviction takes frame 0, whatever the address words are |
| OptAsBuilt.ZeroRunIsBuilt | Assignment2/starter/opt.c:55-94 | every run whose victims are all frame 0 is a run of opt as built |
| OptAsBuilt.BuiltMissesMore | Assignment2/starter/opt.c:99-133 | for every memsize from 2 to the number of pages less one, a run of opt as built and one of another policy on the same trace over memsize + 1 pages, one miss apart |
| OptAsBuilt.BuiltIsMinimalIff | Assignment2/starter/opt.c:99-133 | for every n, opt as built misses no more often than any policy on all traces over n pages if and only if memsize is 1 or at least n |
| ClockCost.ClockAnswer | Assignment2/starter/clock.c:23-50 | with two frames or more clock has an answer in every state |
| ClockCost.ClockMissesAll | Assignment2/starter/clock.c:23-61 | for every length there is a run under clock that misses at every reference, over memsize + 1 pages, with page 0 in frame 0 and not asked for again |
| ClockCost.ReplaceZero | Assignment2/starter/pagetable.c:26-37 | on those traces, giving up page 0 first leaves memsize + 1 misses |
| ClockCost.ClockMissesMore | Assignment2/starter/clock.c:42-46 | for every memsize of two or more and every n above it, a run under clock with n misses and a run of another policy on the same trace with memsize + 1 |
| ClockCost.ClockFactorIff | Assignment2/starter/clock.c:42-46 | on traces over n pages clock misses at most a fixed factor more often than any policy if and only if memsize is 1 or at least n |
| Policies.FlushesBoundSimulator | Assignment2/starter/traceprogs/fastslim.py:62-88 | if fastslim flushes n times on the addresses of a nonempty trace, any simulator run with at most buffersize frames has n+1 misses or more |
| Fastslim.FilterCounts | Assignment2/starter/traceprogs/fastslim.py:62-77 | a line yields nothing exactly if it starts with '=', has no address, or is code that is not kept; else its type and its page of 4096 bytes |
| Fastslim.FilteredAreCounted | Assignment2/starter/traceprogs/fastslim.py:62-77 | the lines that count are the others, all of them and in order |
| Fastslim.NoCodeCounts | Assignment2/starter/traceprogs/fastslim.py:67-68 | without the option to keep code no line of type I counts |
| Fastslim.KeptInOrder | Assignment2/starter/traceprogs/fastslim.py:62-88 | everything printed or waiting is an input line, in input order, and the waiting items are one for each buffered page |
| Fastslim.KeptIfNew | Assignment2/starter/traceprogs/fastslim.py:80-87 | a line is printed or waiting exactly if its page was not in the buffer when it was read: the first reference to each page of a phase |
| Fastslim.FlushesPrintPhases | Assignment2/starter/traceprogs/fastslim.py:84-88 | the output is exactly buffersize items per flush |
| Fastslim.LastPhaseIsNotPrinted | Assignment2/starter/traceprogs/fastslim.py:84-88 | after a nonempty input some items are always left unprinted |
| Fastslim.FlushesArePhases | Assignment2/starter/traceprogs/fastslim.py:77-88 | the program's flushes are the phase boundaries of the page sequence |
| Fastslim.EveryFlushForcesAMiss | Assignment2/starter/traceprogs/fastslim.py:77-88 | a pass that flushes n times prints n * buffersize items, and every policy with at most buffersize frames misses at least n+1 times |
| Fastslim.BufferIsMostRecent | Assignment2/starter/traceprogs/fastslim.py:77-88 | the buffered pages are always the most recently used ones of an LRU list of memsize >= buffersize pages |
| Fastslim.DropsAreLruHits | Assignment2/starter/traceprogs/fastslim.py:80-82 | each dropped reference is a hit under LRU with memsize >= buffersize |
| Fastslim.SortSorts | Assignment2/starter/traceprogs/fastslim.py:48-48 | on any list the sort gives the same items in order of their time stamps |
| Fastslim.SortKeepsAscending | Assignment2/starter/traceprogs/fastslim.py:44-52 | sorting by time stamp leaves an already ascending list as it is |
| Fastslim.Reducer.constructor | Assignment2/starter/traceprogs/fastslim.py:34-36 | starts with nothing read, buffered or printed, under the given options |
| Fastslim.Reducer.EmitMarkedInTsOrder | Assignment2/starter/traceprogs/fastslim.py:44-52 | prints the waiting items, appended in time order, and empties both buffers; no marked item is ever added |
| Fastslim.Reducer.Process | Assignment2/starter/traceprogs/fastslim.py:62-88 | one line adds its reference to the input, unless it is a comment, unwanted code or has no address, and takes the globals to the specified state |
| Fastslim.Reducer.ProcessLine | Assignment2/starter/traceprogs/fastslim.py:77-88 | one reference takes the globals to the specified state of the longer input |
| Fastslim.Reducer.Reduce | Assignment2/starter/traceprogs/fastslim.py:62-88 | the whole pass prints what the specification says of the lines that count, which are exactly the ones described; without the option to keep code it holds and prints no code |
| Clock.DoSweep | Assignment2/starter/clock.c:23-50 | the victim's bit is clear, exactly the frames passed over lose their bit, and frame 0 is chosen only under an unmoved hand |
| Clock.SweepAhead | Assignment2/starter/clock.c:23-50 | if a clear bit lies ahead, the first one is the victim, found in one round per frame |
| Clock.SweepWraps | Assignment2/starter/clock.c:42-46 | otherwise the hand clears the bits up to the end and goes on at frame 1 |
| Clock.SweepEnds | Assignment2/starter/clock.c:23-50 | with two frames or more, any hand and any bits, the loop ends within memsize + 2 rounds with the victim computed in closed form |
| Clock.SweepEndsIff | Assignment2/starter/clock.c:23-50 | it ends if and only if there are two frames or frame 0's bit is clear |
| Clock.ClockStepBits | Assignment2/starter/clock.c:23-61 | after a reference a bit is set exactly if its page was referenced, or was set and not passed over |
| Clock.ClearMeansPassed | Assignment2/starter/clock.c:23-61 | in every state, a resident page's bit is set exactly if it was referenced since the hand last passed its frame |
| Clock.SecondChance | Assignment2/starter/clock.c:23-61 | a victim was not referenced since the hand last passed it, a pass in the same sweep included |
| Clock.OneFrameNeverEnds | Assignment2/starter/clock.c:23-50 | with one frame, after any run under any policy, a reference that needs a victim finds the bit set and the loop does not end |
| Clock.OneFrameEvictsIff | Assignment2/starter/clock.c:23-50 | with one frame, in any run, a reference needs a victim if and only if it leaves the page of the reference before |
| Clock.OneFrameOnePage | Assignment2/starter/clock.c:23-50 | the traces clock completes with one frame stay on one page |
| Clock.FrameZeroStays | Assignment2/starter/clock.c:42-46 | frame 0 is never a victim, and once the hand has left frame 0 it stays in 1..memsize-1 |
| Simulator.Machine.constructor | Assignment2/starter/sim.c:119-148 | the machine starts in the initial state with all globals zero |
| Simulator.Machine.InitSecondLevel | Assignment2/starter/pagetable.c:97-120 | a new second-level table changes no entry anyone can see |
| Simulator.Machine.FifoEvict | Assignment2/starter/fifo.c:21-30 | answers ind and advances it modulo memsize |
| Simulator.Machine.PassFrame | Assignment2/starter/clock.c:31-36 | passing a frame clears its bit and adds it to the frames passed |
| Simulator.Machine.Round | Assignment2/starter/clock.c:29-46 | one round of the loop finds the specified victim or leaves the rest of the sweep to the next round |
| Simulator.Machine.ClockEvict | Assignment2/starter/clock.c:23-50 | the loop over packed words ends at the specified victim, leaves the hand there and clears the reference bit of exactly the frames passed |
| Simulator.Machine.IsNextFrame | Assignment2/starter/opt.c:35-49 | -1 if the address is not in the list, else its first position |
| Simulator.Machine.OptEvict | Assignment2/starter/opt.c:55-79 | the loop answers the choice proved to be of furthest next use |
| Simulator.Machine.EvictFcn | Assignment2/starter/sim.c:134-139 | each algorithm's answer is a frame and changes at most its own global; only clock clears reference bits, any other leaves tables, memory and counters alone |
| Simulator.Machine.SwapPageout | Assignment2/starter/swap.c:222-256 | writes the frame to the given slot or the lowest free one and returns its offset; INVALID_SWAP exactly if none is free |
| Simulator.Machine.SwapPagein | Assignment2/starter/swap.c:188-213 | the frame gets the content of the slot |
| Simulator.Machine.InitFrame | Assignment2/starter/pagetable.c:132-142 | the frame gets version 0 and the address |
| Simulator.Machine.WriteVictim | Assignment2/starter/pagetable.c:48-62 | whole effect of the dirty branch on entry, swap file, bitmap and counter |
| Simulator.Machine.EvictFrame | Assignment2/starter/pagetable.c:43-67 | the code's eviction is the specified one, and fails exactly if it does |
| Simulator.Machine.FindFree | Assignment2/starter/pagetable.c:29-34 | the search loop finds the lowest free frame, or that all are in use |
| Simulator.Machine.AllocateFrame | Assignment2/starter/pagetable.c:26-75 | a free frame without asking the algorithm, else the algorithm's victim evicted as specified; the frame is assigned to the page |
| Simulator.Machine.LoadPage | Assignment2/starter/pagetable.c:183-196 | allocates and fills the frame as specified |
| Simulator.Machine.MarkEntry | Assignment2/starter/pagetable.c:201-205 | sets valid and referenced, and dirty on a store or modify, on one entry only |
| Simulator.Machine.RefFcn | Assignment2/starter/opt.c:85-94 | opt's list loses its head, if it has one; the other algorithms change nothing |
| Simulator.Machine.FindPhyspage | Assignment2/starter/pagetable.c:157-212 | returns the frame that now holds the page; state, counters and globals are the specified ones |
| Simulator.Machine.AccessMem | Assignment2/starter/sim.c:49-63 | one access is one step: version, tag test and new state as specified, or the run ends because swap is full |
| Simulator.Machine.OptInit | Assignment2/starter/opt.c:99-133 | reading the whole trace leaves a list of the first reference's address only |
| Simulator.Machine.InitFcn | Assignment2/starter/sim.c:147-148 | sets the global of the algorithm in use: index 0, hand 0, or opt's list |
| Simulator.Machine.ReplayTrace | Assignment2/starter/sim.c:66-83 | the loop over the lines makes a run of the algorithm in use over the references the lines stand for; errors counts the references whose tag test failed; it stops early only if the algorithm's victim finds swap full |
| Simulator.Simulate | Assignment2/starter/sim.c:86-166 | the program, for every algorithm: a run from the initial state with the globals its init function sets; the five counters it prints are the run's and add up; it stops early only if the algorithm's victim finds swap full, and not at all if at most swapsize distinct pages are written; errors counts the failed tag tests, none on page-aligned traces |
| Layout.Injective | Assignment2/starter/traceprogs/blocked.c:32-44 | no two places of a matrix share a blocked index, nor a row-by-row index |
| Layout.PlaceAtIsAt | Assignment2/starter/traceprogs/blocked.c:249-279 | every blocked index is that of a place |
| Layout.PlaceInRowIsRow | Assignment2/starter/traceprogs/blocked.c:249-279 | every row-by-row index is that of a place |
| Layout.ClosedForm | Assignment2/starter/traceprogs/blocked.c:32-44 | entry (r, c) is at r*n + c by rows and at ((r/b)*n_bar + c/b)*b*b + (r%b)*b + c%b blocked |
| Layout.ToBlockedPlaces | Assignment2/starter/traceprogs/blocked.c:249-279 | after conversion every entry is at its blocked index |
| Layout.FromBlockedPlaces | Assignment2/starter/traceprogs/blocked.c:290-319 | after conversion back every entry is at its row-by-row index |
| Layout.OneMatrix | Assignment2/starter/traceprogs/blocked.c:32-44 | two arrays in one layout are equal exactly if their conversions are |
| Layout.BlockedRoundTrip | Assignment2/starter/traceprogs/blocked.c:249-319 | the two conversions are inverse to each other, both ways |
| Multiply.ProductWrittenOut | Assignment2/starter/traceprogs/matmul.c:136-146 | entry i*n + j of a product is zero and then, added on the right for k from 0 to n-1, the product of entries i*n + k and k*n + j |
| Multiply.ProductIsUnique | Assignment2/starter/traceprogs/matmul.c:136-146 | the entry-by-entry specification determines the whole product |
| Multiply.BlockDotIsDot | Assignment2/starter/traceprogs/blocked.c:193-204 | block by block, a cell receives the same terms in the same order as in the naive sum, without any law of arithmetic |
| Multiply.MatMult | Assignment2/starter/traceprogs/matmul.c:136-146 | the triple loop leaves the product in C |
| Multiply.Pointers | Assignment2/starter/traceprogs/blocked.c:249-319 | each step of the running pointers is the step of their closed-form index |
| Multiply.AddOne | Assignment2/starter/traceprogs/blocked.c:193-204 | one innermost step reads and writes in bounds and gives one cell its next term |
| Multiply.Blocked.constructor | Assignment2/starter/traceprogs/blocked.c:86-118 | n_bar and b_sqr fit the order and the block size |
| Multiply.Blocked.ZeroC | Assignment2/starter/traceprogs/blocked.c:172-176 | zeroes exactly the b*b cells of one block |
| Multiply.Blocked.MultAdd | Assignment2/starter/traceprogs/blocked.c:193-204 | adds one block product to one block of C, leaving all other cells |
| Multiply.Blocked.BlockedMatMult | Assignment2/starter/traceprogs/blocked.c:214-223 | every cell of C has received every term |
| Multiply.ToBlockedInPlace | Assignment2/starter/traceprogs/blocked.c:249-279 | the pointer loops convert the array in place, every dereference in bounds |
| Multiply.FromBlockedInPlace | Assignment2/starter/traceprogs/blocked.c:290-319 | the same, back |
| Multiply.BlocksAreProduct | Assignment2/starter/traceprogs/blocked.c:214-223 | finished blocks, unblocked, are the product of the unblocked factors |
| Multiply.BlockedProduct | Assignment2/starter/traceprogs/blocked.c:107-118 | To_blocked on A and B, Blocked_mat_mult and From_blocked on C leave exactly what the naive program computes |

## Left out

- Files and processes: mkstemp, lseek, read, write, fgets, sscanf, getopt, printing and malloc failure. The swap file is a map from slot to content and reading a written slot succeeds; a trace is a sequence of type and address.
- Exit on a full swap: the run ends there (`Policies.GivesUp`); what exit does is not modelled.
- Machine detail: the tag bits of a directory entry (an optional table instead), second-level tables as values in the directory array and entry pointers as page numbers, a page as its version and address words. Counters and version words are unbounded; memsize is at most 2^20, so that a frame number fits an entry word, and swapsize is such that offsets do not overflow.
- Simulator.Machine.SwapPageout: does not model the INVALID_SWAP returns after a failing lseek or write, since input and output are assumed to succeed; the program exits there.
- Simulator.Machine.SwapPagein: does not model the error returns after a failing lseek or read, for the same reason.
- Simulator.Machine.ReplayTrace: takes each line as a comment or a type with the address sscanf finds, if any; scanning the characters and the debug printing are left out.
- Simulator.Simulate: needs memsize > 0, and under clock with one frame a trace of one page, which are the traces the program ends on (`Clock.OneFrameOnePage`); what a run that never ends does is left to `Clock.OneFrameNeverEnds`; addresses are below 2^36, where the directory ends.
- Policies.OptBeatsAny: assumes a complete list of references and an address word in every entry, which the program does not provide; `OptAsBuilt` is about what it does provide.
- Policies.FifoBeatsAnyByFactor: like the other comparisons, speaks of runs that both policies complete; their swap sizes may differ.
- lru.c and rand.c: covered only as "some frame" (`AnyAlg`). lru.c never reaches its move-to-top branch and does not keep a recency order; the LRU list used for fastslim is the abstract one.
- Transparency.TransparentIff: is about the code as it is; a version with line 196 repaired is not modelled.
- Fastslim.Reducer.Reduce: takes each line as its type and the address found in it, if any; scanning the characters, options, negative addresses and negative buffer sizes are left out. Nothing is claimed about LRU miss counts of the reduced trace.
- Multiply.BlockedProduct: only the debug build, which converts the layouts; command line, random matrices and timing are left out. Filling memory with zero bytes is modelled as storing the zero of the arithmetic.
- print_pagedirectory, print_pagetbl, simpleloop.c, queloop.c, makefiles and scripts: no property beyond their text.
- Assignment1 and Assignment3: separate programs, not modelled.
