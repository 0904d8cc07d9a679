# Arena allocator: a verified model

This project models `mavalloc.c`, a fixed-capacity arena allocator. The
allocator reserves one pool and hands out regions of it under one of four
placement algorithms: first-fit, next-fit, best-fit and worst-fit. Its
bookkeeping is an address-ordered, linked list of nodes. Each node records a
start address, a size and a FREE/USED tag. The list always partitions the
pool.

The model is written in Dafny:

- `wrappers.dfy`: `Option`. `None` stands for the C code's NULL.
- `blocks.dfy` (module `Blocks`): the block list as a value (`seq<Block>`, addresses
  as offsets from the arena base) and what a well-formed list is (`Partition`,
  `Aligned`). Also the two ways the allocator rewrites the list, as functions:
  `Split` (mark the matched block USED and insert the leftover after it) and
  `MarkFree`. Lemmas cover the sum of sizes, address order, disjointness, split
  and free, and the alloc/free round trip.
- `placement.dfy` (module `Placement`): the four policies. Each is a predicate
  that says which block it must choose, plus a read-only search method that
  walks the list like the C loop and is proved to return exactly that block,
  or None when no FREE block fits.
- `arena.dfy` (module `Arena`): class `Allocator`. Its fields are the
  allocator's globals: the list, the next-fit cursor (`previous_node`, held as
  an index), the active algorithm and the capacity. Its methods are
  `mavalloc_init`, `mavalloc_alloc`, `mavalloc_free`, `mavalloc_size` and
  `mavalloc_destroy`. Each method states its new state in terms of the
  functions above and keeps `Valid()`.
- `coalesce.dfy` (module `Coalescing`): the merging of neighbouring FREE blocks
  that the comment above `mavalloc_free` describes. The code never does this
  merge. It is a separate function and pass, used only by the separate method
  `Allocator.FreeAndCoalesce`.
- `scenarios.dfy` (module `Scenarios`): client runs proved from the contracts
  alone (first-fit reuse, next-fit resuming at the cursor, best-fit, worst-fit,
  exhaustion, coalescing).
- `findings.dfy` (module `Findings`): the code as written where it departs from
  its evident intent, with concrete inputs.

## Where the code and its comments differ

Each item says which side the model follows.

- `mavalloc_free` only marks the block FREE (mavalloc.c:296-299). The comment
  above it (mavalloc.c:285-290) describes merging FREE neighbours. The model follows
  the code: `Allocator.Free` is mark-only. Merging is
  `Allocator.FreeAndCoalesce`, kept separate.
- Next-fit starts scanning AT the cursor node (mavalloc.c:124), not at the node
  after it, and the model follows the code. Because the cursor block was just made USED, this only matters once
  that block has been freed again.
- Blocks may have size 0. `init(0)` makes a single 0-byte block. `alloc(0)` marks
  a 0-byte USED block and leaves the whole leftover FREE at the same address.
  Addresses are therefore non-decreasing along the list, not strictly
  increasing. `free(p)` frees the FIRST block starting at `p`, which can be such
  a 0-byte block. `AllocFreeRoundTrip` requires that the freed block is the
  first at its address.
- With mark-only free, `alloc(x)` followed by `free` gives back every FREE byte.
  It does not give back the block count when the block was split
  (`AllocFreeRoundTrip`). With coalescing it restores the list exactly
  (`AllocFreeCoalesceRoundTrip`).
- An unmatched `free` signals nothing (the C function returns `void`). `init`
  cannot fail, because `size < 0` never holds for a `size_t`.
- Best-fit and worst-fit as written return at the first FREE node that fits
  (for sizes below 2^31) and change nothing (see Findings). Here the model follows
  the comments: it selects the best and worst block as the comments at
  mavalloc.c:241-249 and mavalloc.c:262-270 say. It then applies the first-fit branch's mark, split and cursor
  update (mavalloc.c:151-170) uniformly, so every successful allocation moves
  the cursor to the matched block.
- The cursor is an index. Mark-only free never changes the list's shape. A split
  inserts only after the matched block, which becomes the cursor. So, in the
  corrected allocator, where every policy moves the cursor, the index always
  names the node `previous_node` would point to. In mavalloc.c best-fit and
  worst-fit never assign `previous_node` (mavalloc.c:237-279), so under those
  policies the C pointer stays where init or an earlier first-fit or next-fit
  allocation left it.

## Model

| member | source | states |
|---|---|---|
| `Blocks.Align4` | mavalloc.c:134 | the rounded size is a multiple of 4, at least the request and less than 4 above it |
| `Blocks.PartitionSum` | mavalloc.c:43-49 | in a list that partitions the arena, the block sizes sum to the capacity |
| `Blocks.ContiguousSum` | mavalloc.c:43-49 | a contiguous list's sizes add up to the distance from its first start to its last end |
| `Blocks.ContiguousOrdered` | mavalloc.c:43-49 | blocks are in address order: an earlier block ends no later than any later block starts |
| `Blocks.Disjoint` | mavalloc.c:43-49 | no two distinct blocks of the list share a byte, so live allocations never alias |
| `Blocks.SplitShape` | mavalloc.c:147-169 | a split makes the matched block USED with exactly the aligned size; it inserts a FREE leftover of `old_size - aligned_size` right after it exactly when that is positive; all other blocks keep their order and value; the count grows by at most 1 |
| `Blocks.SplitValid` | mavalloc.c:147-169 | a split keeps the list a contiguous partition of the same arena with sizes that are multiples of 4 |
| `Blocks.SplitTotals` | mavalloc.c:147-169 | a split keeps the sum of sizes and removes exactly the aligned size from the FREE bytes |
| `Blocks.StartIndex` | mavalloc.c:291-302 | the index found is the first block whose start equals the pointer; None exactly when no block starts there |
| `Blocks.MarkFreeShape` | mavalloc.c:291-302 | free never changes count, order, starts or sizes; it clears USED on exactly the first block starting at the pointer |
| `Blocks.MarkFreeValid` | mavalloc.c:291-302 | free keeps the partition and the 4-byte alignment of sizes |
| `Blocks.AllocFreeRoundTrip` | mavalloc.c:145-171 | splitting block `i`, then freeing its start, restores the FREE bytes and the sum of sizes; the count stays one higher exactly when there was a leftover |
| `Placement.ChoiceUnique` | mavalloc.c:137-279 | each policy's choice is unique, so every allocation is deterministic |
| `Placement.ChosenFits` | mavalloc.c:145 | a chosen block is FREE and at least the aligned size |
| `Placement.NextFitFromHead` | mavalloc.c:118-124 | next-fit with the cursor at the head chooses exactly what first-fit chooses |
| `Placement.FindFirstFit` | mavalloc.c:137-175 | returns the earliest FREE block of at least the aligned size; no earlier block qualifies; None exactly when none fits |
| `Placement.FindNextFit` | mavalloc.c:176-236 | scans from the cursor and wraps from tail to head, visiting each block once; returns the first fitting block in that order; None exactly when none fits |
| `Placement.FindBestFit` | mavalloc.c:237-258 | returns a fitting block with the smallest leftover, the earliest on a tie; None exactly when none fits |
| `Placement.FindWorstFit` | mavalloc.c:259-279 | returns a fitting block with the largest leftover, the earliest on a tie; None exactly when none fits |
| `Placement.Select` | mavalloc.c:118-130 | dispatches on the algorithm; the result is that policy's choice, or None exactly when no FREE block fits |
| `Arena.Allocator.constructor` | mavalloc.c:51-61 | the initial globals: no list, first-fit as the algorithm |
| `Arena.Allocator.Init` | mavalloc.c:64-90 | the list is one FREE block at offset 0 of size ALIGN4(size); the cursor is that block; the algorithm is recorded |
| `Arena.Allocator.Alloc` | mavalloc.c:112-283 | NULL exactly when no FREE block fits, and then nothing changes; otherwise it returns the chosen block's start, the list becomes the split of that block, and the cursor names it; the partition invariant is kept |
| `Arena.Allocator.Free` | mavalloc.c:287-304 | the list becomes `MarkFree` of the old list; cursor, capacity and algorithm are unchanged |
| `Arena.Allocator.Size` | mavalloc.c:308-321 | returns the number of blocks |
| `Arena.Allocator.Destroy` | mavalloc.c:93-108 | the list is empty and the capacity 0 |
| `Arena.Allocator.FreeAndCoalesce` | mavalloc.c:285-290 | the list becomes the coalesced `MarkFree` of the old list; no two neighbours are FREE; the cursor names the merged block its old block was folded into, which spans it |
| `Coalescing.CoalesceShape` | mavalloc.c:285-290 | coalescing keeps the first start, the end and contiguity; it never adds a block and leaves no FREE neighbours |
| `Coalescing.CoalesceValid` | mavalloc.c:285-290 | coalescing keeps the partition and alignment and leaves no two neighbouring FREE blocks |
| `Coalescing.CoalesceKeeps` | mavalloc.c:285-290 | coalescing keeps the FREE bytes, the total, and every USED block in order |
| `Coalescing.CoalesceNothingToDo` | mavalloc.c:285-290 | a list without FREE neighbours is left unchanged |
| `Coalescing.SplitKeepsNoAdjacentFree` | mavalloc.c:147-169 | an allocation's split keeps a list free of neighbouring FREE blocks |
| `Coalescing.AllocFreeCoalesceRoundTrip` | mavalloc.c:285-290 | for a list without FREE neighbours, alloc from block `i` then a coalescing free of the returned address restores the list exactly, block count included, provided block `i` is the first block at its address |
| `Coalescing.MergeRuns` | mavalloc.c:285-290 | one walk down the list computes the coalesced list, whose length is one more than the number of run boundaries; the returned index is the merged block the cursor's block was folded into (the number of run boundaries up to it), and that block spans it |
| `Scenarios.FirstFitScenario` | mavalloc.c:137-175 | in 100 bytes, 20 goes to 0 and 30 goes to 20; after free(0), 10 goes to 0 again |
| `Scenarios.NextFitScenario` | mavalloc.c:176-236 | after the second block was matched and the first freed, the next request is served from the third block |
| `Scenarios.BestFitScenario` | mavalloc.c:237-258 | with FREE holes of 48, 12 and 32 bytes, 8 bytes go to the 12-byte hole |
| `Scenarios.WorstFitScenario` | mavalloc.c:259-279 | with the same holes, 8 bytes go to the 48-byte hole |
| `Scenarios.ExhaustionScenario` | mavalloc.c:282 | a request larger than every FREE block fails under every policy and leaves the block count unchanged |
| `Scenarios.CoalescingScenario` | mavalloc.c:285-290 | freeing two neighbouring allocations with coalescing leaves one block spanning the arena |
| `Findings.SplitAsWrittenOverlaps` | mavalloc.c:163 | as written, a 5-byte request from 100 bytes leaves the leftover at 5 inside the USED [0, 8), and the list no longer ends at 100 |
| `Findings.SplitAsWrittenAgrees` | mavalloc.c:163 | as written, the split agrees with the corrected split of the rounded request exactly when the request is already a multiple of 4 or the block leaves no leftover |
| `Findings.FirstFreeBelow` | mavalloc.c:244-279 | the scan finds the first FREE node whose size_t difference is below the bound; None exactly when there is none |
| `Findings.AsWrittenIsFirstFit` | mavalloc.c:244-279 | for sizes below INT_MAX, best-fit and worst-fit as written both choose exactly the first-fit block |
| `Findings.BestFitAsWrittenNotBest` | mavalloc.c:244-255 | on a concrete partition, best-fit as written picks block 0 while the smallest leftover is block 2 |
| `Findings.WorstFitAsWrittenNotWorst` | mavalloc.c:265-276 | on a concrete partition, worst-fit as written picks block 0 while the largest leftover is block 2 |
| `Findings.AsWrittenHandsOutTwice` | mavalloc.c:250-254 | best-fit as written leaves the list unchanged, so two requests in a row get the same block |
| `Findings.SplitRetires` | mavalloc.c:151-153 | once split, the matched block is USED and no policy chooses it again |
| `Findings.NextFitAsWrittenHangs` | mavalloc.c:177-235 | with the stop marker at the head and no fitting block, the loop as written is still running after any number of iterations |
| `Findings.NextFitAsWrittenHangsAfterInit` | mavalloc.c:177-235 | after init(100, NEXT_FIT), alloc(104) never returns as written, although no block fits |

## Left out

- The `malloc` and `free` of the backing buffer and of node records
  (mavalloc.c:74, 78, 96, 102, 161, 209). The arena is a range of offsets that
  starts at 0.
- `mavalloc_destroy`'s walk of the list, which reads `next` after `free`
  (mavalloc.c:100-104). Destroy resets to the empty state. It keeps the
  algorithm, as the globals do.
- The `printf`/`exit` branch for an unknown algorithm (mavalloc.c:126-130). It
  cannot be reached with a closed `Algorithm` datatype.
- The `size < 0` check and the `return -1`/`return 0` of `mavalloc_init`. The
  capacity is a `nat`, so init always succeeds and has no result.
- `ALIGN4` and `enum ALGORITHM` come from `mavalloc.h`, which is not part of
  this model. `ALIGN4(n)` is taken as `(n + 3) / 4 * 4`.
- 64-bit `size_t` wrap-around in `ALIGN4` and in address arithmetic, and the
  truncation of `leftover_size` to `int` for blocks of 2^31 bytes or more. The
  corrected model uses unbounded integers. The unsigned wrap in
  `node->size - aligned_size` is modelled only in `Findings`.
- The `prev` links, which no operation reads. So the missing `prev` on leftover
  nodes (mavalloc.c:160-168) is not observable here.
- The uninitialised `previous` (mavalloc.c:177). In the corrected scan
  (`FindNextFit`) the stop marker is the start node. `Findings` models the
  `previous == NULL` branch, which puts the marker at the head.
- Best-fit and worst-fit returning a node pointer instead of its address
  (mavalloc.c:254, 275). The model returns the block's start.
- The sentinels `INT_MAX` and `INT_MIN` of best-fit and worst-fit. The corrected
  searches keep an optional winner instead, which behaves the same for blocks
  below 2^31 bytes.
- Concurrency. The code is single-threaded global state.
- `Arena.Allocator.FreeAndCoalesce`: it is an addition, not code from
  mavalloc.c. Its cursor rule (the merged block the old cursor's block was folded into) is
  this model's choice, because the code never merges.

## Findings

| source | as written | input that shows it | evidently intended | confidence | as-written member | corrected member |
|---|---|---|---|---|---|---|
| mavalloc.c:163 | the leftover node starts at `node->arena + size`, the unrounded request; the next-fit branch repeats it at mavalloc.c:211 | init(100), alloc(5): the USED block is [0, 8) and the FREE leftover starts at 5 | `node->arena + aligned_size` | high, not executed | `Findings.SplitAsWrittenOverlaps` | `Blocks.SplitValid` |
| mavalloc.c:244-255 | best-fit returns the first FREE node whose `size - aligned_size` is below INT_MAX, without looking further | FREE 48 at 0, USED 4, FREE 12 at 52, USED 4, FREE 32 at 68; alloc(8) gets the 48-byte hole | the fitting block with the smallest leftover (the 12-byte hole) | high, not executed | `Findings.BestFitAsWrittenNotBest` | `Placement.FindBestFit` |
| mavalloc.c:265-276 | worst-fit compares with `<` against INT_MIN as `size_t` and returns the first FREE node that fits | FREE 12 at 0, USED 4, FREE 48 at 16, USED 4, FREE 32 at 68; alloc(8) gets the 12-byte hole | the fitting block with the largest leftover (the 48-byte hole) | high, not executed | `Findings.WorstFitAsWrittenNotWorst` | `Placement.FindWorstFit` |
| mavalloc.c:250-254 | best-fit and worst-fit return before marking the node USED or splitting it | the layout above: two alloc(8) in a row both get block 0 | mark USED and split, as the first-fit branch does | high, not executed | `Findings.AsWrittenHandsOutTwice` | `Findings.SplitRetires` |
| mavalloc.c:225-234 | next-fit tests `node == previous` before wrapping from NULL to the head, so a marker at the head is never met | init(100, NEXT_FIT), alloc(104): the loop never ends | return NULL after one full turn | medium (the marker is uninitialised), not executed | `Findings.NextFitAsWrittenHangsAfterInit` | `Placement.FindNextFit` |
