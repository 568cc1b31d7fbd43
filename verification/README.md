# Page-replacement simulators: FIFO and LRU

This project models the two page-replacement simulators of `script.js`:
`fifo(pageReferences, pageFrames)` and `lru(pageReferences, pageFrames)`.

Each simulator:
- walks a list of integer page references once;
- keeps a fixed array of `pageFrames` slots, in which `null` marks an empty slot;
- records one snapshot per reference: a copy of the frames, a `Hit`/`Miss` status, and the page;
- returns the snapshots together with the number of page faults.

The two policies:
- **FIFO** keeps a circular write pointer. A miss overwrites the slot under the pointer and then advances the pointer modulo `pageFrames`.
- **LRU** keeps `recentUsage`, the resident pages from least to most recently referenced.
  - A miss fills the lowest-index empty slot if there is one.
  - Otherwise it shifts the front page off `recentUsage` and overwrites the slot that holds that page.
  - Every reference, hit or miss, moves its page to the back of `recentUsage`.

## Layout

- `frames.dfy` (`Frames`) holds what both simulators share:
  - the frame array as `seq<Option<int>>`, with `None` for `null`;
  - `Status`, `Snapshot`, and the returned record `Simulation`;
  - `ValidTrace`, the property every trace of either simulator has;
  - set-level facts about writing into frames.
- `slots.dfy` (`Slots`) counts the FIFO pointer out as `Slot(k, n)`, the slot of the k-th write. It proves that `Slot` is `k % n`.
- `fifo.dfy` (`Fifo`) contains:
  - the per-reference step `Step`, folded over the references by `Run`;
  - `Simulate`, the function, and `SimulateLoop`, the `forEach` loop, proved equal to it;
  - the eviction-order proof, which relates the state to the history of misses.
- `recency.dfy` (`Recency`) contains:
  - `Remove`, the `filter` on `recentUsage`;
  - `LastIndex`, the last reference of a page in the history;
  - `ByRecency`, which says a list is ordered by last reference.
- `lru.dfy` (`Lru`) has the same shape as `Fifo`. Its eviction-order proof rests on `ByRecency`.
- `scenarios.dfy` (`Scenarios`) holds small runs, stated for arbitrary distinct pages.
  - One of them is a string on which the two policies evict different pages.
  - Another is the seven-reference run worked through below.

A run is a left fold of the step function: `Run(refs, n)` steps the state of `Run(refs[..|refs|-1], n)`. So a fact that "holds after every step" is proved by induction on the references. The simulators are pure functions, so running one twice on the same input gives the same result by construction.

## A worked LRU run

Take the references 1, 2, 3, 4, 1, 2, 5 and three frames. `lru` runs as follows:

| reference | evicts | frames after | `recentUsage` after |
|---|---|---|---|
| 1 | none | `[1,-,-]` | `[1]` |
| 2 | none | `[1,2,-]` | `[1,2]` |
| 3 | none | `[1,2,3]` | `[1,2,3]` |
| 4 | 1 | `[4,2,3]` | `[2,3,4]` |
| 1 | 2 | `[4,1,3]` | `[3,4,1]` |
| 2 | 3 | `[4,1,2]` | `[4,1,2]` |
| 5 | 4 | `[5,1,2]` | `[1,2,5]` |

- On the fourth reference, `recentUsage.shift()` yields 1, the least recently used page, so 4 replaces 1 in slot 0. It does not replace 3, and the frames do not become `[1,2,4]`.
- Every reference faults: 7 faults, the same as `fifo`. On this string `fifo` passes through the same frames.

`Scenarios.SevenReferences` proves, for any five distinct pages in place of 1 to 5, that both runs fault 7 times and end with the frames `[5,1,2]`. The lemmas it rests on give the state after each prefix. `Lru.EvictsLeastRecentlyUsed` proves the general eviction rule.

## Model

| member | source | states |
|---|---|---|
| Frames.EmptyFrames | script.js:8 | `Array(pageFrames).fill(null)` gives n slots, every one empty, so no page is resident and none is duplicated |
| Frames.IndexOf | script.js:50 | `indexOf` returns a position holding the value, and no earlier position holds it |
| Frames.ExtendTrace | script.js:27-31 | appending a snapshot that follows the latest frames keeps the trace valid; the miss count grows by one exactly for a Miss |
| Frames.OverwriteSlot | script.js:18 | overwriting the one slot that holds v removes v, adds the new page and keeps every other resident page |
| Slots.SlotIsMod | script.js:19 | the slot of the k-th write, counted by wrapping around n slots, is k mod n |
| Slots.SlotSucc | script.js:19 | advancing the pointer by `(pointer + 1) % pageFrames` moves from the slot of the k-th write to that of the (k+1)-th |
| Slots.SlotDistinct | script.js:18-19 | writes fewer than n apart land in different slots |
| Fifo.Init | script.js:8-11 | before the first reference: n empty frames with no resident page, the pointer at slot 0, no snapshots and no faults |
| Fifo.Step | script.js:14-31 | a hit leaves frames, pointer and faults unchanged; a miss writes the page into slot `pointer` only, advances the pointer mod n and counts one fault; the page is resident afterwards, slots stay distinct, and one snapshot is appended |
| Fifo.Run | script.js:8-13 | after any prefix of the references: n distinct slots, pointer in range and equal to the miss count wrapped around n, faults equal to the Miss snapshots, one snapshot per reference, and the frames equal to the last snapshot's |
| Fifo.PointerCountsMisses | script.js:11 | the pointer equals the number of faults modulo `pageFrames` |
| Fifo.RunTrace | script.js:13-32 | every FIFO run is a valid trace: one snapshot per reference, in order, frames of length n with distinct pages including the current one, Hit exactly when the page was resident before, and a Hit changes nothing |
| Fifo.Simulate | script.js:7-35 | the returned snapshots form a valid trace, `pageFaults` is the number of Miss snapshots, and no references give no snapshots and 0 faults |
| Fifo.ProcessPage | script.js:13-32 | the `forEach` callback, written with mutable locals as in the source, computes exactly one step |
| Fifo.SimulateLoop | script.js:7-35 | the loop over the references returns exactly what the fold `Simulate` defines |
| Fifo.StepTracks | script.js:16-20 | one step keeps the state in step with its miss history: the last n missed pages sit in the slots they were written to, in circular order from the pointer |
| Fifo.RunTracks | script.js:16-20 | every run is in step with its own miss history |
| Fifo.EvictsOldestWritten | script.js:18-19 | with all slots full, the slot under the pointer holds the page written n misses ago and every other slot a page written since; a miss replaces exactly that oldest-written page, whatever hits happened in between |
| Fifo.FillsEmptySlot | script.js:18 | before n misses the pointer is at an empty slot, so a miss adds a page and removes none |
| Fifo.FaultsWhenAllFit | script.js:16-20 | when at most n distinct pages are referenced, the resident pages are exactly those referenced and each faults exactly once |
| Recency.Remove | script.js:62-64 | `filter(item => item !== page)` keeps exactly the other pages, adds no duplicates, and changes nothing when the page is absent |
| Recency.RemoveCounts | script.js:62-64 | `filter` drops every copy of the page and keeps every other page exactly as often as it occurred |
| Recency.LastIndex | script.js:61-65 | the position of a page's last reference in the history, with no later reference to it |
| Recency.RemoveKeepsOrder | script.js:62-64 | dropping a page keeps the rest in order of last reference |
| Recency.TailKeepsOrder | script.js:52 | `recentUsage.shift()` keeps the rest in order of last reference |
| Recency.AppendKeepsOrder | script.js:65 | pushing the page just referenced, when it is not listed, keeps the list ordered by last reference in the extended history |
| Lru.Init | script.js:39-42 | before the first reference: n empty frames with no resident page, an empty `recentUsage` that already mirrors them, no snapshots and no faults |
| Lru.FullFramesHaveUsage | script.js:51-53 | with every frame taken, `recentUsage` is non-empty and its front page is resident, so `shift` and `indexOf` find something |
| Lru.Touch | script.js:61-65 | the usage update lists the old pages plus the current one, keeps the list free of duplicates, and puts the current page last |
| Lru.ShiftUsage | script.js:52 | `shift` on a list without duplicates removes the front page and nothing else |
| Lru.Step | script.js:45-72 | each step keeps `recentUsage` duplicate-free and equal as a set to the resident pages; the page is resident and last in `recentUsage`; the fault count grows exactly on a miss, and one snapshot is appended |
| Lru.HitMovesToBack | script.js:56-65 | a hit changes neither frames nor faults and moves the page to the back of `recentUsage` |
| Lru.FillsLowestEmptySlot | script.js:49-50 | a miss with an empty slot writes the page into the lowest-index empty slot, removes no page and leaves every other slot alone |
| Lru.EvictsFrontOfUsage | script.js:51-54 | a miss with no empty slot replaces the front page of `recentUsage` in its own slot, leaves every other slot alone, and drops that page from the usage list |
| Lru.MissStep | script.js:47-72 | a miss writes the page into one slot k, the lowest empty slot if any and otherwise the slot of the front of `recentUsage`; the page goes to the back of `recentUsage`, the front is dropped only when the frames were full, and one fault and one Miss snapshot are recorded |
| Lru.Run | script.js:39-44 | after any prefix of the references the state mirrors the frames, faults count the Miss snapshots, one snapshot per reference, and the last reference is last in `recentUsage` |
| Lru.RunTrace | script.js:44-73 | every LRU run is a valid trace, as for FIFO |
| Lru.Simulate | script.js:38-76 | the returned snapshots form a valid trace, `pageFaults` is the number of Miss snapshots, and no references give no snapshots and 0 faults |
| Lru.ProcessPage | script.js:44-73 | the `forEach` callback, written with mutable locals as in the source, computes exactly one step |
| Lru.SimulateLoop | script.js:38-76 | the loop over the references returns exactly what the fold `Simulate` defines |
| Lru.StepKeepsRecency | script.js:47-65 | one step keeps `recentUsage` ordered by last reference, with the page appended to the history |
| Lru.RunKeepsRecency | script.js:42-65 | after every run `recentUsage` lists the resident pages from least to most recently referenced in the whole history |
| Lru.EvictsLeastRecentlyUsed | script.js:51-54 | a miss with all frames full replaces the resident page whose last reference is earlier than that of every other resident page |
| Lru.FaultsWhenAllFit | script.js:47-55 | when at most n distinct pages are referenced, the resident pages are exactly those referenced and each faults exactly once |
| Scenarios.FifoFourDistinct | script.js:13-24 | FIFO, three frames, four distinct pages: the fourth overwrites the first in slot 0 |
| Scenarios.LruFourDistinct | script.js:47-54 | LRU, three frames, four distinct pages: the fourth evicts the first, not the third |
| Scenarios.FifoIgnoresHits | script.js:16-24 | FIFO, two frames, a, b, a, c: c overwrites a despite the hit on a |
| Scenarios.LruHonoursHits | script.js:47-65 | LRU, two frames, a, b, a, c: the hit on a makes b the victim |
| Scenarios.SevenReferences | script.js:7-76 | FIFO and LRU, three frames, a, b, c, d, a, b, e: each policy faults on all seven references and ends with the frames `[e, a, b]` |

## Left out

- The click handler, `displayVisualization` and `resetForm` (script.js:79-140) are DOM and UI code with nothing to verify.
- `parsePageReferences` (script.js:2-4) relies on JavaScript's `split` and `Number` coercion. Pages are modelled as already-parsed integers.
- `pageFrames <= 0` is excluded by `requires n > 0` on every operation. In JavaScript, `% 0` makes the pointer NaN, and a full-frames miss on zero frames writes to `frames[-1]`.
- `Array(pageFrames)` (script.js:8, 39) throws a RangeError when `pageFrames` is negative, is not an integer, or is 2^32 or more. Here `n` is an unbounded `nat`, so the upper limit on JavaScript array lengths is not modelled: counts of 2^32 and above are accepted.
- NaN and `null` pages are not modelled. The source's `includes` and `indexOf` disagree on NaN. Pages here are integers, and `None` is reserved for empty slots.
- The status strings `"Hit"`/`"Miss"` are the datatype `Status`. The `'-'` rendering of empty slots is presentation only.
- `recentUsage.shift()` on an empty list, and `indexOf` returning -1 for the shifted page, are not modelled. `Lru.FullFramesHaveUsage` proves that whenever the frames are full, `recentUsage` is non-empty and its front page is resident. So neither path is reachable from the initial state.
- `Lru.Step` requires `Mirrors`, the invariant that `recentUsage` equals the resident set without duplicates. The source does not check it, but every run from the empty frames keeps it (`Lru.Run`).
- Mutation of the frames array in place is modelled by sequence update. Each snapshot's `[...frames]` copy is the value of the frames at that step.
