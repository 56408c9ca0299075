# Page-replacement simulator: a verified model

`replaceAlgos.c` is a Monte Carlo harness. It estimates the average number of
page faults that three page-replacement policies produce for working-set sizes
4 to 20. The policies are LRU, FIFO and Clock (second chance). The traces are
synthetic: each trace is 1000 references cut into ten regions of 100, and each
region's page numbers are drawn around a shifted mean.

This project models the core of that program in Dafny:

- `Frame` (`frame.dfy`) is the working-set frame: `wss` slots, each empty slot
  holding `INT_MIN`. It also has the two linear scans every engine uses:
  `arrayContains` and `getIndex`.
- `Policy` (`policy.dfy`) is one pure state machine shared by all three
  policies. A resident reference is a hit. A miss while a slot is free fills
  the next slot. A miss with a full frame is a page fault and evicts the slot
  the policy picks. The module proves what the engines preserve:
  - distinct resident pages;
  - the fault bound;
  - zero faults when the trace has at most `wss` distinct pages;
  - hits leave everything unchanged except Clock's use bit.
- `Victims` (`victims.dfy`) states each policy's eviction against an
  independent description:
  - LRU evicts the resident page whose latest reference is the earliest;
  - FIFO is a queue in insertion order, read circularly from the cursor;
  - Clock's sweep clears the use bits it passes and stops at the first clear
    bit.
- `Engines` (`engines.dfy`) holds the three C functions as imperative
  methods. Each works over an `array` frame with the sentinel, a size
  counter, a cursor and, for Clock, an array of use bits. LRU keeps its
  backward rescan of the trace into the scratch array `ru`. Each method is
  proved to return `Faults` of the state machine.
- `MonteCarlo` (`driver.dfy`) is `main`'s computation:
  - zeroing the result arrays;
  - building each trace as `data[j] = 10*(j/100) + s[j]`;
  - accumulating the three fault counts for every size in `[lower, upper]`;
  - the final integer division by the number of trials.

  It is proved to fill entry `w` with the average of the faults of run `w` over
  all trials.
- `Scenarios` (`scenarios.dfy`) replays the reference string
  1 2 3 4 1 2 5 1 2 3 4 5 with three frames. FIFO reports 6 faults; LRU and
  Clock report 7.

The source's definition of a fault is followed throughout. Filling a free slot
is not counted as a fault: the counters in `replaceAlgos.c:182-188`,
`:274-280` and `:339-345` increment only on an eviction. Counting each
compulsory miss as a fault would give one fault per distinct page for a trace
with at most `wss` distinct pages; the code counts 0, and so does the model
(`Policy.FewPagesNoFaults`). The 6/7/7 counts for the reference string above
agree with the code's definition; counting fills would give 9/10/10.

## Model

| member | source | states |
|---|---|---|
| Frame.ArrayContains | replaceAlgos.c:432-441 | the result is true exactly when `v` is among the first `n` slots; the array is only read |
| Frame.GetIndex | replaceAlgos.c:459-468 | the result is the first slot among the first `n` that holds `v`, and -1 exactly when there is none |
| Frame.IndexOf | replaceAlgos.c:459-468 | reference definition of first occurrence: in range, holds `v`, no earlier `v`; -1 iff `v` is absent |
| Frame.PaddedLookup | replaceAlgos.c:435-439 | scanning all `wss` slots, sentinel slots included, finds a real page exactly where scanning only the occupied slots does |
| Policy.Next | replaceAlgos.c:287-292 | the cursor advanced with wrap-around stays on one of the `wss` slots |
| Policy.LastUse | replaceAlgos.c:200-219 | reference definition of the latest reference to a page: it holds the page and no later position does |
| Policy.LeastRecent | replaceAlgos.c:214-216 | the chosen page is resident and its latest reference is no later than any other resident page's |
| Policy.SweepLength | replaceAlgos.c:349-360 | the sweep passes only set bits, stops at the first clear bit, and takes at most `wss` steps |
| Policy.SweepLengthUnique | replaceAlgos.c:349-360 | any step count with all passed bits set and a clear bit at its end is the sweep length |
| Policy.Step | replaceAlgos.c:180-188 | one reference (hit, fill or eviction, as at lines 180-188, 272-280, 337-345 and 377-380): afterwards the page is resident and the bounds hold; the frame grows by one exactly on a miss with a free slot; a fault is counted exactly on a miss with a full frame |
| Policy.Evict | replaceAlgos.c:192-231 | a full-frame miss under each policy (LRU 192-231, FIFO 284-295, Clock 349-374): the frame stays full, the new page becomes resident, every slot not now holding it keeps its page, and exactly one fault is counted |
| Policy.Run | replaceAlgos.c:178-381 | the state after a whole trace (the main loops of LRU 178-234, FIFO 270-298 and Clock 335-381) respects the bounds: at most `wss` pages, the hand on a slot, one use bit per slot |
| Policy.Faults | replaceAlgos.c:231-237 | the value each engine returns, at most one fault per reference, so it lies in [0, T] |
| Policy.FrameInvariantHolds | replaceAlgos.c:178-381 | after any trace (the main loops of LRU 178-234, FIFO 270-298 and Clock 335-381) the resident pages are distinct and all referenced; with a free slot there were no faults and the cursor is 0; FIFO's cursor is the fault count mod `wss` |
| Policy.FaultsBounded | replaceAlgos.c:178-381 | in every engine's main loop (LRU 178-234, FIFO 270-298, Clock 335-381) faults plus resident pages never exceed the number of references |
| Policy.StaysFull | replaceAlgos.c:182-188 | once the frame is full it stays full |
| Policy.FewPagesNoFaults | replaceAlgos.c:180-188 | a trace with at most `wss` distinct pages causes no fault and leaves exactly its pages resident |
| Policy.HitsAreIdle | replaceAlgos.c:377-380 | repeating a resident reference any number of times adds no fault and changes neither pages nor cursor; only Clock sets that page's use bit |
| Policy.HitOnce | replaceAlgos.c:337-380 | one resident reference leaves the state unchanged under LRU and FIFO and only sets the use bit under Clock |
| Victims.LruEvictsLeastRecent | replaceAlgos.c:192-231 | on a full-frame miss the victim was referenced, every other resident page was referenced strictly later, the victim's slot receives `x`, other slots are untouched, the victim leaves, and one fault is added |
| Victims.FifoStepIsQueueStep | replaceAlgos.c:270-298 | one step of the FIFO state machine matches one step of a queue in insertion order |
| Victims.FifoEvictIsDequeue | replaceAlgos.c:284-292 | overwriting the cursor's slot and advancing the cursor removes the queue's head and appends the new page |
| Victims.FifoIsQueue | replaceAlgos.c:257-302 | read circularly from the cursor, the frame is the FIFO queue with the same fault count; on a full frame the cursor points at the oldest page |
| Victims.ClockSweeps | replaceAlgos.c:349-374 | the sweep takes at most `wss` steps and clears each set bit it passes; the stop slot had bit 0 or is reached after a full turn, receives `x` with bit 0; other slots and bits are untouched and the hand ends one past the slot |
| Engines.ScanStep | replaceAlgos.c:200-211 | looking at one more position of the backward scan keeps the recency-list invariant |
| Engines.ScanFinds | replaceAlgos.c:213-219 | the page whose recording completes the recency list is the least recently used page |
| Engines.ScanContinues | replaceAlgos.c:221-223 | while a resident page is unrecorded the scan has not run off the front of the trace |
| Engines.LeastRecentlyUsed | replaceAlgos.c:192-224 | the backward scan with its `ru` array returns the least recently used resident page |
| Engines.ScanBack | replaceAlgos.c:200-224 | the backward loop returns the least recently used page and always breaks before position -1 |
| Engines.Visit | replaceAlgos.c:202-219 | one position of the scan records a new resident page in `ru[c]` and reports the victim exactly when `ru` becomes full |
| Engines.LruEvict | replaceAlgos.c:192-231 | on a full-frame miss the frame becomes the pages of `Evict`: the backward scan's victim slot, found by `getIndex`, receives the new page |
| Engines.LRU | replaceAlgos.c:164-238 | `LRU(wss, data)` returns the fault count of the LRU run of the state machine |
| Engines.LruReference | replaceAlgos.c:180-232 | one LRU reference takes the frame and size to those of the next state and reports a fault exactly when the state machine counts one |
| Engines.FIFO | replaceAlgos.c:257-302 | `FIFO(wss, data)` returns the fault count of the FIFO run |
| Engines.FifoReference | replaceAlgos.c:272-297 | one FIFO reference takes frame, size and cursor to the next state's |
| Engines.Sweep | replaceAlgos.c:349-360 | the sweep loop stops at slot `Ahead(hand, SweepLength)` and leaves the bits cleared exactly over the slots it passed |
| Engines.Clock | replaceAlgos.c:321-385 | `Clock(wss, data)` returns the fault count of the Clock run |
| Engines.ClockReference | replaceAlgos.c:337-380 | one Clock reference takes frame, use bits, size and hand to the next state's |
| MonteCarlo.Trace | replaceAlgos.c:87-90 | the trace has one reference per sample and never falls below its sample (the region shift `10*(j/100)` is non-negative) |
| MonteCarlo.TraceRegion | replaceAlgos.c:89 | inside region `r` every reference is its sample shifted up by `10*r` |
| MonteCarlo.TraceNoSentinel | replaceAlgos.c:89 | samples above INT_MIN give a trace without the sentinel |
| MonteCarlo.FillTrace | replaceAlgos.c:87-90 | the data array holds the trace built from the samples |
| MonteCarlo.Total | replaceAlgos.c:95-97 | the running sum of faults over the trials is at least each single trial's faults |
| MonteCarlo.TotalBounded | replaceAlgos.c:95-97 | the accumulated faults over the trials are at most trials times the trace length |
| MonteCarlo.AverageBounded | replaceAlgos.c:102-106 | the average is at most the trace length; with at most 1000 trials of 1000 references every total fits a 32-bit `int` |
| MonteCarlo.TotalNoFaults | replaceAlgos.c:93-98 | trials whose traces have at most `wss` distinct pages contribute nothing |
| MonteCarlo.Simulate | replaceAlgos.c:69-106 | each result array has `upper + 1` entries; sizes below `lower` stay 0; entry `w` in `[lower, upper]` is the floor of the total faults at size `w` divided by the number of trials |
| MonteCarlo.RunTrial | replaceAlgos.c:93-98 | one trial adds, for each size and policy, that policy's faults on the trial's trace |
| MonteCarlo.Accumulate | replaceAlgos.c:95-97 | one `Results[wss] += policy(wss, data)` adds the engine's fault count to the running total |
| MonteCarlo.RunEngine | replaceAlgos.c:95-97 | the call `LRU(wss, data)`, `FIFO(wss, data)` or `Clock(wss, data)` returns the policy's fault count on the trace |
| MonteCarlo.AddTrial | replaceAlgos.c:95-97 | adding one trial's faults to entry `wss` moves that entry from the totals over the earlier trials to the totals including this one, and leaves every other entry as it was |
| MonteCarlo.Divide | replaceAlgos.c:102-106 | one result array's entries from `lower` on become their totals divided by the trial count; the entries below stay 0 |
| MonteCarlo.Average | replaceAlgos.c:102-106 | each entry in `[lower, upper]` becomes its total divided by the trial count |
| Scenarios.FifoBelady | replaceAlgos.c:257-302 | FIFO with three frames on 1 2 3 4 1 2 5 1 2 3 4 5 makes 6 faults and ends holding 5 3 4 |
| Scenarios.LruBelady | replaceAlgos.c:164-238 | LRU on the same string makes 7 faults and ends holding 3 4 5 |
| Scenarios.ClockBelady | replaceAlgos.c:321-385 | Clock on the same string makes 7 faults and ends holding 3 4 5 |

## Left out

- `normal` (replaceAlgos.c:401-415) is left out: it draws Box–Muller normal samples with floating point and `rand`. The samples are an input of `MonteCarlo.Simulate`, one sequence per trial.
- `srand(time(NULL))`, the progress `printf`, the time-stamped file name, the CSV output file and the `-1` exit code on a failed `fopen` are left out; they are I/O (replaceAlgos.c:79, 84, 108-144).
- The build-time constants `TRACES`, `SET_SIZE_LOWER` and `SET_SIZE_UPPER` are parameters. The trace length is `length` and the trial count is the number of sample sequences. The C code uses one constant for both.
- The engines loop over `data.Length` rather than the constant `TRACES`; the driver passes arrays of exactly the trace length.
- Clock's `secondChance` ints are modelled as booleans, because the code only stores 0 and 1 and only tests `!= 0`.
- Engines.LRU, Engines.FIFO, Engines.Clock: require that no reference equals INT_MIN, and `MonteCarlo.Simulate` requires samples above INT_MIN. A reference equal to the sentinel would be mistaken for an empty slot, and LRU's backward scan could then run past position 0 with `lru` unset. Samples of `normal(10, 2)` stay far from INT_MIN.
- Engines.LRU, Engines.FIFO, Engines.Clock: require `wss >= 1`. With `wss == 0` the C arrays are empty and the first eviction indexes out of bounds. The driver uses sizes from `lower >= 1`.
- MonteCarlo.Simulate: accumulates in unbounded integers and does not model 32-bit `int` overflow of the totals. `MonteCarlo.AverageBounded` shows that with the program's 1000 trials of 1000 references no total exceeds 2^31 - 1, so no overflow occurs. The division is that of non-negative numbers, where C's truncation and Dafny's division agree.
- The statistical claim that average faults do not increase with `wss` is left out: it is a property of the distribution of traces, not of any single run.
