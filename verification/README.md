# Verified model of the e-agent runtime's state machines

The project models the deterministic cores of the e-agent repository and proves what they
promise.  Code that updates state in place is modelled by classes and loops; each method is
proved equal to a function of the old state, and what holds over whole runs is proved about
those functions.

| file | models |
|---|---|
| `Lzss.dfy` | the compressor, the length predictor and the decompressor for embedded text |
| `GhostList.dfy` | the list of recently evicted keys kept as two inverse maps, shared by the two users below |
| `S3FifoSpec.dfy`, `S3Fifo.dfy`, `S3FifoRuns.dfy` | the S3-FIFO admission policy: state machine, implementation, whole runs |
| `FairnessSpec.dfy`, `HostcallQueue.dfy`, `Bravo.dfy` | the hostcall queue: tenant fairness, the two lanes and epoch retirement, reader/writer bias |
| `BrokerDesk.dfy`, `Broker.dfy`, `BrokerRuns.dfy` | the UI request broker: what it looks like, its five indexes, every interleaving |
| `SchedulerSpec.dfy`, `Scheduler.dfy` | the event loop without and with lazy cancellation of timers |
| `Mesh.dfy`, `Slab.dfy`, `Placement.dfy` | the reactor mesh, the NUMA slabs and the placement planner |
| `Table.dfy`, `TableFrame.dfy` | wrapping and drawing Markdown tables |
| `Seqs.dfy`, `Basics.dfy` | sequences without duplicates, suffixes and ascending sets; shared types |

Conventions.  64-bit counters saturate; the value where they do is a parameter (`maxCount`),
and the results that need unique numbers say what happens, or are conditional, when it is
reached.  The
LZSS results hold for every hash function into the table.  In a run, a step that is not
possible in the current state changes nothing.

Where the code does not do what one might expect, the model follows the code:

- A ghost hit resets the refusal streak even when the request is then refused for lack of
  room: `FairnessSpec.ManyRefusalsLeaveFairnessOn` is such a run, and
  `FairnessSpec.RefusalsFallBackIff` says exactly which refusals switch fairness off.
- Giving up epochs drops the retired nodes although pins are held:
  `HostcallQueue.PinnedPopsGiveUp` is such a run, and `PushBack`, `PopFront`, `DrainAll` and
  `ForceReclaim` say exactly when it happens.  Clearing the queue drops them as well.
- A timer already moved to the task queue can no longer be cleared
  (`SchedulerSpec.MovedTimerIsReturned`).
- A deadline that passes after the server's reply was accepted still makes the call return
  Cancelled (`BrokerRuns.ExpiryIsTruthfulIff`).
- With the mesh's sequence counter at its maximum the merge need not follow the order of
  acceptance: `Mesh.SaturationReorders` is such a run, and `Mesh.MergedIsFifoIff` says
  exactly when it does.
- Table lines are not equally wide when a character is wider than its column
  (`TableFrame.WideCharacterMisaligns`), and exactly then (`TableFrame.AlignedIff`).

## Model

| member | source | states |
|---|---|---|
| Lzss.Decompress | e-agent-node-runtime/src/embedded_assets.rs:174-221 | Accepts exactly the well-formed streams that stand for a text of the declared length, returns that text, and tells a longer text from a shorter one; every other input is an error |
| Lzss.DecodesUnique | e-agent-node-runtime/src/embedded_assets.rs:174-221 | A stream stands for at most one text |
| Lzss.PrefixCode | e-agent-node-runtime/src/embedded_assets.rs:174-221 | The token encoding is a prefix code: a stream that begins with some tokens can be parsed in no other way |
| Lzss.TokenAt | e-agent-node-runtime/src/embedded_assets.rs:174-212 | The header byte decides what the next token is and how long it is |
| Lzss.PushCopies | e-agent-node-runtime/src/embedded_assets.rs:209-211 | Copying byte by byte from the growing output reads bytes that the same copy has written |
| Lzss.CopyMeans | e-agent-node-runtime/src/embedded_assets.rs:195-212 | A copy of a repeated stretch, overlapping or not, appends exactly the repeated bytes |
| Lzss.TokensMean | e-agent-node-runtime/src/embedded_assets.rs:111-171 | From every state of the encoder, whatever the hash table holds, the tokens still to come stand for the rest of the input |
| Lzss.CompressedDecodes | e-agent-node-runtime/src/embedded_assets.rs:111-221 | For every hash function and every input, the compressed form stands for the input |
| Lzss.MatchIff | e-agent-node-runtime/src/embedded_assets.rs:28-58 | A match is reported exactly when four bytes are left, the slot holds an earlier position at most 65535 back, and the four bytes there are the same; it is 131 bytes long, or all that is left, or up to the first difference |
| Lzss.ScanIndexed | e-agent-node-runtime/src/embedded_assets.rs:28-74 | At every place the compressor comes to, each slot holds the last earlier position with its hash |
| Lzss.MatchesWherePossible | e-agent-node-runtime/src/embedded_assets.rs:111-148 | So a match is used exactly when the last earlier position with the same hash is near enough and has the same four bytes |
| Lzss.EqualBytesCollapse | e-agent-node-runtime/src/embedded_assets.rs:111-171 | Five to 132 equal bytes are compressed to five bytes, which are given |
| Lzss.LiteralsCost | e-agent-node-runtime/src/embedded_assets.rs:76-78 | Literal bytes cost one header for every 128 of them |
| Lzss.CompressedSize | e-agent-node-runtime/src/embedded_assets.rs:87-104 | Compression adds at most one byte per 128 input bytes, for every input |
| Lzss.TokensSize | e-agent-node-runtime/src/embedded_assets.rs:87-104 | From every state of the scan the remaining tokens cost at most the literal encoding of the remaining input |
| Lzss.LzssMatch | e-agent-node-runtime/src/embedded_assets.rs:28-58 | A reported match is the longest agreement with the slot's candidate, at least 4 and at most 131 bytes long, within 65535 bytes; the slot is replaced |
| Lzss.RecordMatchPositions | e-agent-node-runtime/src/embedded_assets.rs:60-74 | Every position inside a match enters the table |
| Lzss.CompressedLen | e-agent-node-runtime/src/embedded_assets.rs:87-104 | The predicted length is the exact length of the compressed form |
| Lzss.EmitLiterals | e-agent-node-runtime/src/embedded_assets.rs:123-139 | A stretch of literals is written as runs of at most 128 bytes, and fits the array exactly when its encoding does |
| Lzss.Compress | e-agent-node-runtime/src/embedded_assets.rs:111-171 | Succeeds exactly when the array has the predicted length; a shorter one is indexed out of bounds, a longer one fails the final assertion |
| Lzss.EmbedAndLoad | e-agent-node-runtime/src/runtime.rs:63-72 | Predicting, encoding and decoding gives back the source text, for every text and every hash function |
| Lzss.EmbedLiteral | e-agent-node-runtime/src/embedded_assets.rs:19-26 | In particular with the multiplicative hash that the code uses |
| GhostList.UnboundedMeaning | e-agent-node-runtime/src/hostcall_s3_fifo.rs:387-421 | Without a capacity the ghost list holds exactly the keys recorded and not removed since, once each, by latest recording |
| GhostList.BoundedIsSuffix | e-agent-node-runtime/src/hostcall_s3_fifo.rs:387-415 | With a capacity it is the newest part of that list |
| GhostList.Retention | e-agent-node-runtime/src/hostcall_s3_fifo.rs:387-415 | A recorded key is dropped only after as many other keys as the list holds were recorded later |
| GhostList.GhostIndex.Record | e-agent-node-runtime/src/hostcall_s3_fifo.rs:387-415 | The two generation maps, updated in place, are the list with the key moved to its newest end and cut from its oldest end; generations restart when they run out |
| GhostList.GhostIndex.Remove | e-agent-node-runtime/src/hostcall_s3_fifo.rs:417-421 | Removing a key through the two maps removes it from the list, and tells whether it was there |
| GhostList.GhostIndex.Clear | e-agent-node-runtime/src/hostcall_queue.rs:503-514 | Clearing both maps empties the list |
| S3FifoSpec.Clamped | e-agent-node-runtime/src/hostcall_s3_fifo.rs:132-147 | Every configuration is clamped to a usable one and usable ones are kept |
| S3FifoSpec.ClampedIsNearest | e-agent-node-runtime/src/hostcall_s3_fifo.rs:132-147 | Each field is clamped to the nearest value that is usable with the others |
| S3FifoSpec.TrimsOnce | e-agent-node-runtime/src/hostcall_s3_fifo.rs:328-348 | The small and main capacity loops evict at most one key, and the live capacity loop never evicts |
| S3FifoSpec.AccessKeeps | e-agent-node-runtime/src/hostcall_s3_fifo.rs:200-247 | After every access the tiers and the ghosts are disjoint, duplicate-free and within capacity, exactly the live keys have owners, and no owner exceeds its budget |
| S3FifoSpec.EvictKeeps | e-agent-node-runtime/src/hostcall_s3_fifo.rs:350-364 | Evicting a front key to the ghosts keeps the same invariant |
| S3Fifo.S3FifoPolicy.constructor | e-agent-node-runtime/src/hostcall_s3_fifo.rs:132-167 | A new policy is the empty state under the clamped configuration |
| S3Fifo.S3FifoPolicy.Clear | e-agent-node-runtime/src/hostcall_s3_fifo.rs:195-198 | Clearing the fallback reopens the latch and forgets the window, nothing else |
| S3Fifo.S3FifoPolicy.OwnerAtBudget | e-agent-node-runtime/src/hostcall_s3_fifo.rs:285-287 | The per-owner counter decides exactly whether the owner's live keys have reached the budget |
| S3Fifo.S3FifoPolicy.EvictSmallFrontToGhost | e-agent-node-runtime/src/hostcall_s3_fifo.rs:350-356 | The oldest small key becomes the newest ghost and leaves every index |
| S3Fifo.S3FifoPolicy.EvictMainFrontToGhost | e-agent-node-runtime/src/hostcall_s3_fifo.rs:358-364 | The oldest main key becomes the newest ghost and leaves every index |
| S3Fifo.S3FifoPolicy.EnforceLiveCapacity | e-agent-node-runtime/src/hostcall_s3_fifo.rs:340-348 | The loop evicts from the fuller side of the live set as specified, until it fits |
| S3Fifo.S3FifoPolicy.PurgeKey | e-agent-node-runtime/src/hostcall_s3_fifo.rs:366-369 | A purged key leaves its tier, its owner and the ghost list, wherever it was |
| S3Fifo.S3FifoPolicy.AdmitSmall | e-agent-node-runtime/src/hostcall_s3_fifo.rs:295-303 | A new key enters the back of the small tier after being purged, followed by the trimming |
| S3Fifo.S3FifoPolicy.AdmitFromGhost | e-agent-node-runtime/src/hostcall_s3_fifo.rs:305-313 | A ghost enters the back of the main tier |
| S3Fifo.S3FifoPolicy.PromoteSmallToMain | e-agent-node-runtime/src/hostcall_s3_fifo.rs:315-321 | A small key moves to the back of the main tier and keeps its owner |
| S3Fifo.S3FifoPolicy.TouchMain | e-agent-node-runtime/src/hostcall_s3_fifo.rs:323-326 | A main key moves to the back of its tier |
| S3Fifo.S3FifoPolicy.EvaluateFallback | e-agent-node-runtime/src/hostcall_s3_fifo.rs:453-474 | The latch closes when a full window has too few ghost hits or too many refusals, and stays as it is once closed |
| S3Fifo.S3FifoPolicy.Access | e-agent-node-runtime/src/hostcall_s3_fifo.rs:200-247 | One access, over all the redundant indexes, is one step of the policy state machine, and reports its decision |
| S3Fifo.RemoveFromQueue | e-agent-node-runtime/src/hostcall_s3_fifo.rs:477-481 | Removes the first occurrence of a key and keeps the order |
| S3Fifo.TierIsPlace | e-agent-node-runtime/src/hostcall_s3_fifo.rs:249-264 | The tier reported is where the key is after the access: main, ghost, or else small; a bypassed access reports the fallback |
| S3Fifo.KindIsPlace | e-agent-node-runtime/src/hostcall_s3_fifo.rs:206-238 | The kind reported tells where the key was before the access, and whether its owner had all the live keys it may |
| S3Fifo.CountsInsert | e-agent-node-runtime/src/hostcall_s3_fifo.rs:423-429 | The per-owner counters stay the exact counts when a key gains an owner |
| S3Fifo.CountsRemove | e-agent-node-runtime/src/hostcall_s3_fifo.rs:431-444 | The per-owner counters stay the exact counts when a key loses its owner, and zero counts are dropped |
| S3FifoRuns.RunKeeps | e-agent-node-runtime/src/hostcall_s3_fifo.rs:195-247 | The invariant holds after every sequence of accesses and clearings |
| S3FifoRuns.AccessTiers | e-agent-node-runtime/src/hostcall_s3_fifo.rs:200-247 | Each kind of access, described by what becomes of the two tiers: one key to the back, at most one off the front |
| S3FifoRuns.AccessByPlace | e-agent-node-runtime/src/hostcall_s3_fifo.rs:200-247 | What an access does to the tiers and owners, told by where the key is, whether its tier is full and how many live keys the owner has |
| S3FifoRuns.VictimByPlace | e-agent-node-runtime/src/hostcall_s3_fifo.rs:328-364 | Which key is evicted, told in the same way: the front of the tier that was full, or none |
| S3FifoRuns.GhostsByPlace | e-agent-node-runtime/src/hostcall_s3_fifo.rs:387-421 | What becomes of the ghost list: the accessed key leaves it when it becomes live, and the evicted one becomes the newest |
| S3FifoRuns.CountersByPlace | e-agent-node-runtime/src/hostcall_s3_fifo.rs:200-247 | Ghost hits count keys found as ghosts, admissions new live keys, promotions small keys moved, and rejections keys turned away |
| S3FifoRuns.LiveWithinCapacity | e-agent-node-runtime/src/hostcall_s3_fifo.rs:328-348 | The live keys never exceed the live capacity |
| S3FifoRuns.AccessLive | e-agent-node-runtime/src/hostcall_s3_fifo.rs:200-247 | The live keys after an access are those before, with the admitted key and without the victim |
| S3FifoRuns.TiersByRecency | e-agent-node-runtime/src/hostcall_s3_fifo.rs:295-326 | In every reachable state both tiers are ordered by last access that was not bypassed |
| S3FifoRuns.EvictsLeastRecent | e-agent-node-runtime/src/hostcall_s3_fifo.rs:350-364 | Every key that stops being live was the least recently accessed one of its tier |
| S3FifoRuns.GhostsByEviction | e-agent-node-runtime/src/hostcall_s3_fifo.rs:387-421 | In every run the ghost list is duplicate-free, within capacity, and lists evicted keys that are not live in order of latest eviction, cut from its oldest end: an evicted key it lacks was evicted before every key it holds |
| S3FifoRuns.GhostRetention | e-agent-node-runtime/src/hostcall_s3_fifo.rs:387-415 | An evicted key that is not live again is a ghost, or as many others as the list holds were evicted after it, or the generations ran out after it |
| S3FifoRuns.ShortRunsNeverRestart | e-agent-node-runtime/src/hostcall_s3_fifo.rs:388-392 | Generations do not run out in a run shorter than they are many |
| S3FifoRuns.StepHistory | e-agent-node-runtime/src/hostcall_s3_fifo.rs:387-421 | The ghost events of one access, in order |
| S3FifoRuns.KeyAgrees | e-agent-node-runtime/src/hostcall_s3_fifo.rs:387-421 | A key that is not live is in the unbounded ghost list exactly when it was evicted and generations did not run out since |
| S3FifoRuns.LatchIsExact | e-agent-node-runtime/src/hostcall_s3_fifo.rs:446-474 | The latch is open exactly while, in every full window of accesses since the last clearing, at least the required number of positions are ghost hits and at most the allowed number are refusals; it closes at the first window that is not so |
| S3FifoRuns.LatchReason | e-agent-node-runtime/src/hostcall_s3_fifo.rs:469-473 | Its reason is too few ghost hits or, where there were enough, too many refusals in the last window |
| S3FifoRuns.LatchedStays | e-agent-node-runtime/src/hostcall_s3_fifo.rs:200-211 | Once latched, no sequence of accesses changes anything |
| FairnessSpec.StepSteady | e-agent-node-runtime/src/hostcall_queue.rs:419-559 | While fairness is on, the refusal streak is below its threshold and a long run without tenants does not go unnoticed |
| FairnessSpec.RunSteady | e-agent-node-runtime/src/hostcall_queue.rs:419-559 | The streaks stay below their thresholds after every sequence of queue operations |
| FairnessSpec.RefusedThenAdmitted | e-agent-node-runtime/src/hostcall_queue.rs:436-501 | A tenant turned away, for its backlog or for lack of room, is admitted the next time it asks, unless as many other tenants as the ghost list holds were recorded in between, or the ghost generations ran out |
| FairnessSpec.ServedThenAdmitted | e-agent-node-runtime/src/hostcall_queue.rs:475-488 | So is a tenant whose request has been served |
| FairnessSpec.GhostIsUsedUp | e-agent-node-runtime/src/hostcall_queue.rs:436-459 | A ghost is good for one admission: asking again at once is refused, and the other ghosts stay |
| FairnessSpec.CleanSlate | e-agent-node-runtime/src/hostcall_queue.rs:503-514 | Switching fairness off and clearing the queue empty the ghost list |
| FairnessSpec.NamelessIsNoGhost | e-agent-node-runtime/src/hostcall_queue.rs:526-529 | The empty name is never a ghost, in any run |
| FairnessSpec.AcceptedStartsOver | e-agent-node-runtime/src/hostcall_queue.rs:461-473 | An accepted request starts the streak of refusals over |
| FairnessSpec.SignallessRunIff | e-agent-node-runtime/src/hostcall_queue.rs:419-434 | Requests without a tenant switch fairness off exactly when there are enough of them in a row and too few with one came before |
| FairnessSpec.SignalIsCounted | e-agent-node-runtime/src/hostcall_queue.rs:419-434 | A request with a tenant is a sample and ends the silence |
| FairnessSpec.AdmissionCounters | e-agent-node-runtime/src/hostcall_queue.rs:436-459 | The counters count admissions as a ghost and refusals for the backlog |
| FairnessSpec.ShortRunsLast | e-agent-node-runtime/src/hostcall_queue.rs:531-536 | They do not in a run shorter than they are many |
| FairnessSpec.RefusalRemembered | e-agent-node-runtime/src/hostcall_queue.rs:436-459 | Right after its refusal the tenant is remembered, or fairness is off |
| FairnessSpec.RefusalsFallBackIff | e-agent-node-runtime/src/hostcall_queue.rs:419-501 | For every sequence of refused pushes, with or without tenants: fairness is still on exactly when none of them lost the signal and the streak, which a ghost hit sets to one and anything else lengthens, stayed below its threshold |
| FairnessSpec.RefusalCounts | e-agent-node-runtime/src/hostcall_queue.rs:419-501 | What one refused push does to the streak, by the guards at the time, and the reason given when fairness is switched off |
| FairnessSpec.PlainRefusalsFallBack | e-agent-node-runtime/src/hostcall_queue.rs:453-501 | Refusals in a row without ghost hit or lost signal switch fairness off exactly when there are enough of them |
| FairnessSpec.OffUntilCleared | e-agent-node-runtime/src/hostcall_queue.rs:503-514 | Fairness switched off stays off and admits everyone through any run, until the queue is cleared |
| FairnessSpec.GhostHitsPreventFallback | e-agent-node-runtime/src/hostcall_queue.rs:447-449 | A listed tenant over its budget is refused any number of times at a full lane and fairness stays on |
| FairnessSpec.ManyRefusalsLeaveFairnessOn | e-agent-node-runtime/src/hostcall_queue.rs:447-449 | Such a run from a new queue: a tenant fills its budget and is then refused any number of times in a row |
| FairnessSpec.RefusalsStayOff | e-agent-node-runtime/src/hostcall_queue.rs:453-501 | Refusals never switch fairness on again |
| HostcallQueue.S3FifoState.AllowMainAdmission | e-agent-node-runtime/src/hostcall_queue.rs:436-459 | Admits exactly the tenants with backlog to spare or a ghost entry, as the fairness machine does |
| HostcallQueue.S3FifoState.ObserveSignal | e-agent-node-runtime/src/hostcall_queue.rs:419-434 | Counts signals and switches fairness off when tenants are missing for too long |
| HostcallQueue.S3FifoState.OnMainEnqueued | e-agent-node-runtime/src/hostcall_queue.rs:461-473 | Adds one to the tenant's backlog and ends the refusal streak |
| HostcallQueue.S3FifoState.OnMainDequeued | e-agent-node-runtime/src/hostcall_queue.rs:475-488 | Takes one off the tenant's backlog and remembers the tenant |
| HostcallQueue.S3FifoState.OnMainOverflowReject | e-agent-node-runtime/src/hostcall_queue.rs:490-501 | Remembers the tenant and lengthens the refusal streak |
| HostcallQueue.S3FifoState.TransitionToFallback | e-agent-node-runtime/src/hostcall_queue.rs:503-514 | Switches fairness off once, with its reason, dropping backlogs and ghosts |
| HostcallQueue.S3FifoState.RecordGhost | e-agent-node-runtime/src/hostcall_queue.rs:526-559 | Remembers a tenant with a name as the newest ghost |
| HostcallQueue.PushAccounted | e-agent-node-runtime/src/hostcall_queue.rs:780-862 | A push keeps every backlog equal to the tenant's requests in the overflow lane, and within budget plus ghost hits |
| HostcallQueue.PopAccounted | e-agent-node-runtime/src/hostcall_queue.rs:864-879 | A pop keeps every backlog exact and within budget plus ghost hits |
| HostcallQueue.AcceptedByCount | e-agent-node-runtime/src/hostcall_queue.rs:436-459 | A request is accepted exactly when there is room and its tenant, if any, has fewer requests in the overflow lane than its budget or is a ghost |
| HostcallQueue.HostcallRequestQueue.constructor | e-agent-node-runtime/src/hostcall_queue.rs:349-372 | An empty queue whose budget, ghost capacity and backlog threshold follow from its two lane capacities, with the signal and streak limits 32, 64 and 16 |
| HostcallQueue.HostcallRequestQueue.TransitionToSafeFallback | e-agent-node-runtime/src/hostcall_queue.rs:967-974 | Giving up epochs drops every retired node, pins or not |
| HostcallQueue.HostcallRequestQueue.TryReclaim | e-agent-node-runtime/src/hostcall_queue.rs:976-1006 | Nothing is reclaimed while a pin is held; otherwise everything before the first node of the current epoch is; epochs are given up exactly when pins hold back more than the threshold |
| HostcallQueue.HostcallRequestQueue.ForceReclaim | e-agent-node-runtime/src/hostcall_queue.rs:890-893 | Without pins nothing stays retired; epochs are given up exactly when pins hold back more than the threshold, which never happens before the epoch saturates |
| HostcallQueue.HostcallRequestQueue.ForceSafeFallback | e-agent-node-runtime/src/hostcall_queue.rs:896-898 | Switches epochs off |
| HostcallQueue.HostcallRequestQueue.PushBack | e-agent-node-runtime/src/hostcall_queue.rs:780-862 | An accepted push appends, a refused one changes no request and no epoch; the lane, the refusal and the depths reported are exactly determined; an accepted push without pins leaves nothing retired, and before the epoch saturates the epoch mode never changes |
| HostcallQueue.HostcallRequestQueue.PopFront | e-agent-node-runtime/src/hostcall_queue.rs:864-879 | Removes and returns the first request of the two lanes together and retires it while epochs are on; epochs are given up, and everything retired dropped, exactly when pins are held and the threshold was reached |
| HostcallQueue.HostcallRequestQueue.DrainAll | e-agent-node-runtime/src/hostcall_queue.rs:881-887 | Returns everything in push order and leaves nothing; gives up epochs exactly when pins hold back more than the threshold |
| HostcallQueue.HostcallRequestQueue.Clear | e-agent-node-runtime/src/hostcall_queue.rs:761-778 | Empties the queue, its books and its fairness state, and keeps mode and pins |
| HostcallQueue.PinnedPopsGiveUp | e-agent-node-runtime/src/hostcall_queue.rs:864-879 | A run from a new queue that holds one pin: the pop that retires one request more than the threshold loses all of them |
| HostcallQueue.OnlyCurrent | e-agent-node-runtime/src/hostcall_queue.rs:993-1005 | Reclaiming after a pop leaves only the request just popped |
| Bravo.RatioMonotone | e-agent-node-runtime/src/hostcall_queue.rs:59-75 | The read ratio is at most 1000 and grows with reads and falling writes, also where the total saturates |
| Bravo.DominanceIsMonotone | e-agent-node-runtime/src/hostcall_queue.rs:258-287 | A window that reads dominate still does so with more reads and fewer, quicker writes |
| Bravo.ClassifyIff | e-agent-node-runtime/src/hostcall_queue.rs:258-287 | Each class of window by its counts: too few operations, then a starving writer, then the share of reads against the three thresholds |
| Bravo.BravoContentionState.Observe | e-agent-node-runtime/src/hostcall_queue.rs:173-246 | One observation is one step of the mode machine, and reports what changed |
| Bravo.RunOrderly | e-agent-node-runtime/src/hostcall_queue.rs:173-246 | The streak counts only during read bias, the countdown only during recovery, both within their limits |
| Bravo.ReadBiasIsBounded | e-agent-node-runtime/src/hostcall_queue.rs:196-219 | Read bias never lasts more windows in a row than its limit |
| Bravo.BiasIff | e-agent-node-runtime/src/hostcall_queue.rs:177-231 | Reads are favoured after a window exactly when it was read-dominated or mixed and no recovery was under way or started |
| Bravo.RecoveryIff | e-agent-node-runtime/src/hostcall_queue.rs:190-246 | Writers are favoured exactly for the windows that follow a starving window or a used-up read bias within the recovery time |
| Bravo.SteadyReadersCycle | e-agent-node-runtime/src/hostcall_queue.rs:173-246 | Under nothing but reads the policy cycles through full read bias, full recovery and one balanced window |
| Bravo.CountersCount | e-agent-node-runtime/src/hostcall_queue.rs:173-246 | The counters count windows, mode changes and rollbacks up to where they saturate |
| BrokerDesk.SettleKeeps | e-agent-tui/src/broker.rs:331-345 | Settling a request keeps every request open or settled, never both, settled at most once |
| BrokerDesk.CancelAllMeaning | e-agent-tui/src/broker.rs:320-330 | Cancelling some requests closes exactly the open ones among them |
| BrokerDesk.CancelAllLogs | e-agent-tui/src/broker.rs:320-330 | Each of them is told so once, in order, and nobody else is told anything |
| BrokerDesk.UnloadAndCloseLog | e-agent-tui/src/broker.rs:191-204 | Unloading tells exactly the open requests of the extension, closing tells all of them |
| BrokerDesk.RegisterKeeps | e-agent-tui/src/broker.rs:106-139 | Registering keeps one open dialog per extension and one open request per extension and key |
| BrokerDesk.RegisterRefusesIff | e-agent-tui/src/broker.rs:107-115 | A closed broker refuses everything with Closed, an open one only a dialog of an extension that has one open, with Busy |
| BrokerDesk.RegisterOpens | e-agent-tui/src/broker.rs:116-139 | An accepted request is opened under the next id; only the open one with the same extension and key is cancelled |
| BrokerDesk.NewestPollAnswered | e-agent-tui/src/broker.rs:250-269 | The poll queued last is answered first |
| BrokerDesk.UnloadOpens | e-agent-tui/src/broker.rs:320-330 | Unloading closes exactly the extension's requests |
| BrokerDesk.CloseKeeps | e-agent-tui/src/broker.rs:196-204 | After closing no request is open |
| BrokerRuns.NextSafe | e-agent-tui/src/broker.rs:100-345 | Every step of every client or server keeps the whole protocol safe |
| BrokerRuns.ReachableSafe | e-agent-tui/src/broker.rs:100-345 | Every interleaving from the start is safe: settled at most once, nobody waiting on a closed broker, callers told what their request was settled with unless their deadline passed |
| BrokerRuns.NextDialogIff | e-agent-tui/src/broker.rs:107-115 | Through any run: while a dialog is open the extension's next one is refused, and once it is settled it is accepted unless the broker is closed |
| BrokerRuns.RunKeepsTicket | e-agent-tui/src/broker.rs:331-345 | A request that is still open is what it was opened as |
| BrokerRuns.SendIff | e-agent-tui/src/broker.rs:148-154 | A send is accepted exactly while the receiver is there and fewer than 64 envelopes wait; otherwise the request is settled and the call fails |
| BrokerRuns.SettlementIsFinal | e-agent-tui/src/broker.rs:237-240 | A settlement stays for ever, and any later reply to it changes nothing |
| BrokerRuns.ClosedStrandsNobody | e-agent-tui/src/broker.rs:196-204 | Once the broker is closed every waiting call can return with the reply on record |
| BrokerRuns.ExpiryIsTruthfulIff | e-agent-tui/src/broker.rs:155-162 | A call whose deadline passes is told the truth exactly when its request is still open or was cancelled already |
| BrokerRuns.DeadlineCanHideAnAcceptedReply | e-agent-tui/src/broker.rs:155-162 | A run in which an accepted answer is reported to the caller as cancelled |
| Broker.UiBroker.CompleteLocked | e-agent-tui/src/broker.rs:331-345 | Settles one pending request and takes it out of all five indexes; otherwise does nothing |
| Broker.UiBroker.Register | e-agent-tui/src/broker.rs:106-139 | Refuses when closed or when a dialog is open, else cancels the request with the same key and opens the new one |
| Broker.UiBroker.Replace | e-agent-tui/src/broker.rs:118-123 | Pointing the key at the new request before cancelling the old one leaves the new entry in place |
| Broker.UiBroker.Reply | e-agent-tui/src/broker.rs:237-241 | A reply is accepted exactly when its request is open |
| Broker.UiBroker.Cancel | e-agent-tui/src/broker.rs:186-190 | Cancelling settles the request if it is open |
| Broker.UiBroker.Unload | e-agent-tui/src/broker.rs:191-195 | Unloading cancels exactly the extension's requests, in order |
| Broker.UiBroker.Close | e-agent-tui/src/broker.rs:196-204 | Closing, like dropping the server, settles everything |
| Broker.UiBroker.QueueInputPoll | e-agent-tui/src/broker.rs:250-259 | Queues an open request once |
| Broker.UiBroker.ReplyInput | e-agent-tui/src/broker.rs:260-269 | Settles the newest poll, which is always open |
| Broker.UiBroker.SettleNewestPoll | e-agent-tui/src/broker.rs:260-269 | The loop itself, for any queue of polls: it settles the newest open one and drops the newer ones that are not |
| Broker.CoalescedReplace | e-agent-tui/src/broker.rs:118-123 | The key index stays exact through the insertion and the cancellation of the old request |
| Broker.RemoveEverywhere | e-agent-tui/src/broker.rs:331-345 | Removing a request keeps all indexes exact |
| Broker.OwnedRemove | e-agent-tui/src/broker.rs:338-340 | The owner index stays exact when a request goes |
| Broker.ModalRemove | e-agent-tui/src/broker.rs:335-337 | The set of extensions with a dialog stays exact when a request goes |
| Mesh.AppendRefines | e-agent-node-runtime/src/scheduler.rs:1022-1049 | Pushing to one lane is appending to the list of accepted envelopes, saturated or not |
| Mesh.SkipRefines | e-agent-node-runtime/src/scheduler.rs:1075-1087 | Popping a lane is removing that shard's first envelopes from the list |
| Mesh.SkipRoutes | e-agent-node-runtime/src/scheduler.rs:1075-1087 | Taking one shard's first envelopes off the list leaves the other shards' envelopes as they were |
| Mesh.BestIsLeast | e-agent-node-runtime/src/scheduler.rs:1090-1112 | The merge chooses the lowest of the lanes whose head has the least number |
| Mesh.BestIsChosen | e-agent-node-runtime/src/scheduler.rs:1090-1112 | In terms of the accepted list that is the lowest shard among the envelopes numbered like the oldest |
| Mesh.ChosenIsOldestIff | e-agent-node-runtime/src/scheduler.rs:1090-1112 | The merge takes from the oldest envelope's shard exactly when no envelope with the same number is for a lower shard |
| Mesh.MergedIsFifoIff | e-agent-node-runtime/src/scheduler.rs:1090-1112 | A merge of any length follows the order of acceptance exactly when none of the envelopes taken shares its number with a later one for a lower shard |
| Mesh.UniqueIsInOrder | e-agent-node-runtime/src/scheduler.rs:979-983 | That is so until the counter has been at its maximum for more than one accepted envelope |
| Mesh.MergedKeepsRoutes | e-agent-node-runtime/src/scheduler.rs:1090-1112 | Saturated or not, the merge loses, doubles and reorders nothing within a shard |
| Mesh.DepthIsLength | e-agent-node-runtime/src/scheduler.rs:945-947 | The lane depths add up to the length of the list |
| Mesh.SaturationReorders | e-agent-node-runtime/src/scheduler.rs:1013-1020 | A run from a new mesh of two lanes: events bring the counter to its maximum, and then a newer event for the lower lane is drained before an older one |
| Mesh.SpscLane.Push | e-agent-node-runtime/src/scheduler.rs:864-871 | A lane accepts exactly while it has room, and reports its depth otherwise |
| Mesh.ReactorMesh.constructor | e-agent-node-runtime/src/scheduler.rs:908-935 | An empty mesh is an empty list |
| Mesh.ReactorMesh.EnqueueWithRoute | e-agent-node-runtime/src/scheduler.rs:1022-1049 | Accepts exactly when the lane has room, then appends one envelope with the next global and shard number; otherwise reports depth and capacity; both numbers are used up either way |
| Mesh.ReactorMesh.RrRoute | e-agent-node-runtime/src/scheduler.rs:1013-1020 | Round robin over the lanes, with a wrapping cursor |
| Mesh.ReactorMesh.CallsHaveLanes | e-agent-node-runtime/src/scheduler.rs:1004-1011 | Every call has a lane, and every lane is some hash's |
| Mesh.ReactorMesh.LanesTakeTurns | e-agent-node-runtime/src/scheduler.rs:1013-1020 | Until the cursor wraps each lane has its turn among as many events as there are lanes |
| Mesh.ReactorMesh.EnqueueHostcallComplete | e-agent-node-runtime/src/scheduler.rs:1052-1062 | A completion goes to the lane of its hash, with the same acceptance and report; accepted or refused it uses up both numbers, and a refusal is counted |
| Mesh.ReactorMesh.EnqueueEvent | e-agent-node-runtime/src/scheduler.rs:1065-1072 | An event goes to the next lane in turn, with the same acceptance and report; accepted or refused it uses up both numbers, and a refusal is counted |
| Mesh.ReactorMesh.TotalDepth | e-agent-node-runtime/src/scheduler.rs:945-947 | The total depth is the length of the list |
| Mesh.ReactorMesh.DrainShard | e-agent-node-runtime/src/scheduler.rs:1075-1087 | Returns and removes the first accepted envelopes of one shard |
| Mesh.ReactorMesh.DrainGlobalOrder | e-agent-node-runtime/src/scheduler.rs:1090-1112 | Returns and removes what the merge takes: the first accepted envelopes, whatever their shards, exactly when shared numbers do not matter |
| SchedulerSpec.StepOrderly | e-agent-node-runtime/src/scheduler.rs:331-539 | A timer is never lost or doubled: once set it is armed, fired or cleared, in exactly one way |
| SchedulerSpec.ReachableOrderly | e-agent-node-runtime/src/scheduler.rs:331-539 | In every run from the start timers fire at most once and never early, and tasks are returned in strictly increasing sequence |
| SchedulerSpec.ClearedNeverFires | e-agent-node-runtime/src/scheduler.rs:390-408 | A timer whose clear succeeded never fires in any continuation |
| SchedulerSpec.TimersFireInOrder | e-agent-node-runtime/src/scheduler.rs:467-509 | Of two armed timers the one with the earlier deadline or, between equal deadlines, the one set first fires first, unless cleared |
| SchedulerSpec.SetFirstFiresFirst | e-agent-node-runtime/src/scheduler.rs:331-509 | In every run: of two timers the one set first, with a deadline no later than the other's, fires first unless cleared |
| SchedulerSpec.EqualDeadlines | e-agent-node-runtime/src/scheduler.rs:92-98 | Two timers with the same deadline come back in the order they were set |
| SchedulerSpec.DueTimersFire | e-agent-node-runtime/src/scheduler.rs:467-509 | A tick fires exactly the timers that are due, and leaves the others armed |
| SchedulerSpec.RunKeepsHistory | e-agent-node-runtime/src/scheduler.rs:467-539 | What was queued is returned, in order, whatever happens later |
| SchedulerSpec.ReachableFirings | e-agent-node-runtime/src/scheduler.rs:467-539 | In every run from the start the timer tasks returned or still queued are exactly the firings, in order, so no timer is returned twice |
| SchedulerSpec.MovedTimerIsReturned | e-agent-node-runtime/src/scheduler.rs:390-408 | A run in which a timer has been moved to the queue behind another task: clearing it changes nothing, and the next tick returns it |
| SchedulerSpec.NothingPendingStaysIdle | e-agent-node-runtime/src/scheduler.rs:305-311 | With nothing pending no ticks at any times change anything |
| SchedulerSpec.PendingCanRun | e-agent-node-runtime/src/scheduler.rs:305-311 | With something pending every tick from some time on returns a task |
| SchedulerSpec.TickRunsIff | e-agent-node-runtime/src/scheduler.rs:520-539 | A tick returns a task exactly when one is queued or the first timer is due |
| SchedulerSpec.IdleTickMeansLater | e-agent-node-runtime/src/scheduler.rs:520-539 | A tick without a task leaves only timers beyond the present |
| SchedulerSpec.TickCounts | e-agent-node-runtime/src/scheduler.rs:520-539 | Each task returned uses up exactly one pending task or timer |
| Scheduler.ActiveCancel | e-agent-node-runtime/src/scheduler.rs:390-408 | Marking a heap entry cancelled is removing it from the timers that will fire |
| Scheduler.ActiveInsert | e-agent-node-runtime/src/scheduler.rs:331-350 | Pushing on the heap with cancelled entries is inserting into the timers that will fire |
| Scheduler.SomeIdFree | e-agent-node-runtime/src/scheduler.rs:356-385 | Fewer timers than ids leave an id free |
| Scheduler.Scheduler.constructor | e-agent-node-runtime/src/scheduler.rs:272-283 | A new scheduler is the empty loop |
| Scheduler.Scheduler.AllocateTimerId | e-agent-node-runtime/src/scheduler.rs:356-385 | The wrapping search ends with an id that no timer in the heap has, if there is one |
| Scheduler.Scheduler.SetTimeout | e-agent-node-runtime/src/scheduler.rs:331-350 | Arms one timer under an unused id, due after the delay or at the greatest time if that is earlier |
| Scheduler.Scheduler.ClearTimeout | e-agent-node-runtime/src/scheduler.rs:390-408 | Succeeds exactly for armed timers and disarms them |
| Scheduler.Scheduler.Enqueue | e-agent-node-runtime/src/scheduler.rs:411-462 | Queues one task with the next sequence number |
| Scheduler.Scheduler.MoveDueTimers | e-agent-node-runtime/src/scheduler.rs:467-509 | Queues a task for exactly the due timers that were not cancelled, in order |
| Scheduler.Scheduler.Tick | e-agent-node-runtime/src/scheduler.rs:520-539 | One tick of the loop without lazy cancellation: due timers first, then at most one task |
| Scheduler.Scheduler.TimerCount | e-agent-node-runtime/src/scheduler.rs:321-326 | Counts the timers that will fire |
| Scheduler.Scheduler.IsPending | e-agent-node-runtime/src/scheduler.rs:305-311 | Tells exactly whether anything is left to run |
| Scheduler.Scheduler.NextTimerDeadline | e-agent-node-runtime/src/scheduler.rs:543-549 | The least deadline among the timers that will fire |
| Scheduler.DrainToIdle | e-agent-node-runtime/src/scheduler.rs:2311-2331 | Jumping the clock to the next deadline whenever idle ends after exactly as many tasks as were pending |
| Slab.IssueNext | e-agent-node-runtime/src/scheduler.rs:1347-1358 | A slot's next generation makes a new handle unless the generation has saturated |
| Slab.HandlesAllocate | e-agent-node-runtime/src/scheduler.rs:1347-1358 | Allocating a slot adds exactly one outstanding handle |
| Slab.HandlesDeallocate | e-agent-node-runtime/src/scheduler.rs:1364-1381 | Freeing it removes exactly that one |
| Slab.NumaSlab.constructor | e-agent-node-runtime/src/scheduler.rs:1315-1332 | A new slab has every slot free and nothing out |
| Slab.NumaSlab.Allocate | e-agent-node-runtime/src/scheduler.rs:1347-1358 | Fails exactly when no slot is free, else hands out a handle that is not out |
| Slab.NumaSlab.Deallocate | e-agent-node-runtime/src/scheduler.rs:1364-1381 | Frees exactly the outstanding handles, never one twice and never a stale one |
| Slab.NumaSlabPool.constructor | e-agent-node-runtime/src/scheduler.rs:1413-1446 | One slab per node of the placement, or one for node 0, each with its capacity of at least one |
| Slab.NumaSlabPool.Allocate | e-agent-node-runtime/src/scheduler.rs:1469-1496 | Prefers the node asked for, else takes the first other node with room, fails exactly when every slab is full, reports and counts the crossing; the handle was never given out before unless its generation has saturated |
| Slab.NumaSlabPool.AllocateElsewhere | e-agent-node-runtime/src/scheduler.rs:1485-1496 | The scan over the other nodes finds room wherever there is any |
| Slab.NumaSlabPool.Deallocate | e-agent-node-runtime/src/scheduler.rs:1501-1508 | Frees exactly the handles that are out, from whichever slab |
| Placement.LayoutUsable | e-agent-node-runtime/src/scheduler.rs:698-712 | Nodes in ascending order, each with at least one core, in ascending order and without repetition, all from the topology |
| Placement.LayoutIsComplete | e-agent-node-runtime/src/scheduler.rs:698-712 | Every core and node pair of the topology is in the round |
| Placement.PlaceIsReal | e-agent-node-runtime/src/scheduler.rs:730-748 | A shard is only placed on a pair of the topology |
| Placement.PlaceFirst | e-agent-node-runtime/src/scheduler.rs:738-747 | The first shard runs on the lowest core of the lowest node |
| Placement.RoundRobin | e-agent-node-runtime/src/scheduler.rs:738-747 | The next shard goes to the next node, and the next one on a node to its next core, starting over after the last |
| Placement.GroupByNode | e-agent-node-runtime/src/scheduler.rs:698-712 | Collecting, sorting and removing duplicates gives a layout that depends on the set of pairs only |
| Placement.Plan | e-agent-node-runtime/src/scheduler.rs:656-755 | Each shard's binding, the node count and the reason for a fallback, in all five cases; without a topology shard s gets core s on node 0 |
| Placement.OnNodeIsShare | e-agent-node-runtime/src/scheduler.rs:730-748 | The number of shards on a node is its round-robin share of all shards |
| Placement.OnCoreIsShare | e-agent-node-runtime/src/scheduler.rs:730-748 | The number of shards on a core is its round-robin share of its node's share |
| Placement.ShareFormula | e-agent-node-runtime/src/scheduler.rs:730-748 | A round-robin share is the rounded quotient, with one more for the first few |
| Placement.PlacementIsBalanced | e-agent-node-runtime/src/scheduler.rs:730-748 | Nodes differ by at most one shard, and so do the cores of one node |
| Placement.ExclusiveIff | e-agent-node-runtime/src/scheduler.rs:730-748 | No two shards share a core exactly when no node gets more shards than it has cores |
| Placement.ExclusiveWhenRoomy | e-agent-node-runtime/src/scheduler.rs:730-748 | No two shards share a core when there are at most as many shards as nodes times the cores of the smallest node |
| Table.Widest | e-agent-tui/src/lib.rs:684-692 | The last of the widest columns |
| Table.Shrink | e-agent-tui/src/lib.rs:683-697 | The widths add up to the available width exactly (or to what was needed, or one each), and only columns within one of the widest were shrunk |
| Table.WordsMean | e-agent-tui/src/lib.rs:741 | The words of a cell are its characters in order, without the blanks |
| Table.WordsApart | e-agent-tui/src/lib.rs:741 | The cell is its words with blanks around them, and at least one between any two |
| Table.AppendWord | e-agent-tui/src/lib.rs:748-753 | A word that fits goes on the line whole; otherwise it starts a line and is broken only where a line is full, and no character is lost |
| Table.WrapCell | e-agent-tui/src/lib.rs:738-759 | All characters in order on lines that fit unless a single character is too wide; every word that fits in the column stays whole, others are broken where a line is full, and each line starts with what had no room on the one before |
| Table.FittingWordsAreWhole | e-agent-tui/src/lib.rs:738-759 | A word that fits in the column stands whole on some line, whatever the other words are |
| TableFrame.NaturalIsLeast | e-agent-tui/src/lib.rs:677-682 | The unshrunk width of a column is the least that fits all its cells |
| TableFrame.Measure | e-agent-tui/src/lib.rs:677-682 | Computes for each column the least width that fits all its cells |
| TableFrame.Border | e-agent-tui/src/lib.rs:699-707 | Draws a horizontal border |
| TableFrame.BorderShape | e-agent-tui/src/lib.rs:699-707 | A border has its corners at the ends and a junction at every bar between columns |
| TableFrame.CellIsDrawn | e-agent-tui/src/lib.rs:710-734 | Line k of a cell is on line k of its row, left-aligned in its column, blank below its last line; a border comes before every row |
| TableFrame.RenderTable | e-agent-tui/src/lib.rs:668-736 | Draws the table of the wrapped cells, whose frame is as wide as needed, as the terminal, or as one character per column requires |
| TableFrame.CellFits | e-agent-tui/src/lib.rs:738-759 | A wrapped cell stays in its column exactly when no character of it is wider |
| TableFrame.RowWidth | e-agent-tui/src/lib.rs:719-728 | A row's line is as wide as the frame exactly when each of its cells fits |
| TableFrame.AlignedIff | e-agent-tui/src/lib.rs:668-736 | All lines of the table are equally wide exactly when no character is wider than its column |
| TableFrame.WideCharacterMisaligns | e-agent-tui/src/lib.rs:668-736 | A table whose lines are not equally wide: one character of width two in a terminal five wide |

## Left out

- Lzss.Decompress: the final check that the text is valid UTF-8; the round trip is stated on bytes.
- Scheduler.Scheduler.Tick: equality with the loop is stated while the sequence counter has not saturated; past that only the heap and index invariant is.
- HostcallQueue.HostcallRequestQueue.PopFront: that reclaimed and retired requests add up to those popped, and that retired ones stay within the threshold, is stated while the epoch counter has not saturated.
- Epoch pins are a counter; threads and memory ordering are not modelled.
- Slab.NumaSlab.Allocate: a handle is new in all history only while its slot's generation has not saturated.
- BinaryHeap, BTreeMap, VecDeque and the lock-free ring are modelled as sorted sequences, maps, sequences and a bounded sequence.
- Message channels, one-shot senders, mutex poisoning and real time: each critical section is one step, the envelope channel is a bounded sequence, and a deadline may pass at any moment.
- Broker notifications, raw-input subscribers, diagnostics, capability checks and handle generations beyond the number handed out.
- The text format of coalesce keys, the mesh's string hash and the LZSS hash's use on 32-bit words.
- The placement and slab manifests carried inside the mesh and pool, hugepage status and thread affinity advice.
- Telemetry: maximum depths of the whole mesh, reclamation latencies, JSON rendering.
- Unicode width tables: each character has an abstract width, and the width of a text is the sum.
- Markdown events around the table and terminal drawing.
- Cryptography, HTTP, the JavaScript runtime, extensions and providers.
