# Verification of the relocation core

A Dafny 4.11 project that models the storage-tiering middleware under `Relocation/` and proves
what its parts promise over all inputs and all runs. `dafny verify dfyconfig.toml` checks it.

| modules | part of the system |
|---|---|
| `HeatRanges`, `HeatOrder`, `LazySort`, `HeatBuckets`, `HeatDistributions`, `AdviceFilter` | the lazy bucket sort by heat, its two-sided cursors, and the advice drawn from it |
| `TimeSchedule` | the normalised list of scheduled ranges of a day |
| `AdviceSet` | the round robin over the advices of three tiers |
| `ObjectCursor`, `CollectIO`, `HubEvents`, `HubCollection`, `HubLoop` | the HUB's event machine with its two queues, and the collection of object IO in batches |
| `Migrations`, `HubConfig`, `Unsettled` | disks, sub-pools and migrations in flight, with pins and delayed deletion; redirection after a migration |
| `ArbitrateeIndex`, `Arbitration`, `Arbitrators` | the life of an arbitratee between IN and OUT, and its lease |
| `AstStatus`, `AstSwitch` | switching the module on and off for single sub-pools |
| `Interpolation`, `DiskProfile` | disk performance from a profile |
| `IoAccounting` | moving averages, sums per disk, response times |
| `Arith`, `Common` | quotients and 32-bit words, shared definitions |

Code that changes state is modelled by classes whose methods are proved against functions on
values; the runs are sequences of those values. Words of 32 and 64 bits wrap where the program's
do. An assertion of the program is an outcome of its own (`None`, `AssertFails`), so that it can
be stated exactly when it fails.

## Where the code does not do what one would expect

Each of these is a lemma with a concrete input, or with the exact condition, or both.

- The boundaries of a heat range wrap for heats of 2^31 and more (`BoundariesCanWrap`, `NarrowBoundariesInOrderIff`).
- `GetNextColdOBJ` with nothing sorted hands out the objects of the unsorted bucket 0 over and over.
- A range is refused when it shares one end with a larger one, so whether a list of ranges goes in depends on its order (`RefusalDependsOnOrder`); the cover is right all the same.
- The last batch of a collection may announce another one, in which nothing is sent: exactly when not every counted object is involved (`LastBatchEndsIff`).
- A disable echo can end a collection without draining the waiting events, which breaks their order (`EchoBreaksOrder`, `RunKeepsOrderIff`).
- Removing a disk under the wrong, existing sub-pool erases the id of another disk, so that a completion may not find a disk that is still pinned (`RemoveKeepsAgreementIff`, `WrongRemovalLosesDisk`); pins stay accounted for all the same (`RunKeeps`).
- Removing a pinned disk twice counts it twice (`RemoveKeepsCounterIff`, `RemovedTwiceMisreports`).
- A migration request for a key in flight takes two pins that are never given back, so its disks can never go (`MigrateEffect`, `ReissueLeaks`, `LeakedIsNeverGone`).
- An object that migrates back before it settles has its current name redirected, and a third disk is missed altogether (`CurrentNameIsFinalIff`, `ThirdDiskIsMissed`).
- The header (`Relocation/ASTArb.hpp:108-113`) says that the cycle of the completed migration is recorded; the code keeps the cycle of admission, passed through a 32-bit parameter (`CompletionDoesNotStartLease`, `LeaseHonouredIff`).
- A failed echo leaves the module in transition for good (`FailedEchoIsFinal`, `FailedEchoReached`), a stale reading can mark a sub-pool as disabling under a disabled module (`DisabledStaysQuietIff`), and a handled disable is final only if no enable request is queued, which the disable echo itself may have launched (`DisableIsFinalIff`, `RelaunchUndoesDisable`).
- A sub-pool that is disabled while the module is still being enabled leaves a module that runs for nobody, and disabling the sub-pool once more does not stop it (`UnneededReached`, `NeededIff`, `RunNeededIff`).
- Interpolation can fall on a rising segment, the weighted mean of equal values loses up to 99, a wrapped denominator lifts it above both values, and raising a part of the mix from zero can lower it to zero (`LinearCanFall`, `SegmentMonotoneIff`, `WeightedOfEqual`, `WeightedCanExceed`, `WeightedAtMostIff`, `ZeroPartDrops`, `ZeroPartKeptIff`).

## Model

| member | source | states |
|---|---|---|
| HeatRanges.HeatRange.ObserveDisk | Relocation/ASTHeatDistribution.cpp:2781-3034 | folds in one disk: afterwards the fields hold the least and the greatest heat over all objects of the disks seen, and the sum of the 32-bit sums the disks keep |
| HeatRanges.HeatRange.Calculate | Relocation/ASTHeatDistribution.cpp:1837-1867 | for any population spread over disks: if no disk's sum wrapped, the average is the truncated mean and lies between the extremes; while nothing wraps each boundary is the greater of its two candidates, half the way to the average and a quarter of the way to the other extreme; the boundaries are in order if max + avg fits 32 bits, which for spreads below 2^30 is also needed; without objects only the sums stay |
| HeatRanges.PortionsAreGreater | Relocation/ASTHeatDistribution.cpp:1856-1867 | as long as its sums fit 32 bits, each boundary is at least both of its candidates and one of them |
| HeatRanges.DiskSumsExactIff | Relocation/ASTHeatDistribution.cpp:2781-3034 | the sum of the disks' sums is never more than that of the population, and equal to it exactly when no disk's sum wrapped |
| HeatRanges.SumBetween | Relocation/ASTHeatDistribution.cpp:1837-1867 | a sum of n heats lies between n times the least and n times the greatest |
| HeatRanges.AverageBetweenExtremes | Relocation/ASTHeatDistribution.cpp:1837-1867 | for every non-empty population the stored average fits its word and lies between least and greatest heat |
| HeatRanges.BoundariesInOrder | Relocation/ASTHeatDistribution.cpp:1845-1867 | min <= minBoundary <= maxBoundary <= max in spite of four truncating divisions, whenever max + avg fits 32 bits |
| HeatRanges.NarrowBoundariesInOrderIff | Relocation/ASTHeatDistribution.cpp:1845-1867 | for every spread below 2^30, so for all spreads below ten, where alone the boundaries are read, their order holds if and only if max + avg fits 32 bits |
| HeatRanges.WideBoundariesByChance | Relocation/ASTHeatDistribution.cpp:1845-1867 | a population from 0 to 2^32 - 1 keeps the order although the half sum wraps |
| HeatRanges.BoundariesCanWrap | Relocation/ASTHeatDistribution.cpp:1845-1867 | a population of one heat of 2^31 gets a lower boundary below its minimum |
| HeatRanges.BucketIndex | Relocation/ASTHeatDistribution.cpp:3333-3380 | an index is at most 10, and at most 9 whenever the capacity is positive; which it is, BucketHoldsHeat and BucketOfDraw say |
| HeatRanges.BucketHoldsHeat | Relocation/ASTHeatDistribution.cpp:3371-3377 | with a positive capacity the bucket b of a heat of at least the minimum is the one with min + b * cap <= heat < min + (b + 1) * cap, where bucket 9 has no upper end, and a lower heat goes to bucket 0 |
| HeatRanges.BucketOfDraw | Relocation/ASTHeatDistribution.cpp:3344-3369 | with capacity zero a hot object above the upper boundary is drawn into buckets 3 to 9, a cold one below the lower boundary into 0 to 2, and of all others one draw in five into any; a range that was never calculated takes none |
| HeatRanges.BucketIndexMonotone | Relocation/ASTHeatDistribution.cpp:3371-3377 | with a positive capacity a hotter object never gets a lower bucket |
| HeatRanges.BucketIndexEnds | Relocation/ASTHeatDistribution.cpp:3371-3377 | a spread of at least ten makes the capacity positive; the least heat goes to bucket 0 and the greatest to bucket 9 |
| HeatOrder.PrefixOfFullSort | Relocation/ASTHeatDistribution.cpp:2235-2504 | an ordered run in front of everything left out is, heat by heat, the front of any full sort of both |
| HeatOrder.HeatsPermute | Relocation/ASTHeatDistribution.cpp:2235-2504 | rearranging objects rearranges their heats |
| HeatOrder.Sort | Relocation/ASTHeatDistribution.cpp:2255-2275 | sorting one bucket gives some ordered permutation of it |
| LazySort.WalkIsOrdered | Relocation/ASTHeatDistribution.cpp:2506-2645 | ordered buckets that respect the partition walk in one global heat order |
| LazySort.NothingLeftOutIsAhead | Relocation/ASTHeatDistribution.cpp:2235-2352 | no object left out may come before one handed out |
| LazySort.LazyWalk | Relocation/ASTHeatDistribution.cpp:2235-2352 | a request for n: the walk is a permutation of the sorted buckets, globally ordered, at least min(n, side) long, and ahead of the rest of the side |
| LazySort.LazyWalkIsPrefixOfFullSort | Relocation/ASTHeatDistribution.cpp:2235-2352 | with the other side behind it, the walk equals a prefix of a full sort of the whole population, heat by heat |
| LazySort.DepthForUnique | Relocation/ASTHeatDistribution.cpp:2235-2352 | a request determines how many buckets are sorted |
| LazySort.ExtendTwice | Relocation/ASTHeatDistribution.cpp:2354-2504 | a sort followed by an extension is one sort with the larger request |
| LazySort.HistoryIsOneRequest | Relocation/ASTHeatDistribution.cpp:2235-2504 | one sort and any number of extensions are one sort with the largest request |
| LazySort.OrderedHeatsUnique | Relocation/ASTHeatDistribution.cpp:2235-2504 | two ordered rearrangements of a bucket have the same heats position by position |
| LazySort.HistoryMatchesSingleSort | Relocation/ASTHeatDistribution.cpp:2235-2504 | any history and a single sort with its largest request agree on the last sorted bucket, the sorted count and the heats of the whole walk |
| HeatBuckets.HeatBucket.constructor | Relocation/ASTHeatDistribution.cpp:1909-1953 | ten empty buckets, the default boundary and the "nothing sorted" mark on both sides |
| HeatBuckets.HeatBucket.AddOBJ | Relocation/ASTHeatDistribution.cpp:2167-2179 | the object is appended to its bucket and no other bucket changes |
| HeatBuckets.HeatBucket.CalculateOBJsAboveBoundary | Relocation/ASTHeatDistribution.cpp:2189-2204 | the count is that of all buckets above the boundary |
| HeatBuckets.HeatBucket.CalculateOBJsBelowBoundary | Relocation/ASTHeatDistribution.cpp:2206-2221 | the count is that of all buckets up to the boundary |
| HeatBuckets.HeatBucket.SortInPlace | Relocation/ASTHeatDistribution.cpp:2255-2280 | one bucket becomes an ordered permutation of itself, the others stay as they are |
| HeatBuckets.HeatBucket.SortAbove | Relocation/ASTHeatDistribution.cpp:2235-2290 | sorts exactly the fewest leading hot buckets that hold min(maxn, objects above), counts them, and leaves the cold side alone; without a comparator nothing is sorted |
| HeatBuckets.HeatBucket.SortBelow | Relocation/ASTHeatDistribution.cpp:2292-2352 | the mirror image below the boundary, with its own "nothing sorted" mark |
| HeatBuckets.HeatBucket.ExtendSortAboveBoundary | Relocation/ASTHeatDistribution.cpp:2354-2416 | continues below the last sorted bucket without touching sorted ones; the cursor then has exactly the newly sorted objects more to hand out, even if it had reached the end |
| HeatBuckets.HeatBucket.ExtendSortBelowBoundary | Relocation/ASTHeatDistribution.cpp:2418-2504 | the mirror image below the boundary, starting at bucket 0 when nothing was sorted; a cursor moved over the unsorted bucket 0 before skips as many of the sorted ones |
| HeatBuckets.HeatBucket.GetFirstHotOBJ | Relocation/ASTHeatDistribution.cpp:2506-2541 | starts the walk of the sorted hot buckets at its first object, passing over empty buckets |
| HeatBuckets.HeatBucket.GetNextHotOBJ | Relocation/ASTHeatDistribution.cpp:2543-2568 | hands out the head of what the hot walk has left, and leaves the tail |
| HeatBuckets.HeatBucket.GetFirstColdOBJ | Relocation/ASTHeatDistribution.cpp:2571-2617 | starts the walk of the sorted cold buckets |
| HeatBuckets.HeatBucket.GetNextColdOBJ | Relocation/ASTHeatDistribution.cpp:2619-2645 | hands out the head of what the cold walk has left; with nothing sorted repeated calls hand out the unsorted bucket 0 object by object, report the end once, and start again |
| HeatBuckets.HeatBucket.WalkHot | Relocation/ASTHeatDistribution.cpp:2506-2568 | First, then Next until the end, yields each object of the sorted hot buckets exactly once, in bucket order |
| HeatBuckets.HeatBucket.WalkCold | Relocation/ASTHeatDistribution.cpp:2571-2645 | the same for the sorted cold buckets |
| HeatBuckets.RestGrows | Relocation/ASTHeatDistribution.cpp:2354-2504 | an extension appends the newly sorted buckets to what any cursor has left |
| HeatBuckets.HeatBucket.GetAllSatisfyingOBJs | Relocation/ASTHeatDistribution.cpp:2647-2691 | the set is exactly what the walk of that side would hand out |
| HeatDistributions.Partition | Relocation/ASTHeatDistribution.cpp:3406-3476 | every admitted object is appended to the bucket of its index, in meeting order, and above plus below is the number admitted; with a positive capacity an admitted object is on the hot side exactly when its heat is at least min + 4 * cap; it fails exactly when none is admitted |
| HeatDistributions.SidesByHeat | Relocation/ASTHeatDistribution.cpp:3406-3476 | for every boundary and positive capacity, the hot side holds exactly the admitted objects of heat at least min + (boundary + 1) * cap, and the cold side the others |
| HeatDistributions.AdmittedAreMonitored | Relocation/ASTHeatDistribution.cpp:3406-3476 | with a positive capacity exactly the monitored objects take part |
| HeatDistributions.EveryObjectInOneBucket | Relocation/ASTHeatDistribution.cpp:3406-3476 | both sides together hold the admitted population, each object once |
| HeatDistributions.LowerBucketIsColder | Relocation/ASTHeatDistribution.cpp:3371-3377 | with a positive capacity an object of a lower bucket is strictly colder |
| HeatDistributions.PartitionSeparates | Relocation/ASTHeatDistribution.cpp:3406-3476 | each side is partitioned by heat and the cold side holds nothing hotter than the hot side |
| HeatDistributions.WalkAgreesWithFullSort | Relocation/ASTHeatDistribution.cpp:2235-2504 | for every population, boundary, direction and history of requests the walk has no object twice, has at least min(largest request, side) objects, and matches the front of a full sort of the population |
| HeatDistributions.SortBucket | Relocation/ASTHeatDistribution.cpp:3478-3497 | the first sort of a partitioned bucket answers both requests; a side asked for nothing stays unsorted |
| HeatDistributions.SetupExisting | Relocation/ASTHeatDistribution.cpp:3498-3584 | a later rule extends each side exactly when more is asked than is sorted |
| AdviceFilter.KeptMember | Relocation/ASTAdvice.cpp:1614-1791 | an object is advised exactly when the walk hands it out and every filter set holds it, and as often as it is handed out |
| AdviceFilter.KeptIsOrdered | Relocation/ASTAdvice.cpp:1614-1791 | filtering keeps the heat order of the walk |
| AdviceFilter.EmptySetKeepsNothing | Relocation/ASTAdvice.cpp:1614-1640 | one empty filter set leaves no advice |
| AdviceFilter.SatisfyingSets | Relocation/ASTAdvice.cpp:1614-1640 | each filter set is exactly what the walk of the filter's own bucket hands out |
| AdviceFilter.IntersectAdviceAndFilterRule | Relocation/ASTAdvice.cpp:1571-1795 | the advice list is the hot or cold walk restricted to the objects in all filter sets, in walk order; success exactly when it is not empty, and "no data" rather than "no entry" exactly when some set is empty |
| TimeSchedule.PassCover | Relocation/ASTHUB.cpp:3124-3222 | in every overlap case, the refused ones included, the adjusted list with its possible append covers exactly the old cover and the new range |
| TimeSchedule.PassKeepsOrder | Relocation/ASTHUB.cpp:3124-3222 | when nothing is appended the adjusted list is still sorted by start |
| TimeSchedule.InvalidExactly | Relocation/ASTHUB.cpp:3204-3212 | the invalid status is returned exactly when some range of the list strictly contains the new one and shares one end with it |
| TimeSchedule.Merge | Relocation/ASTHUB.cpp:3224-3254 | merging a list sorted by start gives a strictly separated list of the same cover |
| TimeSchedule.SortedUnique | Relocation/ASTHUB.hpp:727-740 | there is one sorted permutation, so what the sort does with equal ranges does not matter |
| TimeSchedule.TimeScheduleConfig.Adjust | Relocation/ASTHUB.cpp:3124-3215 | the loop computes the adjusting pass and ends at the list's end or at a range equal to or strictly containing the new one |
| TimeSchedule.TimeScheduleConfig.AddTimeRange | Relocation/ASTHUB.cpp:3087-3262 | keeps the list sorted and strictly separated; its cover becomes the union with the new range; a full day is replaced only if the schedule is new, and otherwise absorbs everything |
| TimeSchedule.TimeScheduleConfig.AddTimeRanges | Relocation/ASTHUB.cpp:3264-3290 | the list becomes the normal form of the inputs up to and including the first refused one |
| TimeSchedule.TimeScheduleConfig.TimeIsScheduled | Relocation/ASTHUB.cpp:3043-3084 | a second is scheduled exactly when its weekday is and some range has start <= second < end |
| TimeSchedule.TimeScheduleConfig.CheckTimeScheduleConfigEqual | Relocation/ASTHUB.cpp:3292-3315 | equal exactly when weekdays and lists are equal element by element |
| TimeSchedule.NormalFormIsCanonical | Relocation/ASTHUB.cpp:3087-3262 | two sorted, strictly separated lists of equal cover are equal |
| TimeSchedule.ScheduleIndependentOfOrder | Relocation/ASTHUB.cpp:3264-3290 | inputs that all go in give the same list in whatever order |
| TimeSchedule.EqualityDecidesCoverage | Relocation/ASTHUB.cpp:3292-3315 | comparing normalised lists decides whether they cover the same seconds |
| TimeSchedule.RefusalDependsOnOrder | Relocation/ASTHUB.cpp:3204-3212 | [10,20) then [10,15) is refused, the other order is not |
| AdviceSet.RoundsOfTier | Relocation/ASTAdvice.cpp:62-182 | each tier contributes its own advices in order, each once |
| AdviceSet.EachSlotOnce | Relocation/ASTAdvice.cpp:62-182 | the whole schedule holds each existing advice exactly once and nothing else |
| AdviceSet.RoundsInTurn | Relocation/ASTAdvice.cpp:62-182 | of any two slots of the schedule the one of the earlier round comes first, and in one round the one of the lower tier |
| AdviceSet.TurnsAreFair | Relocation/ASTAdvice.cpp:82-117 | two tiers that both have advices left differ by at most one turn |
| AdviceSet.TurnTaken | Relocation/ASTAdvice.cpp:82-182 | from counters of the closed form min(size, r + 1) up to the last chosen tier and min(size, r) after it, one turn takes the next slot of the schedule and keeps the form |
| AdviceSet.NoTurnTaken | Relocation/ASTAdvice.cpp:82-182 | with every tier spent nothing of the schedule is left |
| AdviceSet.TierBasedAdviceSet.AddAdvice | Relocation/ASTAdvice.cpp:5-15 | the advice is appended to its tier only |
| AdviceSet.TierBasedAdviceSet.GetFirstTier | Relocation/ASTAdvice.cpp:62-79 | the first tier that has an advice |
| AdviceSet.TierBasedAdviceSet.GetNextTier | Relocation/ASTAdvice.cpp:81-117 | the next unspent tier after the last one, wrapping round once, or none exactly when all are spent |
| AdviceSet.TierBasedAdviceSet.GetFirstAdvice | Relocation/ASTAdvice.cpp:119-157 | restarts the walk and hands out the first advice of the schedule |
| AdviceSet.TierBasedAdviceSet.GetNextAdvice | Relocation/ASTAdvice.cpp:159-182 | hands out the head of what the schedule has left, and leaves the tail |
| AdviceSet.TierBasedAdviceSet.Walk | Relocation/ASTAdvice.cpp:119-182 | First, then Next until the end, yields one advice for each slot of the schedule, the one at its tier and index, round by round and in each round from the lowest tier up, and ends |
| AdviceSet.TierBasedAdviceSet.GetFirstAdviceSatisfy | Relocation/ASTAdvice.cpp:184-205 | the first advice of the schedule whose flag is as wanted |
| AdviceSet.TierBasedAdviceSet.GetNextAdviceSatisfy | Relocation/ASTAdvice.cpp:207-222 | the next such advice; everything passed over has the other flag |
| ObjectCursor.PoolFirst | Relocation/ASTHUB.cpp:3914-3941 | the first object of a sub-pool in disk order; the cursor has the rest left |
| ObjectCursor.PoolNext | Relocation/ASTHUB.cpp:3944-3986 | the head of what the sub-pool's cursor has left, moving over disks without objects |
| ObjectCursor.ConfigView.GetFirstOBJView | Relocation/ASTHUB.cpp:4671-4712 | the first object of the involved sub-pools; the three-level cursor has exactly the others left |
| ObjectCursor.ConfigView.GetNextOBJView | Relocation/ASTHUB.cpp:4714-4768 | the head of what the cursor has left, and the tail stays |
| ObjectCursor.ConfigView.GetOBJCnt | Relocation/ASTHUB.cpp:4793-4807 | the number of objects of all sub-pools |
| ObjectCursor.InvolvedAtMostAll | Relocation/ASTHUB.cpp:4793-4807 | the involved objects are never more than were counted |
| ObjectCursor.AllInvolvedIff | Relocation/ASTHUB.cpp:4793-4807 | as many as were counted are involved exactly when no object is on a sub-pool that is not |
| ObjectCursor.DiskInOrder | Relocation/ASTHUB.cpp:4671-4768 | in cursor order the objects of a disk of an involved sub-pool follow those of the disks and sub-pools before it and precede those after it |
| CollectIO.ChunksCoverExactly | Relocation/ASTHUB.cpp:2530-2606 | fragments joined are the objects, none lost or repeated; every fragment but the last is full |
| CollectIO.FillingIsChunking | Relocation/ASTHUB.cpp:2530-2606 | filling one fragment after the other is cutting into fragments |
| CollectIO.Collector.Prepare | Relocation/ASTHUB.cpp:490-507 | the number to be collected is the number of objects, and none is collected yet |
| CollectIO.Collector.FillBatch | Relocation/ASTHUB.cpp:2530-2580 | the loop fills fragments in cursor order until the batch is full or the cursor at its end |
| CollectIO.Collector.CollectIO | Relocation/ASTHUB.cpp:2498-2606 | one request answers with the next min(rest, 16 fragments) objects, cut into fragments, and leaves the cursor behind them; it announces a next batch exactly when something was read and fewer than counted are collected afterwards, and is otherwise marked as the end; idle or switched off it reads and marks nothing |
| CollectIO.AnswerMeans | Relocation/ASTHUB.cpp:2570-2606 | what an answer holds and says: at most 16 fragments, all full but the last, of the next objects in order; success exactly when something was read; next batch exactly when something was read and fewer than counted are then collected |
| HubEvents.QueuesAfter | Relocation/ASTHUB.cpp:191-530 | handling moves the head of the queue to the waiting queue, or handles it; only the post event empties the waiting queue, to the front |
| HubEvents.WaitsIff | Relocation/ASTHUB.cpp:1494-1529 | an event waits if and only if object IO is being collected and it is one of the six kinds that change the configuration or move the shared cursors; the post event leaves nothing waiting, the status serving, and the waiting events in front of the queued ones |
| HubEvents.CollectingIff | Relocation/ASTHUB.cpp:484-531 | a collection begins only with its preparation while the module is on, and ends only with the post event or when the module is switched |
| HubEvents.SwitchMeans | Relocation/ASTHUB.cpp:2041-2154 | a switch leaves the module serving or, unless it stops, idle; a failed echo changes nothing |
| HubEvents.WhatChanges | Relocation/ASTHUB.cpp:191-531 | the configuration and the cursor change only with the six kinds when handled, and with a batch; what is counted only with a preparation |
| HubEvents.BatchCounts | Relocation/ASTHUB.cpp:2498-2606 | a collecting request sends exactly one answer and counts exactly the objects in it |
| HubEvents.RunWaitsOnlyConfiguration | Relocation/ASTHUB.cpp:1494-1529 | over every run only events of these six kinds ever wait |
| HubEvents.StepKeepsOnce | Relocation/ASTHUB.cpp:191-202 | every step keeps each launched event in exactly one place: handled, waiting or queued |
| HubEvents.HandleKeepsOrderIff | Relocation/ASTHUB.cpp:1494-1529 | handling keeps the launch order of configuration events exactly when it does not overtake a waiting one |
| HubEvents.RunKeepsOrder | Relocation/ASTHUB.cpp:191-531 | over every run that leaves collecting only by the post event, each event is in one place, events wait only while collecting, and configuration events are handled in launch order |
| HubEvents.RunKeepsOrderIff | Relocation/ASTHUB.cpp:191-531 | over every run at all the launch order is kept throughout if and only if no step handles a configuration event past a waiting one |
| HubEvents.EchoOvertakes | Relocation/ASTHUB.cpp:2020-2140 | in every state that collects with nothing waiting, switching the module off between two configuration events, by an echo or synchronously, makes the second overtake the first |
| HubEvents.EchoBreaksOrder | Relocation/ASTHUB.cpp:2136-2140 | a run of ten steps from the start, for any five such events, at the end of which the order is broken |
| HubCollection.ChunksSplit | Relocation/ASTHUB.cpp:2498-2606 | cutting at a multiple of the fragment size makes no difference to the fragments |
| HubCollection.StepReports | Relocation/ASTHUB.cpp:1494-1529 | inside a collection a step either reports the next batch, or answers that the module is off, or leaves configuration and cursor alone |
| HubCollection.CollectionIsComplete | Relocation/ASTHUB.cpp:2498-2606 | over every collection, other events and the switching off and on of the module in between included, the fragments sent are the first involved objects in cursor order, each once, full but the last, and all of them once the requests answered with the module on have room for them |
| HubCollection.StopsInTime | Relocation/ASTHUB.cpp:2498-2606 | an answer without "next batch" means that everything was sent, if the module was on when it was given or if it is marked as the end |
| HubCollection.FlagOfBatch | Relocation/ASTHUB.cpp:2578-2588 | in a collection, an answer with the module on announces a next batch exactly when it sent something and fewer than counted are collected, and is otherwise marked as the end |
| HubCollection.LastBatchEndsIff | Relocation/ASTHUB.cpp:2578-2588 | the batch that sends the last involved object is marked as the end if and only if every counted object is involved |
| HubLoop.HUB.constructor | Relocation/ASTHUB.cpp:14-60 | both queues empty and no reference held |
| HubLoop.HUB.Launch | Relocation/ASTHUB.cpp:1154-1330 | a launched event takes one reference and one slot, at the front or the back |
| HubLoop.HUB.Dequeue | Relocation/ASTHUB.cpp:191-197 | the dequeued event is in hand with the reference of its former slot |
| HubLoop.HUB.EnqueuePending | Relocation/ASTHUB.cpp:1945-1952 | a waiting event takes a reference for its slot |
| HubLoop.HUB.HandlePendingEvent | Relocation/ASTHUB.cpp:789-815 | the waiting events move to the front in their order, references untouched |
| HubLoop.HUB.HandleEvent | Relocation/ASTHUB.cpp:191-531 | one round of the loop, with its collector over the three-level cursor, does what the step on values does: the head of the queue waits exactly if one of the six kinds meets a collection, and the post event leaves nothing waiting, the status serving and the waiting events in front; the reference counts equal the queue slots |
| HubLoop.HUB.HandleEvents | Relocation/ASTHUB.cpp:191-531 | the loop ends with an empty queue, and the states it goes through are a run, so what holds over runs holds of the HUB and its cursor |
| HubLoop.HUB.SentAndLeft | Relocation/ASTHUB.cpp:2498-2606 | at every moment of a collection that has sent something, what was sent and what the three-level cursor has left are together all involved objects, in order |
| HubLoop.HUB.FreedExactlyWhenHandled | Relocation/ASTHUB.cpp:191-202 | an event that is queued or waits has exactly one reference, a handled one none |
| Migrations.RemoveEffect | Relocation/ASTHUB.cpp:3764-3813 | removing a disk whose id is registered drops it when it has no pins, with an emptied sub-pool, and otherwise only flags it |
| Migrations.RemoveKeepsAgreementIff | Relocation/ASTHUB.cpp:4398-4438 | after a removal in a known sub-pool the id maps still agree with the disks exactly when the id is unknown or registered under this key |
| Migrations.RemoveKeepsCounterIff | Relocation/ASTHUB.cpp:3788-3806 | the delay-delete counter stays the number of flagged disks exactly when the disk is not both pinned and flagged already |
| Migrations.UnpinKeeps | Relocation/ASTHUB.cpp:2817-2829 | one unpin gives back one pin; a disk with a registered id goes exactly when it was flagged and this was its last |
| Migrations.MigrateEffect | Relocation/ASTHUB.cpp:651-657 | a discarded request changes nothing; an accepted one pins both disks and records its key, or, for a key in flight, leaves the table alone and leaks exactly its two pins |
| Migrations.MigrateKeeps | Relocation/ASTHUB.cpp:651-657 | every request keeps the accounts and the order of the maps, and the leaked pins stay the same exactly when it does not reissue a key in flight |
| Migrations.MoveKeeps | Relocation/ASTHUB.cpp:3012-3040 | moving an object succeeds exactly when both disks can be found and it is on the source and not yet on the target; it changes no pin or flag |
| Migrations.CompleteKeeps | Relocation/ASTHUB.cpp:2756-2832 | in every state a run can reach both disks are still there; a completion fails exactly when the key is not in flight, the object cannot move, or the id of one disk is no longer registered; otherwise each named disk has lost its pins of this migration and is gone exactly when it was flagged and these were its last |
| Migrations.ApplyKeeps | Relocation/ASTHUB.cpp:2640-2830 | every operation keeps the pin equation, the sub-pools and the registered ids in agreement with the disks; each disk stays registered and each flagged one pinned unless a removal names a known id under another sub-pool; leaked pins never become fewer, and more exactly for a reissued key |
| Migrations.FailsExactlyWhen | Relocation/ASTHUB.cpp:2640-2830 | for each operation, in the states of every run, exactly which inputs make an assertion fail |
| Migrations.RunKeeps | Relocation/ASTHUB.cpp:2640-2850 | over every run, each disk's pins are the table entries naming it plus the leaked ones and every registered id leads to its disk; up to a removal under another sub-pool every disk is registered and every flagged one pinned |
| Migrations.PinsAreEntries | Relocation/ASTHUB.cpp:2739-2750 | over every run without reissued keys pins equal table entries, and a disk the table names is never gone |
| Migrations.GoesAtLastUnpin | Relocation/ASTHUB.cpp:2817-2829 | after a completion a flagged disk is still there exactly when another table entry names it, a pin of it was leaked, or it had none, which with orderly maps is never so |
| Migrations.LeakedIsNeverGone | Relocation/ASTHUB.cpp:2852-2863 | over every run, a disk with a leaked pin is never gone again, whatever is removed or completed |
| Migrations.ReissueLeaks | Relocation/ASTHUB.cpp:2852-2863 | a run of five operations that leaks the two pins of a reissued request |
| Migrations.WrongRemovalLosesDisk | Relocation/ASTHUB.cpp:4398-4438 | a run of six operations after which the maps no longer agree and a completion cannot find a disk that is still there and pinned |
| Migrations.RemoveKeepsIff | Relocation/ASTHUB.cpp:4398-4438 | a removal in a known sub-pool always keeps the accounts, and all invariants exactly when the id is unknown or registered under this key |
| Migrations.ReportTellsTruth | Relocation/ASTHUB.cpp:2193-2280 | with an exact counter the sub-pool is reported gone exactly when every disk left in it is flagged |
| Migrations.RemovedTwiceMisreports | Relocation/ASTHUB.cpp:3800-3806 | removing a pinned disk twice makes the sub-pool be reported gone while its other disk lives on |
| Migrations.NamesInsert | Relocation/ASTHUB.cpp:2852-2863 | a table entry counts once for its source and once for its target |
| HubConfig.HUBConfig.AddDiskView | Relocation/ASTHUB.cpp:4310-4357 | fails exactly if only one of id and key is known, with orderly maps exactly for an id registered under another key; otherwise the disk can be found afterwards, a new one empty, without pins and registered under its id, a known one as it was, and no other changes |
| HubConfig.HUBConfig.RemoveDisk | Relocation/ASTHUB.cpp:2179-2280 | fails exactly for an unknown sub-pool; a registered disk without pins is gone and a pinned one flagged, a key without disk only forgets its id; orderly maps stay so exactly when the key is the registered one; with an exact counter "sub-pool gone" is reported exactly when every disk left is flagged |
| HubConfig.HUBConfig.Migrate | Relocation/ASTHUB.cpp:560-690 | fails exactly for an involved request to an unknown sub-pool; an involved one is accepted exactly when both ids are registered, both disks are there and the object is on its disk; a discarded one changes nothing; an accepted one adds a pin to each of the two disks and its key to the table, or leaks the pins; the invariants hold afterwards |
| HubConfig.HUBConfig.DecPinnedNum | Relocation/ASTHUB.cpp:2817-2829 | one held pin is given back, the invariants hold with one held pin less, and the disk goes exactly when it was flagged and this was its last |
| HubConfig.HUBConfig.CompleteMigrate | Relocation/ASTHUB.cpp:2756-2832 | goes through exactly when the key is in flight, both ids are registered and, on success, the old name is on the source and the new one not yet on the target; with orderly maps both ids always are; the disks give back their pins and go exactly if flagged and these were the last; the object leaves its old name and joins its new one |
| HubConfig.HUBConfig.AddOBJView | Relocation/ASTHUB.cpp:4441-4484 | never fails in a valid state: the object joins the one disk registered for its storage id, which is always there, and nothing else changes |
| HubConfig.HUBConfig.DeleteOBJView | Relocation/ASTHUB.cpp:4518-4550 | the object leaves the one disk registered for its storage id, and nothing else changes |
| Unsettled.MarkKeepsInverseIff | Relocation/ASTHUB.cpp:2898-2990 | recording a migration keeps the two maps inverse exactly when its old and its new name are both recorded already or both not |
| Unsettled.SettleKeepsInverse | Relocation/ASTHUB.cpp:1636-1658 | settling keeps the maps inverse, ends the redirection of the old name and changes no other |
| Unsettled.SettleUndoesMark | Relocation/ASTHUB.cpp:1616-1658 | a fresh migration is redirected to its new name, and settling it gives back the maps as they were |
| Unsettled.RedirectedIff | Relocation/ASTHUB.cpp:1616-1634 | after a migration the old name leads to the new one exactly when it was not unsettled towards another disk |
| Unsettled.CurrentNameIsFinalIff | Relocation/ASTHUB.cpp:1616-1634 | the new name is itself not redirected exactly when the object had not left it unsettled before |
| Unsettled.ThirdDiskIsMissed | Relocation/ASTHUB.cpp:2898-2990 | an object that comes back and leaves for a third disk is redirected to where it went first |
| Unsettled.UnsettledOBJs.MarkOBJAsUnsettled | Relocation/ASTHUB.cpp:2798-2802 | both maps gain the name of the object on the other disk unless they have it; the old name leads to the new one exactly when it did not lead elsewhere, no other redirection changes, the maps stay inverse exactly when both names were recorded or neither, and settling a fresh one at once gives back the maps |
| Unsettled.UnsettledOBJs.ShouldRedirect | Relocation/ASTHUB.cpp:1616-1634 | answers whether the old name is recorded and leads to the same object on the recorded disk |
| Unsettled.UnsettledOBJs.MarkOBJAsSettledIfNeccessary | Relocation/ASTHUB.cpp:1636-1658 | settles exactly the recorded names: the old name is no longer redirected, every other redirection stays, and the maps stay inverse |
| ArbitrateeIndex.SubPoolArbitratee.GetArbitratee | Relocation/ASTArb.cpp:20-37 | finds exactly the keys of the list |
| ArbitrateeIndex.SubPoolArbitratee.AddArbitratee | Relocation/ASTArb.cpp:39-57 | map and list gain the same arbitratee, or the key is refused; a cursor at the end stays at the end |
| ArbitrateeIndex.SubPoolArbitratee.RemoveArbitratee | Relocation/ASTArb.cpp:59-79 | map and list lose the same arbitratee; the cursor keeps standing on its own one |
| ArbitrateeIndex.SubPoolArbitratee.SetArbitratee | Relocation/ASTArb.cpp:512-520 | overwriting the data of an arbitratee shows in map and list, in its place; the cursor stays |
| ArbitrateeIndex.ReplaceKeepsSame | Relocation/ASTArb.cpp:512-520 | overwriting an entry in the map and at its place in the list keeps both in agreement |
| ArbitrateeIndex.DiscardedConsistent | Relocation/ASTArb.cpp:1349-1365 | map and list still agree, each key once, when the expired arbitratees are dropped |
| ArbitrateeIndex.SubPoolArbitratee.GetFirstArbitratee | Relocation/ASTArb.cpp:81-99 | the first of the list, the cursor after it |
| ArbitrateeIndex.SubPoolArbitratee.GetNextArbitratee | Relocation/ASTArb.cpp:101-118 | the one under the cursor, the cursor after it |
| ArbitrateeIndex.SubPoolArbitratee.DiscardExpired | Relocation/ASTArb.cpp:1349-1365 | although it removes while the cursor walks, exactly the unexpired arbitratees stay, in their order, in list and map |
| ArbitrateeIndex.UnexpiredMember | Relocation/ASTArb.cpp:1349-1365 | what stays is what was there and has not expired |
| Arbitration.ReceiveEffect | Relocation/ASTArb.cpp:1008-1116 | for every slot, what a plan does to IN and OUT: it takes over or newly enters its own slot, drops an expired entry of OUT, or clears its missing sub-pool, and changes no other |
| Arbitration.PlanIsRecorded | Relocation/ASTArb.cpp:1033-1035 | an admitted plan and one that takes over leave an entry with the key of the slot, the target, direction and epoch of the plan, and the cycle in 32 bits; a plan that does neither leaves the entry of IN as it was |
| Arbitration.EveryEntryIsAPlan | Relocation/ASTArb.cpp:1008-1116 | over every run from the start each entry of IN and OUT has the target, direction and epoch of one plan received for its slot, and the cycle of its reception in 32 bits |
| Arbitration.ApplyKeeps | Relocation/ASTArb.cpp:1008-1405 | every operation keeps map and list of every index in agreement with each key once, IN and OUT apart, and recorded cycles in the past |
| Arbitration.CompleteMoves | Relocation/ASTArb.cpp:1135-1212 | a completed migration leaves IN and is in OUT as it was, never meeting an older entry, and no other slot changes |
| Arbitration.ConflictKeepsHigher | Relocation/ASTArb.cpp:472-530 | a conflicting plan is not admitted; the entry takes over its data exactly if its direction has the higher priority or is the same, so the better priority is kept |
| Arbitration.AdmittedIff | Relocation/ASTArb.cpp:532-583 | a plan for a key in OUT is admitted exactly when it is placed and more than two cycles have passed since the recorded one for promotions and demotions of counters, and more than none for others |
| Arbitration.RunKeepsInv | Relocation/ASTArb.cpp:1008-1405 | over every run of plans, completions, expiries and resets: in every sub-pool the map and the list of IN and of OUT hold the same arbitratees, each key once, and no key is in both |
| Arbitration.NotReadmittedWithinLease | Relocation/ASTArb.cpp:532-583 | over every run, a key whose migration recorded in cycle c completed is in IN again only after cycle c plus its lease, unless the sub-pool disappears or everything is reset |
| Arbitration.LeaseHonouredIff | Relocation/ASTArb.cpp:1033-1035 | the lease of an arbitratee admitted in cycle t is honoured exactly when t fits the 32-bit parameter it passes through |
| Arbitration.CompletionDoesNotStartLease | Relocation/ASTArb.hpp:108-113 | completing does not renew the recorded cycle: directly afterwards the key is admitted exactly when the lease counted from admission is over |
| Arbitration.NewCycleKeepsUnexpired | Relocation/ASTArb.cpp:1344-1381 | a new cycle keeps exactly the unexpired entries of OUT and all of IN |
| Arbitration.NewCycleKeepsOrder | Relocation/ASTArb.cpp:1299-1381 | each list keeps its order, and an index is dropped exactly when nothing is left in it and its sub-pool does not exist |
| Arbitrators.DiscardAndTidy | Relocation/ASTArb.cpp:1339-1381 | walking over all indexes with their cursors while removing from list and map, and erasing indexes from the table under the walk, leaves exactly the unexpired arbitratees |
| Arbitrators.Arbitrator.CheckConflict | Relocation/ASTArb.cpp:472-530 | answers whether the key is in IN, and lets the entry take over a plan of higher or the same direction, in map and list |
| Arbitrators.Arbitrator.CheckFrequentUpDown | Relocation/ASTArb.cpp:532-583 | answers whether an unexpired entry of OUT stands in the way, and drops an expired one |
| Arbitrators.Arbitrator.ReceivePlan | Relocation/ASTArb.cpp:1008-1116 | succeeds exactly when the key is not in IN, not blocked by an unexpired entry of OUT, and placed; then it is newly in IN and not in OUT; an entry admitted or taken over has the key of the slot, the target, direction and epoch of the plan and the cycle in 32 bits; the invariants hold, and the new tables are those of the step on values |
| Arbitrators.Arbitrator.Complete | Relocation/ASTArb.cpp:1135-1212 | the key is no longer in IN; after a successful migration its record is in OUT as it was in IN; no other slot of either changes, and the invariants hold |
| Arbitrators.Arbitrator.Expire | Relocation/ASTArb.cpp:1214-1243 | the key is no longer in IN, no other slot changes, OUT stays as it is, and the invariants hold |
| Arbitrators.Arbitrator.Reset | Relocation/ASTArb.cpp:1279-1405 | a full reset forgets everything; a new cycle walks the lists of OUT and keeps exactly the unexpired, and every entry of IN; the invariants hold |
| AstStatus.StepKeeps | Relocation/ASTHUB.cpp:207-342 | every request, echo and launch, in any order, keeps the five invariants of the protocol |
| AstStatus.RunKeeps | Relocation/ASTHUB.cpp:207-342 | over every interleaving, an enabled sub-pool has an enabled module, messages never overlap and alternate, no request to enable is lost, and up to one guarded step a disabled module has only disabled or enabling sub-pools |
| AstStatus.DisabledStaysQuietIff | Relocation/ASTHUB.cpp:274-318 | exactly which step leaves a disabled module with a sub-pool in another state: a disable request for an unknown sub-pool, while stopping, with a stale "enabled" |
| AstStatus.StaleStepBreaksQuiet | Relocation/ASTHUB.cpp:308-313 | a run from the initial state that takes that step and ends with an unknown sub-pool marked as disabling under a disabled module |
| AstStatus.FailedEchoIsFinal | Relocation/ASTHUB.cpp:2073-2078 | after a failed echo no request and no echo brings the module out of its transition |
| AstStatus.FailedEchoReached | Relocation/ASTHUB.cpp:2073-2078 | a run of three steps from the initial state that ends in this way |
| AstStatus.DisableSilencesIff | Relocation/ASTHUB.cpp:277-342 | a handled request to disable leaves the sub-pool inactive with nothing on its way to change that exactly when no request to enable it is queued |
| AstStatus.SilentStays | Relocation/ASTHUB.cpp:207-342 | no step makes such a sub-pool active again but the launch of a new request to enable it |
| AstStatus.DisableIsFinalIff | Relocation/ASTHUB.cpp:207-342 | over every run in which nobody asks again, a handled request to disable is final, if and only if no request to enable the sub-pool was queued |
| AstStatus.RelaunchUndoesDisable | Relocation/ASTHUB.cpp:2125-2134 | the echo itself queues such a request for a sub-pool that waits, so a disable handled between the echo and that request is not final |
| AstStatus.OnlyOneIff | Relocation/ASTHUB.cpp:1531-1567 | the count decides exactly that this sub-pool is enabling or enabled and no other is |
| AstStatus.DisableMeans | Relocation/ASTHUB.cpp:277-342 | a request to disable sends the module its message if and only if the sub-pool is enabled and no other is active; otherwise it only changes the status of the sub-pool, to disabled, or to disabling while the HUB stops |
| AstStatus.EnableEchoMeans | Relocation/ASTHUB.cpp:2041-2079 | a successful echo enables exactly the sub-pools that were enabling; a failed one changes no status |
| AstStatus.DisableEchoMeans | Relocation/ASTHUB.cpp:2080-2154 | a successful echo disables exactly the sub-pools that were disabling and leaves one more request for each that was enabling; a failed one changes no status |
| AstStatus.NeededIff | Relocation/ASTHUB.cpp:207-342 | the module begins to run for nobody exactly when it is enabled after those that asked for it were all disabled |
| AstStatus.RunNeededIff | Relocation/ASTHUB.cpp:207-342 | over every run the module is enabled only while some sub-pool needs it, if and only if that never happens |
| AstStatus.UnneededReached | Relocation/ASTHUB.cpp:321-328 | it does happen: a run of five steps from the start, after which a request to disable no longer stops the module |
| AstSwitch.HUB.HandleEnableEvent | Relocation/ASTHUB.cpp:212-249 | afterwards the sub-pool needs the module, enabled at once exactly when the module is; a message is sent exactly when the module was off; no other sub-pool changes, and the invariants hold |
| AstSwitch.HUB.GetSubPoolASTStatus | Relocation/ASTHUB.cpp:1660-1689 | the status read; a sub-pool without one leaves the previous reading |
| AstSwitch.HUB.ShouldDisable | Relocation/ASTHUB.cpp:1531-1567 | the counting loop answers whether this sub-pool is enabling or enabled and every other one is neither |
| AstSwitch.HUB.HandleDisableEvent | Relocation/ASTHUB.cpp:277-342 | the module is told to stop exactly when this sub-pool is enabled and no other is active; afterwards the sub-pool does not need the module, which is final exactly when no request to enable it is queued; the invariants hold |
| AstSwitch.HUB.HandleEnableASTEcho | Relocation/ASTHUB.cpp:2041-2079 | a successful echo enables exactly the enabling sub-pools and leaves the module on and a stopping HUB serving again; a failed one leaves everything in transition; the invariants hold |
| AstSwitch.HUB.RelaunchAll | Relocation/ASTHUB.cpp:2125-2134 | one enable request for each sub-pool that waits |
| AstSwitch.HUB.HandleDisableASTEcho | Relocation/ASTHUB.cpp:2080-2154 | a successful echo disables exactly the disabling sub-pools, leaves the module off and launches exactly one more request for each that waits; a failed one leaves everything in transition; the invariants hold |
| Interpolation.LinearOnLineIff | Relocation/ASTDiskProfile.cpp:170-205 | strictly between two points the value is that of the line, rounded towards the lower point, exactly when the product fits 32 bits |
| Interpolation.LinearBetween | Relocation/ASTDiskProfile.cpp:170-205 | it lies between the values of the two points even when the product wraps |
| Interpolation.LinearMonotone | Relocation/ASTDiskProfile.cpp:170-205 | on a segment it follows the direction of the segment as far as the products fit |
| Interpolation.SegmentMonotoneIff | Relocation/ASTDiskProfile.cpp:170-205 | if height and width together fit 32 bits, it follows the direction of the whole segment if and only if height times (width - 1) does |
| Interpolation.SteepFlatByChance | Relocation/ASTDiskProfile.cpp:170-205 | a segment of height 2^32 - 1 and width 641 is flat although its products wrap |
| Interpolation.LinearCanFall | Relocation/ASTDiskProfile.cpp:170-205 | where they do not fit it can fall on a rising segment |
| Interpolation.LinearSymmetric | Relocation/ASTDiskProfile.cpp:170-205 | the order of the two points does not matter |
| Interpolation.AtBetween | Relocation/ASTDiskProfile.cpp:332-444 | a value read from a table stays in the range of the table |
| Interpolation.AtMonotone | Relocation/ASTDiskProfile.cpp:332-444 | over all segments and beyond both ends it follows the direction of a monotone table |
| Interpolation.AtMonotoneIff | Relocation/ASTDiskProfile.cpp:332-444 | for a monotone table of descending sizes, each segment fitting 32 bits in height and width together, it does so over all sizes if and only if no product strictly between two entries leaves 32 bits |
| Interpolation.AtEntry | Relocation/ASTDiskProfile.cpp:332-444 | a table of strictly descending sizes is met exactly at each entry |
| Interpolation.AtNearLine | Relocation/ASTDiskProfile.cpp:332-444 | between two neighbouring entries the value is within one of the line through both, below it on a rising segment and above it on a falling one |
| Interpolation.RatioBetween | Relocation/ASTDiskProfile.cpp:748-801 | for ratios up to 100 and tables for 0 and 100 no assertion fails and the value stays in the range of all tables |
| Interpolation.RatioOfTable | Relocation/ASTDiskProfile.cpp:748-812 | at the read ratio of a table the value is read from that table, and from ratio 95 on from the one of ratio 100 |
| Interpolation.RatioNearLine | Relocation/ASTDiskProfile.cpp:776-801 | strictly between two neighbouring ratios, while the products fit, the value is within one of the line from the value of the lower table at its ratio to that of the upper table at its own, on the side of the rounding |
| Interpolation.EndsMonotone | Relocation/ASTDiskProfile.cpp:170-205 | raising the values at both ratios never lowers the value between them, although rising and falling segments round in opposite directions |
| Interpolation.RatioMonotone | Relocation/ASTDiskProfile.cpp:748-801 | at every read ratio, interpolated ones included, the value is monotone in the IO size in the direction of the tables |
| Interpolation.AssertionFailsIff | Relocation/ASTDiskProfile.cpp:769-770 | the assertion behind the search fails exactly for ratios above all tables that match neither end |
| Interpolation.WeightedAtMost | Relocation/ASTDiskProfile.cpp:207-234 | with weights that sum to 100 the mean never exceeds the greater value, given a denominator that fits 32 bits |
| Interpolation.WeightedAtMostIff | Relocation/ASTDiskProfile.cpp:207-234 | whatever wraps, as long as the final product fits: it does not exceed the greater value if and only if the product as a word stays below the next hundred of it times the denominator as a word |
| Interpolation.WeightedOfNoDenominator | Relocation/ASTDiskProfile.cpp:232-233 | a denominator that wraps to zero gives zero |
| Interpolation.WeightedWrapsByChance | Relocation/ASTDiskProfile.cpp:228-231 | where the final product wraps too, the value can stay below the greater one by chance |
| Interpolation.WeightedNearMeanIff | Relocation/ASTDiskProfile.cpp:228-231 | between two positive values it is less than 100 below the exact weighted harmonic mean, exactly when the product fits 32 bits |
| Interpolation.WeightedOfEqual | Relocation/ASTDiskProfile.cpp:228-231 | two equal values come back cut to a multiple of 100 exactly when their square fits 32 bits |
| Interpolation.WeightedSymmetric | Relocation/ASTDiskProfile.cpp:207-234 | the mean does not depend on which part is named first |
| Interpolation.WeightedMonotone | Relocation/ASTDiskProfile.cpp:207-234 | among positive values the mean never falls when one of them is raised, given words that fit |
| Interpolation.WeightedMonotoneIff | Relocation/ASTDiskProfile.cpp:207-234 | up to a greatest first value it never falls if and only if the product with the other one fits 32 bits, given a denominator with room for the other value once more |
| Interpolation.MixMonotone | Relocation/ASTDiskProfile.cpp:207-234 | raising both parts never lowers the mix as long as no part rises from zero |
| Interpolation.ZeroPartDrops | Relocation/ASTDiskProfile.cpp:207-226 | raising a part from zero to one lowers the mix of 50 : 50 with 1000 from 1000 to zero |
| Interpolation.ZeroPartKeptIff | Relocation/ASTDiskProfile.cpp:207-234 | raising a part from zero does not lower the mix exactly when the product of both reaches the denominator once for each hundred of the other part |
| Interpolation.ZeroPartKeptByWholeHundreds | Relocation/ASTDiskProfile.cpp:207-234 | for another part in whole hundreds that is the case exactly when the raised part reaches it |
| Interpolation.WeightedCanExceed | Relocation/ASTDiskProfile.cpp:228-231 | a denominator that does not fit can lift the result above both values |
| Interpolation.CalculateAtMost | Relocation/ASTDiskProfile.cpp:713-974 | the full calculation never fails and never exceeds the greatest value of the tables |
| Interpolation.PartsOf | Relocation/ASTDiskProfile.cpp:713-974 | all random IO has the value of the random tables at the random read ratio and size, all sequential IO that of the sequential tables, or else the random ones, at the sequential read ratio and size; a part that is zero leaves the other, and the first error is the answer |
| Interpolation.MixNearMean | Relocation/ASTDiskProfile.cpp:967-974 | a mix of two positive parts is below their weighted harmonic mean by less than 100, the random part having the weight of the random IO |
| Interpolation.CalculateMonotone | Relocation/ASTDiskProfile.cpp:713-974 | for tables of positive values that follow one direction the full calculation follows it in both IO sizes |
| DiskProfile.SubDiskProfile.CalculateDiskPerf | Relocation/ASTDiskProfile.cpp:332-444 | the search loop with its stored cursor always ends at an entry and computes both table values |
| DiskProfile.ProfileEntry | Relocation/ASTDiskProfile.cpp:332-444 | at the read ratio of a table and the size of one of its entries, bandwidth and IOPS are those of the entry |
| DiskProfile.DiskPerfProfile.PerfOfRatio | Relocation/ASTDiskProfile.cpp:343-362 | the table of exactly this ratio, or none |
| DiskProfile.DiskPerfProfile.PerfOfKind | Relocation/ASTDiskProfile.cpp:748-801 | the bracketing loop computes the value at a ratio for bandwidth and IOPS alike, errors included |
| DiskProfile.DiskPerfProfile.CalculateDiskPerf | Relocation/ASTDiskProfile.cpp:713-974 | random and sequential parts, with the random tables standing in for missing sequential ones |
| IoAccounting.EmaExactIff | Relocation/ASTIO.hpp:19-37 | an average is the weighted mean, rounded down, exactly when the weighted sum fits 32 bits |
| IoAccounting.EmaBetween | Relocation/ASTIO.hpp:19-37 | with weights that sum to the divisor it stays between previous average and sample |
| IoAccounting.EmaBetweenIff | Relocation/ASTIO.hpp:19-37 | all averages of values up to a greatest one stay in the range of their values if and only if that one times the divisor fits 32 bits |
| IoAccounting.EmaRunBetween | Relocation/ASTIO.cpp:77-140 | over every run of samples the average stays between the least and the greatest sample |
| IoAccounting.OBJIO.CalculateEMAIO | Relocation/ASTIO.cpp:77-140 | each of the ten counters is averaged with the same raw counter, and nothing else changes |
| IoAccounting.AddExactIff | Relocation/ASTIO.cpp:193-238 | adding an object keeps all eight counters of a disk exact exactly when the new sums fit 32 bits |
| IoAccounting.RemoveExact | Relocation/ASTIO.cpp:239-325 | removing an object that was counted gives back exactly the counters without it |
| IoAccounting.ObjectCounts | Relocation/ASTIO.cpp:193-238 | what one more object adds to which counter: reads, writes, random, sequential and each of the four kinds |
| IoAccounting.RemovedFloors | Relocation/ASTIO.cpp:239-325 | removing what was not counted takes from each counter what there is and never makes it negative |
| IoAccounting.RunExact | Relocation/ASTIO.cpp:193-459 | over every run whose sums fit, each counter is the sum over the objects added and not removed |
| IoAccounting.RunExactIff | Relocation/ASTIO.cpp:193-459 | over every run the counters are these sums all the time if and only if the sums fit 32 bits all the time |
| IoAccounting.DiskIO.UpdateStatIOs | Relocation/ASTIO.cpp:193-325 | counters that are the sums over some objects are afterwards the sums with this object exactly when those fit 32 bits, or the sums without it; only the counters of the given kind change |
| IoAccounting.DiskIO.UpdateStatBW | Relocation/ASTIO.cpp:327-459 | the same for the bandwidth |
| IoAccounting.AccountedExactIff | Relocation/ASTHUB.cpp:3396-3439 | over every run of IOs since a reset, 1000 times the milliseconds counted plus the remainder is never more than the microseconds fed, and equal to them exactly when at every IO both words held their parts |
| IoAccounting.ShortTimesFit | Relocation/ASTHUB.cpp:3396-3439 | they do if each response time is at most 2^32 - 1000 microseconds and all together stay below 2^32 milliseconds |
| IoAccounting.OBJView.Update | Relocation/ASTHUB.cpp:3396-3439 | the object stays valid with the IO added to its history; what is accounted for equals what was fed since the reset exactly when every IO fitted; IOs and bandwidth go to the counters of the access model only |
| IoAccounting.OBJView.Reset | Relocation/ASTHUB.cpp:3441-3456 | nothing is accounted for any more and the history starts anew |

## Left out

Modelling decisions:

- Comparators of heat: one abstract heat key serves partition and sort; several `...Accum...` comparators and registrations of the program use another key than their name says (`Relocation/ASTHeatDistribution.cpp:1382-1483`, `1669-1679`).
- The standard sort: some ordered permutation; for ranges, whose comparator also answers true on equal ones, all such permutations are equal.
- The random bucket for a capacity of zero: any draw, with no claim about order.
- Tables of objects, disks and profiles, and the two containers of one arbitratee index, hold values, so an update in place of one entry is a replacement at its key or position; aliasing between tables is not captured.
- Reading through an iterator that was invalidated or never set: a cursor starts at the end, and the arbitratee index forbids reading under a removed one.
- The disks of all sub-pools are one table, each in the sub-pool of its key; the key of a sub-pool is its id.
- The relaunch loop (`Relocation/ASTHUB.cpp:2128-2133`) never advances its iterator; it is modelled as a loop over the set.
- Requests of `AstStatus` are handled in any order, which includes the order of the queue; waiting synchronously for an echo is the interleaving in which the echo comes next. In `HubEvents` a synchronous request carries its echo with it.
- Which sub-pools are involved in a collection is fixed during it, although it may depend on the clock.
- Counters of pins, delay-deleted disks and objects are unbounded; they count objects in memory.
- The indexes of the arbitrator are walked in any order of their sub-pools; the program walks them in key order.
- The number of objects handed to the calculation of a heat range fits its 32-bit parameter.

Weaker than might be wished:

- HeatRanges.BoundariesInOrder: is one-directional, because for spreads of 2^30 and more, where the boundaries are never read, a wrapped sum may still leave them in order by chance (`WideBoundariesByChance`); `NarrowBoundariesInOrderIff` is exact for all others.
- IoAccounting.ShortTimesFit: is one-directional; `AccountedExactIff` has the exact condition, on the counters met on the way.
- Interpolation.SegmentMonotoneIff: says nothing about segments whose height and width do not fit 32 bits together, where wrapped quotients may be in order by chance (`SteepFlatByChance`).
- Interpolation.WeightedAtMostIff: says nothing about quotients that leave 32 bits when taken times 100, where the value may be small by chance (`WeightedWrapsByChance`).
- HubEvents.RunKeepsOrder: takes the queues as sequences; blocking and wake-up of the thread are not part of this model.

Not modelled, because it would add easy members, is not shown, or is plumbing:

- Tier views and tier combinations of a sub-pool, and the extra entries of initial placement (swap requests, relocation types).
- Batch mode of enabling and disabling, and the exit of the HUB thread while stopping.
- Reservation totals of the arbitrator; whether a reservation and a submission succeed is a parameter.
- Re-choosing a migration target, and the lease constants of other directions, which the program never uses.
- Response-time sums of a disk, whose subtraction mixes up two counters (`Relocation/ASTIO.cpp:494`), and the minima and maxima per disk.
- The cache of ultimate disk performance.
- Profile parsing, logging, messages between threads, locks, running out of memory; time is an input and handlers are atomic.
- Generator and executor replay: the queue's bulk insertion is not part of this model.
- Getters, setters, rule comparison and validation, and destruction.
