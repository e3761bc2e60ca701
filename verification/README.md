# Virtflex memory ballooning, modelled in Dafny

Virtflex extends Xen's memory ballooning to NUMA guests. The guest side
(`linux-kernel/drivers/xen/balloon.c`, `linux-kernel/drivers/xen/xen-balloon.c`)
keeps a global `balloon_stats` record plus one record and one ballooned-page
list per node. It reads memory targets from xenstore and sysfs, and moves
2 MiB extents between the guest and the hypervisor one node at a time. The
hypervisor side (`xen-hypervisor/xen/common/memory.c`) serves those requests
in `do_memory_op`: it decodes the command word, checks the reservation
arguments, runs the extent loops with preemption, and builds a continuation
that resumes them.

The model is written in Dafny 4.11 as pure functions over immutable data, with
a few methods where the source loops:

| file | module | models |
|---|---|---|
| `common.dfy` | `Common` | 64/32-bit wrap-around, the `long` reinterpretation, powers of two, errno values, `Option`/`Result` |
| `balloon_state.dfy` | `BalloonState` | `balloon_stats`, the per-node stats and page lists, and the invariant `Consistent` that ties counters to lists |
| `pool.dfy` | `Pool` | `__balloon_append`, `balloon_retrieve`, `balloon_next_page` |
| `backoff.dfy` | `Backoff` | `update_schedule` and the retry/delay back-off |
| `targets.dfy` | `Targets` | `balloon_init`, `balloon_init_numa`, `balloon_set_new_target` |
| `reservation.dfy` | `Reservation` | guest `increase_reservation`, `decrease_reservation`, both `reserve_additional_memory` variants |
| `power.dfy` | `Power` | `largest_power_remain` |
| `process.dfy` | `Process` | one node's credit loop inside `balloon_process` and the sweep over all nodes |
| `topology.dfy` | `Topology` | the `topo_change` / `topo_version` bookkeeping of `balloon_process` |
| `worker.dfy` | `Worker` | `balloon_process` as a whole |
| `unpopulated.dfy` | `Unpopulated` | `add_ballooned_pages`, `alloc_xenballooned_pages`, `free_xenballooned_pages` |
| `target_watch.dfy` | `TargetWatch` | `watch_target`, `watch_node_target`, the `target_kb` / `target` sysfs attributes |
| `memflags.dfy` | `MemFlags` | the guest `XENMEMF_*` and hypervisor `MEMF_*` flag encodings |
| `max_order_param.dfy` | `MaxOrderParam` | `parse_max_order` (the `memop-max-order` boot option) |
| `memop_args.dfy` | `MemopArgs` | `max_order`, `propagate_node`, `construct_memop_from_reservation` |
| `memop.dfy` | `Memop` | the `do_memory_op` command word, hypervisor `increase_reservation`, `populate_physmap`, `decrease_reservation`, and the reservation case with its continuation |
| `exchange.dfy` | `Exchange` | the argument checks and chunk orders of `memory_exchange` |
| `physmap.dfy` | `Physmap` | `xenmem_add_to_physmap` (frame range), `xenmem_add_to_physmap_batch` and their `do_memory_op` cases |

**The outside world.** Everything outside these files enters the model as a
parameter:

- the page allocator;
- the hypercall results;
- xenstore reads and writes;
- `capable()`;
- `hypercall_preempt_check()`;
- `xenmem_add_to_physmap_one`;
- guest-handle checks;
- `p2m_pod_decrease_reservation` / `guest_remove_page`.

A node's ballooning loop consumes a finite script of host answers. Once the
script is exhausted, every request fails. The model is therefore total
without assuming an honest host. Separate lemmas show what an honest host
guarantees.

**Constants.** The source is configured for x86-64 with 2 MiB ballooning
(`HPAGE_SHIFT` 21, `PAGE_SIZE_ADJUST` 0). This gives:

- extent order 9;
- a 512-entry `frame_list`;
- a shift of 11 between KiB and pages, and of 21 between bytes and pages;
- `PAGES_PER_SECTION` 32768.

`RETRY_UNLIMITED` is 0. The Xen public headers are not part of this model. Their
values are taken from upstream Xen:

- `MEMOP_EXTENT_SHIFT` 6;
- `XENMEMF_*` node field in bits 8..15, with bits 16, 17 and 18;
- `MEMF_node` in bits 16..23 and `MEMF_bits` in bits 24..31;
- `MEMF_exact_node` bit 4;
- `MAX_NUMNODES` 64 and `MAX_ORDER` 20;
- order defaults domU 9, ctldom 18, hwdom 12, ptdom 12.

**Integers.** Counters are unbounded integers. Wrap-around is written out
wherever it changes behaviour:

- the schedule-delay doubling and the retry counter;
- `largest_power_remain`;
- the KiB-to-byte multiplication;
- the page/KiB/byte shifts;
- `target_diff` as a signed `long`;
- `domu_max_order + 3` as an `unsigned int`.

**Code over evident intent.** Where the code does something other than its
comments and the per-node `balloon_stats_numa` records suggest, the model
follows the code:

- Pages ballooned out with `node == -1` are parked on node 0 with order 0.
- The per-node `total_pages` is the global page count.
- The non-hotplug `reserve_additional_memory` resets the *global* target, not
  the node's.
- `update_schedule` only touches the global back-off counters.
- With hotplug for unpopulated memory, `add_ballooned_pages` waits on the list `ballooned_pages`. With NUMA ballooning no append ever fills that list, so the wait never ends.

## Model

| member | source | states |
|---|---|---|
| BalloonState.CountLowHighSplit | linux-kernel/drivers/xen/balloon.c:198-216 | every ballooned page counts as exactly one of lowmem or highmem |
| BalloonState.CountConcat | linux-kernel/drivers/xen/balloon.c:198-216 | the lowmem and highmem counts of a joined list are the sums of the parts |
| BalloonState.SumUpdate | linux-kernel/drivers/xen/balloon.c:199-215 | replacing one node's stats changes the node sums by exactly that node's difference |
| BalloonState.InflatedIffNonEmpty | linux-kernel/drivers/xen/balloon.c:530-537 | in a consistent balloon, `balloon_is_inflated(node)` holds exactly when the node's list is non-empty |
| Pool.Append | linux-kernel/drivers/xen/balloon.c:195-218 | a highmem page goes to the tail and a lowmem page to the head of the node's list; exactly the matching node and global counter rises by one; nothing else changes |
| Pool.Retrieve | linux-kernel/drivers/xen/balloon.c:226-264 | nothing is taken from an empty list, or when lowmem is required and the head is highmem; otherwise the head is removed and the matching node and global counter falls by one; other nodes are untouched |
| Pool.NextPage | linux-kernel/drivers/xen/balloon.c:266-280 | the successor of the page at a position, or none at the end of the list |
| Pool.RetrieveAfterAppendLow | linux-kernel/drivers/xen/balloon.c:195-264 | appending a lowmem page and then retrieving gives back that page and the original balloon |
| Pool.RetrieveAfterAppendHigh | linux-kernel/drivers/xen/balloon.c:195-264 | an appended highmem page is not retrieved before older pages, and never when lowmem is required |
| Pool.AppendConsistent | linux-kernel/drivers/xen/balloon.c:195-218 | appending preserves agreement between the lists and the node and global counters |
| Pool.RetrieveConsistent | linux-kernel/drivers/xen/balloon.c:226-264 | retrieving preserves agreement between the lists and the counters |
| Pool.RetrieveN | linux-kernel/drivers/xen/balloon.c:602-604 | k retrievals succeed exactly when the list holds k pages; they drop the first k pages and lower the counters by that prefix's lowmem and highmem counts |
| Pool.RetrieveNConsistent | linux-kernel/drivers/xen/balloon.c:602-604 | k retrievals preserve the list/counter agreement |
| Pool.AppendAllLow | linux-kernel/drivers/xen/balloon.c:782-787 | appending lowmem pages one by one puts them at the head in reverse order and raises the lowmem counters by their number |
| Pool.AppendAllConsistent | linux-kernel/drivers/xen/balloon.c:782-787 | a run of appends preserves the list/counter agreement |
| Backoff.Reset | linux-kernel/drivers/xen/balloon.c:290-293 | the delay and the retry count return to 1, and no other statistic changes |
| Backoff.UpdateSchedule | linux-kernel/drivers/xen/balloon.c:282-311 | WAIT and ECANCELED pass through; DONE resets the back-off; EAGAIN cancels with a reset exactly when a finite cap is below the bumped (64-bit) retry count, and otherwise keeps the bumped count and sets the delay to min(2·delay as a 64-bit value, maximum), nothing else changing |
| Backoff.UpdateSchedulePreservesInv | linux-kernel/drivers/xen/balloon.c:282-311 | the back-off invariant (delay and retry count within their bounds) survives every update |
| Backoff.UnlimitedNeverCancels | linux-kernel/drivers/xen/balloon.c:298-303 | with `RETRY_UNLIMITED`, an EAGAIN is never turned into ECANCELED |
| Backoff.FailuresDoubleThenCancel | linux-kernel/drivers/xen/balloon.c:296-310 | after k consecutive failures from a reset state, the delay is min(2^k, max) and the retry count is k+1; exactly the max-retry-th failure cancels and resets |
| Targets.FreshStats | linux-kernel/drivers/xen/balloon.c:1294-1303 | the initial stats: current = target = the given page count, empty balloon, delay 1 / retry 1, at most 3 retries, at most 32 s delay |
| Targets.NodeShare | linux-kernel/drivers/xen/balloon.c:1219-1223 | a node's initial page count is the ceiling of the physical pages over nodes × pages per huge page |
| Targets.BalloonInit | linux-kernel/drivers/xen/balloon.c:1192-1235 | the initial balloon is consistent, and every node starts with zero credit, an empty list and the ceiling share of pages |
| Targets.SetNewTarget | linux-kernel/drivers/xen/balloon.c:997-1026 | a node past the end is ignored and not kicked; a negative node sets the global target and gives every node target/num_nodes; a valid node sets only its own target |
| Targets.SpreadTargetLosesRemainder | linux-kernel/drivers/xen/balloon.c:1008-1018 | after a global target, the node targets add up to the target minus less than one page per node |
| Targets.SetNewTargetConsistent | linux-kernel/drivers/xen/balloon.c:997-1026 | setting a target preserves the list/counter agreement |
| Targets.SetNewTargetAsWritten | linux-kernel/drivers/xen/balloon.c:1004-1007 | as compiled, the signed node is compared with an unsigned count, so every negative node is ignored |
| Targets.AllNodesTargetIgnored | linux-kernel/drivers/xen/balloon.c:1004-1010 | a global target request leaves the target unchanged as written, and sets it in the corrected version |
| Reservation.IncreaseFlags | linux-kernel/drivers/xen/balloon.c:551-553 | the request flags name the node, ask for an exact vnode match and set no address width |
| Reservation.BuildFrameList | linux-kernel/drivers/xen/balloon.c:557-586 | the frame list holds the frames of the first min(nr_pages, 512, list length) pages of the node's list, in list order |
| Reservation.MoveCurrent | linux-kernel/drivers/xen/balloon.c:639-642 | the global page count and the node's page count move by the same amount; nothing else changes |
| Reservation.IncreaseReservation | linux-kernel/drivers/xen/balloon.c:539-645 | a non-positive hypercall result gives EAGAIN with nothing changed; a result larger than the list is the BUG; otherwise the first rc pages leave the list, the counters drop by their kinds, and the current counts rise by rc |
| Reservation.IncreaseReservationConsistent | linux-kernel/drivers/xen/balloon.c:539-645 | a successful increase preserves the list/counter agreement and lowers the node's credit by rc |
| Reservation.HonestPopulateNeverBugs | linux-kernel/drivers/xen/balloon.c:602-604 | a hypervisor that populates no more frames than were sent never triggers the BUG |
| Reservation.Accepted | linux-kernel/drivers/xen/balloon.c:679-727 | the allocation loop keeps the longest prefix of successful allocations on the right node, up to the wanted count, and stops at the first failure |
| Reservation.ParkKeptIsLoop | linux-kernel/drivers/xen/balloon.c:743-787 | walking the kept pages and appending each to the node's list has the closed-form effect: the pages in allocation order on the head, the lowmem counters raised by their number |
| Reservation.DecreaseReservation | linux-kernel/drivers/xen/balloon.c:657-805 | a hypercall result other than the number of kept pages is the BUG; the state is EAGAIN exactly when fewer pages than wanted were kept |
| Reservation.DecreaseReservationEffect | linux-kernel/drivers/xen/balloon.c:743-803 | for a named node, the kept pages join the head of its list, the node's and the global lowmem counters rise by k, both current counts fall by k, and other nodes are untouched |
| Reservation.DecreaseUnnamedEffect | linux-kernel/drivers/xen/balloon.c:679-800 | with node -1, the kept pages are parked on node 0, the lowmem counters rise by k, only the global current count falls, and other nodes are untouched |
| Reservation.DecreaseReservationConsistent | linux-kernel/drivers/xen/balloon.c:657-805 | a successful decrease preserves the list/counter agreement and raises a named node's credit by the released count |
| Reservation.DecreaseReservationAsWritten | linux-kernel/drivers/xen/balloon.c:800-803 | as written, node -1 indexes the per-node stats array at -1 (modelled as no result); other nodes behave like the corrected version |
| Reservation.DecreaseForNoNodeWritesOutOfBounds | linux-kernel/drivers/xen/balloon.c:1051 | the call made by `add_ballooned_pages` reaches the out-of-bounds write |
| Reservation.ReserveWithoutHotplug | linux-kernel/drivers/xen/balloon.c:513-517 | without hotplug, the global target snaps to the current page count and the result is ECANCELED; nothing else changes |
| Reservation.SectionRoundUp | linux-kernel/drivers/xen/balloon.c:427 | the credit rounded up to a whole memory section, by less than one section |
| Reservation.ReserveWithHotplug | linux-kernel/drivers/xen/balloon.c:410-485 | no credit means WAIT; a failed hot-add means ECANCELED; a successful one adds whole sections to total_pages, so the remaining credit is within one section below zero |
| Power.LargestPowerRemain | linux-kernel/drivers/xen/balloon.c:649-655 | with a guard that cannot wrap, for every 64-bit op ≥ 1 the largest power of two not above op and the remainder; for op = 0, the remainder wraps to 2^64 − 1 |
| Power.PowerAsWritten | linux-kernel/drivers/xen/balloon.c:650-652 | the doubling variable as an `unsigned long` |
| Power.PowerAsWrittenValue | linux-kernel/drivers/xen/balloon.c:650-652 | after k doublings the variable is 2^k below 64 doublings and 0 from then on |
| Power.AsWrittenNeverTerminates | linux-kernel/drivers/xen/balloon.c:652 | for op ≥ 2^63, the loop guard `2*power <= op` holds at every iteration |
| Power.GuardsAgreeBelowTopBit | linux-kernel/drivers/xen/balloon.c:652 | below 2^63, the written guard is the intended `power <= op/2` |
| Process.Act | linux-kernel/drivers/xen/balloon.c:913-925 | zero credit does nothing; otherwise the shape of the balloon is kept |
| Process.SubIteration | linux-kernel/drivers/xen/balloon.c:910-932 | one locked pass: the credit is read first, a BUG halts, the node lists and stats are those of the chosen action, the state and the global stats are `update_schedule` of the action's result, and zero credit resets the back-off and ends |
| Process.PassFrame | linux-kernel/drivers/xen/balloon.c:910-932 | a pass on one node preserves the list/counter agreement and leaves every other node untouched |
| Process.PassNotDoneLeavesCredit | linux-kernel/drivers/xen/balloon.c:932 | a pass that does not end in DONE leaves non-zero credit |
| Process.NoResponseStops | linux-kernel/drivers/xen/balloon.c:932 | a failing host ends the loop |
| Process.HonestPassProgress | linux-kernel/drivers/xen/balloon.c:910-932 | against an honest host, a pass ends in DONE and strictly shrinks the credit's magnitude without overshooting zero |
| Process.SweepNode | linux-kernel/drivers/xen/balloon.c:883-934 | the do-while loop ends after at most one pass per scripted answer plus one; it ends in DONE exactly when the credit is zero, and then with the back-off reset; WAIT only with hotplug; other nodes untouched; the recorded action is ±1 whenever there was credit |
| Process.Again | linux-kernel/drivers/xen/balloon.c:934 | a node needs another run exactly when it ended in EAGAIN |
| Process.NeedsRescan | linux-kernel/drivers/xen/balloon.c:938-949 | a delayed re-run is queued exactly when some node needs one |
| Process.Sweep | linux-kernel/drivers/xen/balloon.c:880-936 | each node is swept in turn; one result and one action per node; a node's action is 0 exactly when its credit was zero before the sweep; consistency is kept and DONE means zero credit for every node |
| Topology.StartAsWritten | linux-kernel/drivers/xen/balloon.c:862-878 | the change read from xenstore (0 when unreadable); the version rises when the possibly stale variable equals the removal code |
| Topology.StartCorrected | linux-kernel/drivers/xen/balloon.c:862-878 | the version rises exactly when a removal was actually read |
| Topology.StaleRemovalCounted | linux-kernel/drivers/xen/balloon.c:862-878 | a failed read with a stale 2 bumps the version as written but not in the corrected version |
| Topology.StartsAgreeOnRead | linux-kernel/drivers/xen/balloon.c:862-878 | whenever the read succeeds, both versions agree |
| Topology.FinishAsWritten | linux-kernel/drivers/xen/balloon.c:955-991 | as written, every pending change makes the loop `i <= num_nodes` read one entry past the per-node array (no result) |
| Topology.FinishInBounds | linux-kernel/drivers/xen/balloon.c:955-991 | the finish step with the loop bounded: the key is cleared exactly when a pending change was read and the write succeeded; the version then rises unless the change was −1 |
| Topology.FinishCorrected | linux-kernel/drivers/xen/balloon.c:955-991 | as above, but a removal, already counted at the start, is not counted again |
| Topology.FinishReadsPastEnd | linux-kernel/drivers/xen/balloon.c:960 | any pending change reaches the out-of-bounds read |
| Topology.RemovalCountedTwice | linux-kernel/drivers/xen/balloon.c:874-989 | as written, a removal pass bumps the version twice; corrected, once |
| Topology.CorrectedCountsOnce | linux-kernel/drivers/xen/balloon.c:862-991 | corrected, a run bumps the version at most once, and exactly when a removal was read or the key was cleared |
| Worker.BalloonProcess | linux-kernel/drivers/xen/balloon.c:828-994 | a whole run with the corrected topology bookkeeping: a delayed re-run with the current delay exactly when some node ended in EAGAIN, and then no clearing; the version rises by at most one, exactly when a removal was read or the key cleared; consistency is kept and DONE means zero credit |
| Worker.BalloonProcessAsWritten | linux-kernel/drivers/xen/balloon.c:828-994 | a whole run as written: the same sweep facts; a settled sweep with a positive key reads past `nodes_action`; a run that returns never clears the key, and its version is the start's, which counts a stale removal after a failed read |
| Unpopulated.AddBallooned | linux-kernel/drivers/xen/balloon.c:1029-1056 | with hotplug and a non-cancelled reserve, the call waits for good on the non-NUMA list, holding the reserve's balloon; otherwise an `nr`-page decrease on no node, halting on BUG and succeeding exactly when it ends in DONE |
| Unpopulated.HotplugAllocBlocks | linux-kernel/drivers/xen/balloon.c:1036-1047 | with hotplug, no lowmem page at node 0 and no credit, the allocation blocks with the pages it had, whatever the allocator would answer |
| Unpopulated.AddedPageRetrievable | linux-kernel/drivers/xen/balloon.c:1051-1053 | after a successful add, a lowmem page can be retrieved from node 0 |
| Unpopulated.AddBalloonedConsistent | linux-kernel/drivers/xen/balloon.c:1029-1056 | an add that returns or waits preserves the list/counter agreement and leaves target_unpopulated alone |
| Unpopulated.AllocLoop | linux-kernel/drivers/xen/balloon.c:1084-1107 | the loop only extends the pages already taken, all new ones lowmem, never past nr; it completes exactly when it has nr pages; target_unpopulated is untouched |
| Unpopulated.AllocLoopConsistent | linux-kernel/drivers/xen/balloon.c:1084-1107 | the loop preserves the list/counter agreement |
| Unpopulated.AllocFromPool | linux-kernel/drivers/xen/balloon.c:1084-1088 | when node 0's list already holds enough lowmem pages, the loop takes exactly the front of that list and completes |
| Unpopulated.AllocAsWritten | linux-kernel/drivers/xen/balloon.c:1068-1114 | as written, a failure leaves target_unpopulated raised by the pages never obtained |
| Unpopulated.Alloc | linux-kernel/drivers/xen/balloon.c:1068-1114 | completion hands out nr lowmem pages and raises target_unpopulated by nr; failure returns no pages and restores target_unpopulated |
| Unpopulated.FailedAllocLeaks | linux-kernel/drivers/xen/balloon.c:1082-1113 | one page requested, none available, the host refuses: target_unpopulated leaks by one as written and not in the corrected version |
| Unpopulated.FreeBallooned | linux-kernel/drivers/xen/balloon.c:1122-1144 | each present page is parked on node 0, target_unpopulated falls by nr, the worker is kicked exactly when node 0 has credit, and other nodes are untouched |
| Unpopulated.FreeConsistent | linux-kernel/drivers/xen/balloon.c:1122-1144 | freeing preserves the list/counter agreement |
| Unpopulated.AllocConsistent | linux-kernel/drivers/xen/balloon.c:1068-1114 | allocating preserves the list/counter agreement |
| Unpopulated.AllocThenFree | linux-kernel/drivers/xen/balloon.c:1068-1144 | allocating from a full enough list and freeing the result restores all statistics, and puts the same pages back on node 0 |
| TargetWatch.TargetDiff | linux-kernel/drivers/xen/xen-balloon.c:80-90 | PV or initial domains get 0; otherwise static-max minus the current target, as a 64-bit signed value congruent to the true difference |
| TargetWatch.WatchTarget | linux-kernel/drivers/xen/xen-balloon.c:60-94 | with the signed node comparison: an unreadable key changes nothing; otherwise the offset is fixed at the first event and the global target becomes the read value minus the offset, modulo 2^64 |
| TargetWatch.FirstWatchKeepsTarget | linux-kernel/drivers/xen/xen-balloon.c:78-92 | with the signed node comparison, the first event of an HVM guest, with the static maximum equal to the value written, leaves any 64-bit target unchanged |
| TargetWatch.PvWatchSetsTarget | linux-kernel/drivers/xen/xen-balloon.c:88-92 | with the signed node comparison, for PV or initial domains, the target becomes the xenstore value in pages |
| TargetWatch.LaterWatchesKeepOffset | linux-kernel/drivers/xen/xen-balloon.c:80-92 | with the signed node comparison, later events move the target by exactly the change in the xenstore value |
| TargetWatch.WalkedNodes | linux-kernel/drivers/xen/xen-balloon.c:112-118 | the node count is taken once, at the first event |
| TargetWatch.WatchNodeTarget | linux-kernel/drivers/xen/xen-balloon.c:100-154 | each readable node key sets that node's target in pages; other nodes, the global stats and the lists are untouched; processing is kicked exactly when some key was read |
| TargetWatch.PagesToKib | linux-kernel/drivers/xen/xen-balloon.c:51 | page count to KiB by a 64-bit shift, exact when it fits |
| TargetWatch.ShowTargetKib | linux-kernel/drivers/xen/xen-balloon.c:213-217 | the shown value is `PAGES2KB` of the global target as an `unsigned long`: the target times 2048 when that fits 64 bits, and always a 64-bit whole number of huge pages in KiB |
| TargetWatch.StoreTargetKib | linux-kernel/drivers/xen/xen-balloon.c:219-235 | with the signed node comparison: without CAP_SYS_ADMIN, -EPERM and no change; otherwise the global target is the KiB value times 1024 (64-bit), in pages, and the byte count is returned |
| TargetWatch.KibBytesWrap | linux-kernel/drivers/xen/xen-balloon.c:230-232 | the 64-bit product kib × 1024 keeps only the low 54 bits of kib |
| TargetWatch.ShowWrapMultiple | linux-kernel/drivers/xen/xen-balloon.c:244-246 | a 64-bit shifted value stays a multiple of the unit |
| TargetWatch.StoreThenShowKib | linux-kernel/drivers/xen/xen-balloon.c:213-235 | with the signed node comparison, writing target_kb and reading it back gives the value rounded down to a huge page, and exactly the value when it is aligned and below 2^54 |
| TargetWatch.ShowTarget | linux-kernel/drivers/xen/xen-balloon.c:241-247 | the shown byte count is the global target times 2 MiB as an `unsigned long long`: exact when it fits 64 bits, and always a whole number of huge pages |
| TargetWatch.StoreTarget | linux-kernel/drivers/xen/xen-balloon.c:249-265 | with the signed node comparison: without CAP_SYS_ADMIN, -EPERM and no change; otherwise the global target is the largest page count whose size does not exceed the bytes |
| TargetWatch.StoreThenShow | linux-kernel/drivers/xen/xen-balloon.c:241-265 | with the signed node comparison, writing target and reading it back gives the bytes rounded down to a huge page |
| TargetWatch.UncapableStoreChangesNothing | linux-kernel/drivers/xen/xen-balloon.c:227-258 | an unprivileged write fails and leaves both shown values unchanged |
| TargetWatch.WatchTargetAsWritten | linux-kernel/drivers/xen/xen-balloon.c:60-94 | as compiled, the watch fixes the offset as intended but leaves the balloon unchanged and queues nothing |
| TargetWatch.StoreTargetKibAsWritten | linux-kernel/drivers/xen/xen-balloon.c:219-235 | as compiled, -EPERM without the capability, otherwise `count` with the balloon unchanged |
| TargetWatch.StoreTargetAsWritten | linux-kernel/drivers/xen/xen-balloon.c:249-265 | as compiled, -EPERM without the capability, otherwise `count` with the balloon unchanged |
| TargetWatch.StoreIgnoredAsWritten | linux-kernel/drivers/xen/xen-balloon.c:213-265 | as compiled, both sysfs round trips show the old target; an aligned store that differs from it shows differently with the signed comparison |
| TargetWatch.PvWatchIgnoredAsWritten | linux-kernel/drivers/xen/xen-balloon.c:88-92 | as compiled, a PV guest's watch leaves a target that the signed comparison would have changed |
| MemFlags.XenNodeRoundTrip | xen-hypervisor/xen/common/memory.c:1152-1160 | a node encoded in the guest flags decodes to itself; flags with no node decode to `NUMA_NO_NODE` |
| MemFlags.MemfNodeRoundTrip | xen-hypervisor/xen/common/memory.c:1163-1165 | a node encoded in the hypervisor flags decodes to itself; flags with no node decode to `NUMA_NO_NODE` |
| MemFlags.MemfBitsRoundTrip | xen-hypervisor/xen/common/memory.c:1582 | an address width encoded in the top byte decodes to itself and leaves the low 24 bits clear |
| MaxOrderParam.StrToUL | xen-hypervisor/xen/common/memory.c:66-73 | a leading number is consumed; anything else reads as 0 and consumes nothing |
| MaxOrderParam.ParseMaxOrder | xen-hypervisor/xen/common/memory.c:63-77 | the result is 0 or -EINVAL; the passthrough limit changes only when passthrough is configured; in-range limits stay in range |
| MaxOrderParam.FoldMatches | xen-hypervisor/xen/common/memory.c:65-76 | the field-by-field reader consumes all input exactly when there are no more fields than classes and every field is empty or a number; each class then gets its field's value or keeps its default |
| MaxOrderParam.ParseIsFold | xen-hypervisor/xen/common/memory.c:63-77 | the parser is the field-by-field reader over the option string |
| MaxOrderParam.ParseMatchesReference | xen-hypervisor/xen/common/memory.c:63-77 | success exactly when the comma-split fields are acceptable; then each class takes its field's value, and an empty field keeps the default |
| MaxOrderParam.FormatRoundTrip | xen-hypervisor/xen/common/memory.c:63-77 | parsing the printed form of any in-range limits gives them back |
| MaxOrderParam.EmptyFieldsKeepDefaults | xen-hypervisor/xen/common/memory.c:65-70 | ",,12," keeps the domU and ctldom defaults, sets hwdom to 12 and, through the trailing empty field, ptdom to 0 |
| MaxOrderParam.TrailingTextRefused | xen-hypervisor/xen/common/memory.c:76 | text after the last number gives -EINVAL, while the value already read is kept |
| MemopArgs.MaxOrder | xen-hypervisor/xen/common/memory.c:80-96 | the largest of domU+3 (as `unsigned int`) and the limits of the caller's privileged classes, capped at `MAX_ORDER` |
| MemopArgs.MaxOrderLowerBounds | xen-hypervisor/xen/common/memory.c:80-96 | every class the caller belongs to raises the limit to at least that class's order, up to the cap |
| MemopArgs.DefaultMaxOrders | xen-hypervisor/xen/common/memory.c:50-96 | with default limits, an ordinary guest gets order 12 and the control domain 18 |
| MemopArgs.PropagateNode | xen-hypervisor/xen/common/memory.c:1148-1171 | no node leaves the flags alone; a privileged caller is refused only for a node beyond `MAX_NUMNODES` and otherwise gets the node and the exact bit; an unprivileged one is refused exactly for an exact-node request and otherwise gets the flags unchanged |
| MemopArgs.AddressWidth | xen-hypervisor/xen/common/memory.c:1576-1583 | a width below the machine's and not above `PAGE_SHIFT` is -EINVAL; a width below the machine's is kept; anything else means no limit |
| MemopArgs.VnodeFlags | xen-hypervisor/xen/common/memory.c:1585-1609 | a virtual node beyond the guest's layout is -EINVAL |
| MemopArgs.VnodeWithoutNode | xen-hypervisor/xen/common/memory.c:1600-1606 | a virtual node mapped to `NUMA_NO_NODE` adds neither a node nor the exact bit |
| MemopArgs.VnodeWithNode | xen-hypervisor/xen/common/memory.c:1600-1606 | a mapped virtual node adds its physical node, plus the exact bit exactly when requested, and keeps the width |
| MemopArgs.ConstructMemop | xen-hypervisor/xen/common/memory.c:1565-1614 | failures are -EINVAL; success copies the extent count and order; a bad width always fails |
| MemopArgs.ConstructMemopWidth | xen-hypervisor/xen/common/memory.c:1576-1611 | on success, the width in the flags is the accepted address width |
| MemopArgs.ConstructMemopVnode | xen-hypervisor/xen/common/memory.c:1585-1609 | a vnode request without a vNUMA layout gets no node; with a layout, it fails exactly when the node is out of range |
| MemopArgs.ConstructMemopNode | xen-hypervisor/xen/common/memory.c:1610-1611 | a plain node request fails exactly when `propagate_node` refuses it |
| Memop.DecodeCmd | xen-hypervisor/xen/common/memory.c:1757-1758 | the command splits into a 6-bit op and a start extent that recompose it |
| Memop.EncodeCmd | xen-hypervisor/xen/common/memory.c:1846-1848 | the continuation command fits 64 bits and carries the op in its low bits |
| Memop.CmdRoundTrip | xen-hypervisor/xen/common/memory.c:1757-1848 | decoding an encoded continuation gives back the op and the progress |
| Memop.CmdDecodeEncode | xen-hypervisor/xen/common/memory.c:1757-1848 | re-encoding a decoded command gives the command back |
| Memop.RunExtents | xen-hypervisor/xen/common/memory.c:122-152 | the extent loop stops at the first extent that is preempted or fails, and records that position |
| Memop.FirstStopUnique | xen-hypervisor/xen/common/memory.c:122-152 | the stopping point of the extent loop is unique |
| Memop.PreemptedAfterProgress | xen-hypervisor/xen/common/memory.c:124-128 | preemption happens only after at least one extent and before the last |
| Memop.IncreaseReservation | xen-hypervisor/xen/common/memory.c:108-153 | a bad handle or an order above the limit does nothing; otherwise the loop stops at its first stop |
| Memop.PopulatePhysmap | xen-hypervisor/xen/common/memory.c:155-366 | the order limit is `MAX_ORDER` for populate-on-demand and the caller's limit otherwise; a PoD request on oneself stops at once |
| Memop.RemoveAsWritten | xen-hypervisor/xen/common/memory.c:1006-1024 | as written, an extent is released exactly when every page the loop visits (the first 2^order − pod_done) is removed; a PoD-handled page among those makes it fail |
| Memop.RemoveCorrected | xen-hypervisor/xen/common/memory.c:1006-1024 | corrected, an extent whose pages outside the PoD share are all removed is released |
| Memop.CorrectedExpectsPodDone | xen-hypervisor/xen/common/memory.c:998-1024 | corrected, with no hard failures, an extent is released exactly when at most pod_done pages were already gone |
| Memop.NoPodLoopsAgree | xen-hypervisor/xen/common/memory.c:1006-1024 | without PoD pages, both removal loops agree |
| Memop.DecreaseReservationAsWritten | xen-hypervisor/xen/common/memory.c:938-1031 | as written, each extent succeeds with its copy and the as-written removal; the loop stops at the first stop |
| Memop.DecreaseReservation | xen-hypervisor/xen/common/memory.c:938-1031 | corrected, each extent succeeds with its copy and the corrected removal |
| Memop.PodExtentAbandoned | xen-hypervisor/xen/common/memory.c:1013-1017 | one extent with one page already handed to PoD: the written loop gives up at extent 0, the corrected one completes it |
| Memop.NoPodDecreasesAgree | xen-hypervisor/xen/common/memory.c:938-1031 | for a guest without PoD, both versions agree |
| Memop.ReservationOp | xen-hypervisor/xen/common/memory.c:1773-1848 | for the decrease loop as written and corrected alike: a rejected request returns the start extent; a returned count lies between the start and the extent count; a continuation keeps the op and carries strictly more progress |
| Memop.ContinuationsEnd | xen-hypervisor/xen/common/memory.c:1773-1848 | every continuation strictly shrinks the work left, so a chain of continuations ends |
| Memop.ReservationOpsAgreeWithoutPod | xen-hypervisor/xen/common/memory.c:1013-1017 | when populate-on-demand released no page, the call with the decrease as written and the corrected one answer alike |
| Memop.PodDecreaseReported | xen-hypervisor/xen/common/memory.c:1013-1017 | a decrease of one two-page extent with one page released by populate-on-demand returns 0 as written and 1 corrected |
| Exchange.ShiftTestMeansOverflow | xen-hypervisor/xen/common/memory.c:1202-1203 | the shift test `(~0UL >> order) < nr` holds exactly when nr extents of that order overflow 64 bits |
| Exchange.SanityMeansFit | xen-hypervisor/xen/common/memory.c:1197-1210 | the written sanity checks hold exactly when the intended ones do |
| Exchange.ExchangeChecks | xen-hypervisor/xen/common/memory.c:1190-1249 | the `rc` a check leaves on the way to `fail_early`: -EPERM exactly when an order exceeds the limit; then -EINVAL for an insane request; then -EFAULT for either list range failing; then -EINVAL when `propagate_node` refuses; and otherwise success with the chunk orders; success only when every check passes |
| Exchange.ExchangeEarly | xen-hypervisor/xen/common/memory.c:1187-1249 | a failed copy-in is -EFAULT before any check; a check's error reaches the guest only when the copy back at `fail_early` succeeds, and is -EFAULT otherwise; acceptance is the checks' |
| Exchange.EarlyErrorsMasked | xen-hypervisor/xen/common/memory.c:1453-1456 | with a failed copy back every refusal reads -EFAULT; acceptance does not depend on the copy back; -EPERM is seen exactly for a copied request whose order exceeds the limit |
| Exchange.ChunkOrders | xen-hypervisor/xen/common/memory.c:1218-1243 | one input chunk and one output chunk span the same number of pages, and one side's chunk order is 0 |
| Exchange.ChunkCountsAgree | xen-hypervisor/xen/common/memory.c:1197-1243 | an accepted exchange divides both lists into whole chunks, the same number on each side |
| Exchange.HugeForSmall | xen-hypervisor/xen/common/memory.c:1187-1249 | one order-9 extent for 512 pages is accepted; for 511 pages it is refused |
| Physmap.AddToPhysmap | xen-hypervisor/xen/common/memory.c:1476-1504 | a resume point past the end is -EILSEQ; otherwise the frames map from the resume point until an error (returned), the end (0) or preemption (the position); idx and gpfn advance with every mapped frame |
| Physmap.AddToPhysmapCall | xen-hypervisor/xen/common/memory.c:1915-1953 | a resume point too large for the size field is -EDOM; a continuation keeps the op and advances strictly within the range |
| Physmap.AddToPhysmapBatch | xen-hypervisor/xen/common/memory.c:1526-1563 | a resume point past the end is -EILSEQ; a bad handle is -EFAULT; every stored result is the mapping's own result; a positive return is the next position after preemption |
| Physmap.AddToPhysmapBatchCall | xen-hypervisor/xen/common/memory.c:1955-1993 | a resume point too large for the size field is -EDOM; a continuation keeps the op and advances strictly |

## Left out

- The `_2` variants of the hypervisor operations (`populate_physmap_2`, `decrease_reservation_2`) and `migrate_page_range`. They are Virtflex additions outside the extent loops modelled here. The guest's calls to them are modelled only through their answers.
- `guest_remove_page` and the allocator internals: their results are parameters.
- The IOMMU flushes after `xenmem_add_to_physmap`. Physmap.AddToPhysmap assumes `xenmem_add_to_physmap_one` returns 0 or a negative errno, and does not model a flush error that overwrites a non-negative result.
- The page-stealing and assignment loop of `memory_exchange` after its argument checks. Only the checks and the chunk orders are modelled.
- The `pv_shim` calls in `do_memory_op` and every `do_memory_op` case other than the reservation ops and the two add-to-physmap cases.
- The Xen public headers: the flag and shift constants are upstream Xen's values.
- `simple_strtoul`, `simple_strtoull` and `memparse`: the option string is modelled as tokens (numbers, commas, other characters), and the sysfs writes take the parsed number.
- The text formatting of sysfs and procfs output, and all `printk` output.
- The page-table updates of the PV MMU path (`CONFIG_XEN_HAVE_PVMMU`), `scrub_page`, `kmap_flush_unused` and TLB flushes.
- The migrations that `balloon_process` prepares but never issues, because the hypercalls are commented out.
- Locking and workqueue scheduling: the mutex, `cond_resched` and the delayed work are modelled only as what `balloon_process` queues.
- Unpopulated.Alloc: the `wait_event` in `add_ballooned_pages` and a run that outlasts the script of host answers are both the outcome `Blocked`. The model does not claim the guest ever wakes.
- Unpopulated.AddBallooned: for node -1 it uses the corrected `decrease_reservation`, which parks the pages on node 0 and lowers only the global current count. As written, the update at balloon.c:802 writes before `balloon_stats_numa`; Reservation.DecreaseReservationAsWritten and Reservation.DecreaseForNoNodeWritesOutOfBounds model that.
- Worker.BalloonProcess: uses the corrected topology bookkeeping (Topology.StartCorrected, Topology.FinishCorrected). As written, a failed read can count a stale removal, and a positive key reads past `nodes_action`. Worker.BalloonProcessAsWritten models the run as written.
- TargetWatch.WatchTarget: sets the target through the signed node comparison. As compiled the target never changes; TargetWatch.WatchTargetAsWritten models that.
- TargetWatch.PvWatchSetsTarget: holds with the signed node comparison only. As compiled the target stays; TargetWatch.PvWatchIgnoredAsWritten shows it.
- TargetWatch.LaterWatchesKeepOffset: holds with the signed node comparison only. As compiled the target stays.
- TargetWatch.FirstWatchKeepsTarget: stated with the signed node comparison. As compiled the target stays for every event, so it holds trivially there.
- TargetWatch.StoreTargetKib: sets the target through the signed node comparison. As compiled nothing changes; TargetWatch.StoreTargetKibAsWritten models that.
- TargetWatch.StoreTarget: sets the target through the signed node comparison. As compiled nothing changes; TargetWatch.StoreTargetAsWritten models that.
- TargetWatch.StoreThenShowKib: the round trip holds with the signed node comparison only. As compiled the old value is shown; TargetWatch.StoreIgnoredAsWritten shows it.
- TargetWatch.StoreThenShow: the round trip holds with the signed node comparison only. As compiled the old value is shown; TargetWatch.StoreIgnoredAsWritten shows it.
- Counters are unbounded integers except where wrap-around is written out above, because every other counter stays far below 2^63 for realistic memory sizes.
- Process.Act: its contract states only the shape of the result and the zero-credit case. The effects of each branch are stated by Reservation.IncreaseReservation, Reservation.DecreaseReservation and the two `reserve_additional_memory` members, which Act calls.
- Process.SweepNode, Process.Sweep: termination comes from the finite script of host answers. A host that answers forever is not modelled.
- Physmap.AddToPhysmap: `xenmem_add_to_physmap` for spaces other than `XENMAPSPACE_gmfn_range` is a single call to `xenmem_add_to_physmap_one` and is not modelled.
- Physmap.AddToPhysmapCall, Physmap.AddToPhysmapBatchCall: the guest copy (-EFAULT), the refused spaces (-ENOSYS, -EOPNOTSUPP), the domain lookup (-ESRCH) and `xatp_permission_check` at memory.c:1925-1941 and 1965-1981 are not modelled. They return before any frame is mapped and never continue.

## Findings

| source | as written | input that shows it | evidently intended | confidence | as-written member | corrected member |
|---|---|---|---|---|---|---|
| linux-kernel/drivers/xen/balloon.c:1004 | `node >= num_nodes` compares a signed `int` with the unsigned `num_nodes`, so node -1 becomes `UINT_MAX` and the call returns early | `balloon_set_new_target(t, -1)` from `watch_target` or the sysfs stores, with t different from the current target | a negative node sets the global target and spreads it over the nodes | high, not executed | Targets.SetNewTargetAsWritten, Targets.AllNodesTargetIgnored, TargetWatch.WatchTargetAsWritten, TargetWatch.StoreTargetKibAsWritten, TargetWatch.StoreTargetAsWritten, TargetWatch.StoreIgnoredAsWritten | Targets.SetNewTarget |
| linux-kernel/drivers/xen/balloon.c:802 | `balloon_stats_numa[node].current_pages -= nr_pages` runs with node -1 | `add_ballooned_pages` calling `decrease_reservation(1, GFP_USER, -1)` with one page allocated | only the global current count falls | high, not executed | Reservation.DecreaseReservationAsWritten, Reservation.DecreaseForNoNodeWritesOutOfBounds | Reservation.DecreaseReservation |
| linux-kernel/drivers/xen/balloon.c:960 | `for (i = 0; i <= num_nodes; i++)` reads `nodes_action[num_nodes]` | a normal wakeup with topo_change = 1 in xenstore | `i < num_nodes` | high, not executed | Topology.FinishAsWritten, Topology.FinishReadsPastEnd | Topology.FinishInBounds |
| linux-kernel/drivers/xen/balloon.c:874 | tests `i`, which the failed `xenbus_scanf` did not set | a failed read while `i` holds 2 | test the value actually read (`topo_change == 2`) | medium, not executed | Topology.StartAsWritten, Topology.StaleRemovalCounted | Topology.StartCorrected |
| linux-kernel/drivers/xen/balloon.c:988 | guards the second bump with `topo_change != -1`, but a removal is 2 and was already counted at line 876 | topo_change = 2 read at both points and a successful write | a removal bumps `topo_version` once | medium, not executed | Topology.RemovalCountedTwice | Topology.FinishCorrected |
| linux-kernel/drivers/xen/balloon.c:652 | `2*power <= op` overflows once power reaches 2^63, so `2*power` becomes 0 and the loop never ends | op = 2^63 | the loop stops at the largest power of two not above op | high, not executed | Power.PowerAsWritten, Power.AsWrittenNeverTerminates | Power.LargestPowerRemain |
| linux-kernel/drivers/xen/balloon.c:1082 | the error path frees the `pgno` pages obtained, and `free_xenballooned_pages` lowers `target_unpopulated` by `pgno` only, while it was raised by `nr_pages` | nr = 1, node 0 list empty, the host refuses the page | a failed allocation leaves `target_unpopulated` as it was | high, not executed | Unpopulated.AllocAsWritten, Unpopulated.FailedAllocLeaks | Unpopulated.Alloc |
| xen-hypervisor/xen/common/memory.c:1014 | `if ( !pod_done )` has no braces, so a `printk` is its body and `goto out` always runs on -ENOENT: `--pod_done` is unreachable | one order-1 extent whose first page was handed to PoD (pod_done = 1) and whose second page is removed | an already-removed page consumes one of the pod_done pages | high, not executed | Memop.DecreaseReservationAsWritten, Memop.PodExtentAbandoned | Memop.DecreaseReservation |
