# Ambix: page selection and migration, modelled and proved

Ambix places the memory pages of bound processes on two tiers, DRAM and NVRAM. A kernel module keeps a
table of managed tasks and two clock hands. On request it walks page tables cyclically from a hand, collects the
pages a request asks for together with a reserve, and sends the list back as a multipart netlink message. A
control daemon reassembles the list, finds its end or its separator from the sign of the pid field, assigns the
pages to NUMA nodes and submits them to `move_pages`. This project models both halves and the protocol between
them, and proves what they promise each other.

## How the model is organised

| file | content |
|---|---|
| `Ambix.dfy` | constants, wire structures, `int_min`, `contains` |
| `PageTable.dfy`, `PageTableLemmas.dfy` | page-table entries, what each callback selects (`Classify`) and clears (`Touch`), address ranges |
| `Selection.dfy` | the two simple selection passes, the bounded reserve, and why one pass is enough |
| `ClockOrder.dfy` | the cyclic order a walk follows, where it stops, where it leaves its hand |
| `TaskTable.dfy` | removals from the task table and the hands that point into it |
| `SwitchSpec.dfy` | the list of a SWITCH request: two halves of equal length around a separator |
| `AnswerTheorems.dfy` | what the module's answers promise in every state it can be in |
| `Requests.dfy` | which pages each request lists and cleans, in page bits and counts alone |
| `Multipart.dfy` | splitting a reply into messages, joining it, finding the lists in it |
| `PlacementModule.dfy` | the kernel module as a class over arrays and counters |
| `MigrationSpec.dfy`, `MigrationTheorems.dfy` | node assignment, runs of one pid, retries, rounds, and what they conserve |
| `SwitchStops.dfy` | when the rounds of a SWITCH end, in terms of the free pages reported |
| `Destinations.dfy` | from which tier the daemon takes pages and to which it sends them |
| `SwitchEffect.dfy` | which pages a SWITCH really moves, and by how much it shifts the tiers |
| `SwitchRuns.dfy` | SWITCH on tiers that nobody else uses: the shift in terms of what is known before the call |
| `DaemonRuns.dfy` | runs of the memcheck thread with such SWITCH requests |
| `DaemonSpec.dfy`, `Daemon.dfy` | what the daemon does with a list, and the daemon as a class that talks to the module |
| `Ring.dfy`, `Fairness.dfy` | the ring of pages, and runs of walks over it |
| `Threads.dfy` | the daemon's three threads and two locks as a state machine |
| `Thresholds.dfy` | when the memcheck thread moves pages, and how many |

The kernel module is the class `Placement`. Its arrays (`taskItems`, `foundAddrs`, `backupAddrs`,
`switchBackupAddrs`), its counters and its hands are updated in place, as in the source; what an operation does is
stated by functions of the visits a walk makes. A visit (`Visit`) is one call of a callback: the pid being walked and
the entry as the callback found it. `Cycle` is everything a walk would visit if nothing stopped it;
`Selected(cb, n, cycle)` is the simple two-pass selection, the first `n` of all wanted pages followed by all reserve
pages. The daemon is the class `Controller`; it calls the module's `HandleMessage` where the source sends a netlink
message.

These functions state what the methods compute. What a request gives the user is stated again without them: `Requests`
says which pages are listed, how many and in which order, and which are cleaned, `SwitchStops` when a SWITCH ends,
`Controller.SendFind` from which tier pages are taken and to which they go.

Which processes are alive, how many pages are free on a node, which calls of `move_pages` succeed, the usages of
the tiers, and which bandwidth branch is taken are parameters, and the results hold for all their values. One
callback description covers both builds of the module: `Callback(Hyb, kind)` for `ambix_hyb-mod.c` and
`Callback(MixM, kind)` for `ambix_MixM-mod.c`.

## What the code does where one might expect something else

- A callback that means to age and clean a page only cleans it: the result of `pte_mkold` is overwritten. The young
  bit survives every walk (`PageTableLemmas.YoungSurvives`).
- The page at a hand is visited twice by a walk that nothing stops, first and last (`Fairness.CycleDistinct`).
- A hand designates the first page that was not processed only if a callback stopped the walk. If the quota was met
  by the last page of a stretch, the slot moves but the address stays (`Fairness.ResumesExactly`); in the extreme case all
  further requests are answered with the same pages and other tasks are never visited (`Fairness.StarvesForever`;
  `Fairness.SecondTaskStarves` is an input where this happens).
- A SWITCH drops everything it found when fewer idle DRAM pages than NVRAM pages were found and the DRAM reserve
  is empty; `SwitchSpec.SwitchShortfall` lists all cases in which less is exchanged than could be.
- In a SWITCH, the DRAM addresses are copied from the first DRAM candidate again for every node and in every
  round, while pids are taken in order. Every pid is submitted with its own address when pages were contributed at
  most once, by one node in one round; and only then, provided no other DRAM entry has the address of the first one
  (`MigrationSpec.DramSlotsExact` for the slots, `MigrationTheorems.DramCallsExact` for the calls;
  `MigrationSpec.SecondRoundMispairs` is an input where it goes wrong). The other direction is always right
  (`MigrationTheorems.NvramCallsNameEntries`).
- A SWITCH that needs more than one productive round submits slots again and reports fewer moves than happened,
  short by exactly the slots submitted again (`MigrationTheorems.SwitchReport`).
- A SWITCH may bring more pages to DRAM than it takes away although no call fails, for two reasons. When NVRAM has
  room for only `f` of the `n` DRAM pages at first, the second round submits pages that were already moved, and with
  pages of one process the smaller of `f` and `n - f` pages are lost (`SwitchRuns.OneProcessShift`). And the page at a
  hand may be listed twice (`AnswerTheorems.HandPageListedTwice`), but moves only once (`SwitchRuns.ListedTwice`).
- The thresholds are meant to keep the daemon from moving pages back and forth. They do as long as before each SWITCH
  there is room enough and its entries are different and movable (`DaemonRuns.NoPingPongWithRoom`); room on NVRAM for
  all pages is enough (`DaemonRuns.RoomOnNvram`). With pages of one process the condition on the room is exact
  (`DaemonRuns.OneProcessHarmless`), and `DaemonRuns.PingPongThroughSwitch` is a run with real free-page readings in
  which a SWITCH without room makes the daemon demote what it had just promoted.
- The found array of the module and the candidates of the daemon are one byte short of 131072 entries because of the
  unparenthesised `MAX_N_FIND` (`src/ambix.h:27`, `src/ambix_hyb-mod.c:887`, `src/ambix_hyb-ctl.c:984`). Storing the
  fields of the last entry still fits, since the missing byte is padding; copying whole entries does not: a reply of
  `MAX_N_FIND` entries and a return code, as the largest SWITCH can give it, is copied from and to one byte behind these
  arrays, and only that reply is (`Multipart.ReplyFitsBytes`, `Multipart.LongestSwitch`). The model counts whole
  entries and gives both arrays all 131072 of them.

## Model

| member | source | states |
|---|---|---|
| Ambix.IntMin | src/ambix.h:89-94 | the result is a lower bound of both arguments and one of them |
| Ambix.Contains | src/ambix.h:96-114 | true exactly for the nodes of the tier that the mode names |
| PageTableLemmas.YoungSurvives | src/ambix_hyb-mod.c:196-199 | no sequence of callback calls, of any kind and either build, changes a page's address, node, presence, write or young bit, and none ever sets a dirty bit |
| PageTableLemmas.WholeProcessTouched | src/ambix_hyb-mod.c:558-566 | walking one whole address space gives every page of that process, and no page of another, to the callback exactly as if it were visited once |
| Selection.ReserveSuffices | src/ambix_hyb-mod.c:190-194 | the shrinking cap keeps a prefix of all reserve pages, and either all of them or at least as many as are missing |
| Selection.OnePassIsTwoPass | src/ambix_hyb-mod.c:503-553 | what a bounded walk delivers after topping up equals the first n of (all primaries, then all reserve pages) of the whole cycle, although the walk stops early |
| Selection.StoppedCounts | src/ambix_hyb-mod.c:168-202 | a stopped walk holds exactly the first n primaries of the whole cycle, and a walk that holds fewer has seen all of it |
| Selection.StopUnique | src/ambix_hyb-mod.c:443-501 | there is only one point at which a walk can stop, so results stated at it are functions of the visits |
| Selection.PrimaryProvenance | src/ambix_hyb-mod.c:177-188 | an entry is in the primary list if and only if some visited page of that class has this pid and address |
| Selection.BackupProvenance | src/ambix_hyb-mod.c:190-194 | the same for the reserve list |
| ClockOrder.StretchIsCurrent | src/ambix_hyb-mod.c:443-501 | when the walk reaches a stretch, the page tables there are still as at the start, except that the last stretch sees what the first one left |
| ClockOrder.WalkDelivers | src/ambix_hyb-mod.c:443-501 | a walk processes a prefix of its cycle that ends where the quota is met, and its two lists together yield the two-pass selection over the whole cycle |
| ClockOrder.HandAfterBound | src/ambix_hyb-mod.c:171-175 | a hand stays inside the address space, so that the module invariant bounds both |
| PlacementModule.Placement.constructor | src/ambix_hyb-mod.c:883-897 | a fresh module has no tasks, both hands at the start, its own buffers, and satisfies the invariant |
| PlacementModule.Placement.PteCallbackMem | src/ambix_hyb-mod.c:168-202 | stops with the DRAM hand on the page when the quota is met; otherwise files the page by class, respects the reserve's cap, clears at most its dirty bit, and leaves all else alone |
| PlacementModule.Placement.PteCallbackNvramForce | src/ambix_hyb-mod.c:261-295 | the same with the NVRAM hand: written and accessed pages first, all others in reserve |
| PlacementModule.Placement.PteCallbackNvramWrite | src/ambix_hyb-mod.c:297-325 | the same for dirty pages, the young ones first; the page table is not changed |
| PlacementModule.Placement.PteCallbackNvramIntensive | src/ambix_hyb-mod.c:327-356 | the same for young pages, the dirty ones first in the hybrid build |
| PlacementModule.Placement.PteCallbackNvramSwitch | src/ambix_hyb-mod.c:358-387 | the same with the separate SWITCH reserve |
| PlacementModule.Placement.PteCallbackNvramClear | src/ambix_hyb-mod.c:389-403 | cleans a present, writable NVRAM page, selects nothing and never stops |
| PlacementModule.Placement.PteEntry | src/ambix-MixM/ambix_MixM-mod.c:168-202 | whichever callback is installed, in either build, one call has the effect that class and cleaning rules prescribe |
| PlacementModule.Placement.WalkPageRange | src/ambix_hyb-mod.c:449-454 | calls the callback on the pages of the range in address order until one call returns nonzero; the hand is then on the first page not processed, otherwise unchanged |
| PlacementModule.Placement.DoPageWalk | src/ambix_hyb-mod.c:443-501 | processes exactly the prefix of the cycle at which the quota is met, or all of it, and returns the slot and leaves the address that the specification of hands says |
| PlacementModule.Placement.WalkList | src/ambix_hyb-mod.c:526-552 | the list is the two-pass selection over the cycle at the hand; the result is 0 if and only if n entries were delivered; only the hand of that tier moves |
| PlacementModule.Placement.MemWalk | src/ambix_hyb-mod.c:503-553 | the same for each list mode, with the callback of that mode; an unknown mode changes nothing and returns 0. Which pages each mode asks for is in `Requests.ListAnswer` |
| PlacementModule.Placement.ClearWalk | src/ambix_hyb-mod.c:555-569 | every page of every managed task is as the clear callback leaves it, every other page, the lists and both hands are unchanged |
| TaskTable.RemovalFromHand | src/ambix_hyb-mod.c:104-136 | seen from a hand, a removal takes one task out of the cyclic order and moves no other; the hand stays on its task at its address, or goes to address 0 of the cyclic successor |
| TaskTable.LiveRemoveDead | src/ambix_hyb-mod.c:138-147 | removing a dead task does not change the list of live ones or their order |
| TaskTable.RefreshUnique | src/ambix_hyb-mod.c:138-155 | the hand after a refresh is determined by table and hand before it |
| PlacementModule.Placement.UpdatePidList | src/ambix_hyb-mod.c:104-136 | removes one entry in place, keeps pids positive and distinct, and leaves both hands in range and where `RemovalFromHand` says |
| PlacementModule.Placement.RefreshPids | src/ambix_hyb-mod.c:138-155 | terminates although the index steps back; leaves exactly the live tasks in order; each hand meets the live ones of the tasks it would have met, in that order |
| PlacementModule.Placement.FindTargetProcess | src/ambix_hyb-mod.c:78-102 | adds a pid if and only if there is room, it is new and the process exists |
| PlacementModule.Placement.BindPid | src/ambix_hyb-mod.c:709-721 | result 0 exactly for a valid, new, live pid when there is room; otherwise the table is unchanged |
| PlacementModule.Placement.UnbindPid | src/ambix_hyb-mod.c:723-745 | result 0 exactly for a managed pid, which is then removed and both hands adjusted; otherwise nothing changes |
| PlacementModule.Placement.ShiftLeft | src/ambix_hyb-mod.c:649-653 | the overlapping copy inside one array equals a copy from a snapshot |
| PlacementModule.Placement.ShiftRight | src/ambix_hyb-mod.c:675-679 | the same in the other direction, back to front |
| PlacementModule.Placement.FillDramSide | src/ambix_hyb-mod.c:638-666 | afterwards the array is the first k NVRAM entries, a separator, and the first k of (DRAM entries, then their reserve) |
| PlacementModule.Placement.FillNvramSide | src/ambix_hyb-mod.c:667-687 | afterwards the array is the first k of (NVRAM entries, then their reserve), a separator, and the first k DRAM entries |
| PlacementModule.Placement.Rebalance | src/ambix_hyb-mod.c:634-694 | on every return path the list is balanced: k entries, a separator with pid 0, k entries, each half a prefix of what was collected for it; how large k is, is in `Requests.SwitchAnswer` |
| SwitchSpec.SwitchIsBalanced | src/ambix_hyb-mod.c:611-695 | what the two bounded walks and the rebalancing leave is the list determined by the two whole cycles: k depends only on how many pages of each class the tiers hold, and each half is the two-pass selection of size k |
| SwitchSpec.NothingToSwitch | src/ambix_hyb-mod.c:619-623 | the early return is the same specification with k = 0 |
| SwitchSpec.SwitchShortfall | src/ambix_hyb-mod.c:634-691 | a SWITCH never exchanges more than the tiers allow, and less if and only if one of three stated conditions on the class counts holds |
| PlacementModule.Placement.SwitchDramSide | src/ambix_hyb-mod.c:625-694 | asks DRAM for as many pages as NVRAM offered, walks from the DRAM hand, and leaves a balanced list |
| PlacementModule.Placement.SwitchWalk | src/ambix_hyb-mod.c:611-695 | the list is the balanced exchange determined by the NVRAM cycle and the DRAM cycle after it; -1 if and only if NVRAM offered nothing, in which case the DRAM hand has not moved |
| PlacementModule.Placement.ProcessFind | src/ambix_hyb-mod.c:770-795 | refreshes first; then list, return code, page tables and hands are those of the mode, and with no task or an unknown mode nothing else changes. What this means in pages is in `Requests.ListAnswer`, `Requests.SwitchAnswer` and `Requests.ClearAnswer` |
| PlacementModule.Placement.ProcessReq | src/ambix_hyb-mod.c:766-810 | for every request the module invariant is kept, the answer is as specified for its operation, and the return code is the entry behind the list, still inside the array |
| PlacementModule.Placement.BuildMessages | src/ambix_hyb-mod.c:831-856 | the division and remainder arithmetic yields the recursive split of the whole list |
| PlacementModule.Placement.HandleMessage | src/ambix_hyb-mod.c:813-869 | the messages sent are the split of the answer to this request |
| Requests.CycleIsMet | src/ambix_hyb-mod.c:443-501 | an unstopped walk meets every page of every task once, as it is in the page tables before the walk, from the hand on and round to it again; then the page at the hand once more, perhaps clean by then |
| Requests.SelectedInTwoPasses | src/ambix_hyb-mod.c:503-553 | a selection is exactly min(n, pages of both classes met) long; those of the first class come first; a page of a class is left out only when n others are listed, of the first class only when all of these are of it |
| Requests.ListAnswer | src/ambix_hyb-mod.c:503-553 | for each list mode and build, in page bits: the two classes of pages that are listed and in which order, how many, the return code, and the hand they are met from; the other hand has not moved |
| Requests.SwitchAnswer | src/ambix_hyb-mod.c:611-695 | the list of an answered SWITCH has 2k+1 entries, k given by the numbers of pages of each class in the tiers, case by case: 0 when everything is dropped, the two other shortfalls, and otherwise the largest possible; each half is the two passes of size k over its tier |
| Requests.ClearAnswer | src/ambix_hyb-mod.c:555-569 | after a CLEAR request every present, writable NVRAM page of every managed live task is clean, every other page and bit is as before, the list is empty and the code -1 |
| Requests.ListCleans | src/ambix_hyb-mod.c:168-356 | a list request changes nothing but the dirty bits of the pages that it met up to the one that met the quota: in DRAM mode of the young ones, in NVRAM mode of those not both young and dirty, in the other modes of the hybrid build of none |
| Requests.SwitchCleans | src/ambix_hyb-mod.c:611-631 | the same for the two walks of a SWITCH; the DRAM walk looks for as many idle pages as NVRAM offered, and does not take place if that is none |
| Requests.ListedPages | src/ambix_hyb-mod.c:168-356 | every page listed was, before the request, a present, writable page of a task on the tier that the mode asks about |
| Requests.SwitchedPages | src/ambix_hyb-mod.c:611-695 | the pages in front of the separator were such pages on NVRAM, those behind it on DRAM |
| Multipart.SplitFrames | src/ambix_hyb-mod.c:831-856 | a nonempty reply of at most MAX_N_PER_PACKET times `packets` entries needs at most `packets` messages; exactly the last is marked NLMSG_DONE, all others are full and marked multipart (section 2.3.2 of RFC 3549), none is an error |
| Multipart.JoinSplit | src/ambix_hyb-ctl.c:428-441 | joining the payloads of a split reply gives back the reply |
| Multipart.ReplyFitsBytes | src/ambix_hyb-ctl.c:428-441 | in bytes, copying a reply stays within what was allocated for the arrays if and only if its list has fewer than MAX_N_FIND entries; the longest one exceeds it by one byte |
| Multipart.LongestSwitch | src/ambix_hyb-mod.c:787-788 | a SWITCH gives that longest list exactly when it is of the largest size |
| Multipart.ScanFindsList | src/ambix_hyb-ctl.c:487-489 | whatever older entries follow in the buffer, the scan of a one-list reply returns its length |
| Multipart.ScanFindsSwitch | src/ambix_hyb-ctl.c:487-489 | the scan of a SWITCH reply stops at the separator, and the j-th DRAM entry is at n_found + 1 + j |
| Multipart.SelectedPids | src/ambix_hyb-mod.c:184-186 | every selected entry carries the pid of a managed task |
| Daemon.Controller.Reassemble | src/ambix_hyb-ctl.c:428-441 | the payloads lie one behind the other in the buffer, the rest of which is unchanged; it fails if and only if there is an error message |
| Daemon.Controller.SendReq | src/ambix_hyb-ctl.c:416-444 | for every request and module state, the buffer starts with the module's list and return code; counted in whole entries, the buffer has room for them |
| Daemon.Controller.SendBindOrUnbind | src/ambix_hyb-ctl.c:446-476 | true if and only if the module bound or unbound the pid, with the resulting task table |
| Daemon.Controller.FindReplyShape | src/ambix_hyb-mod.c:766-810 | the reply to any FIND is positive pids up to a code that is 0 or -1, or two halves of equal length around a separator |
| Daemon.Controller.ScanCandidates | src/ambix_hyb-ctl.c:487-489 | the scan stops inside the buffer, at the first entry whose pid is not positive |
| Daemon.Controller.AskForPages | src/ambix_hyb-ctl.c:478-489 | what the daemon finds is exactly the list the module built, or the NVRAM half of it, and no more than it asked for |
| Daemon.Controller.SendFind | src/ambix_hyb-ctl.c:478-508 | end to end: the module's answer to the request is what is migrated or switched. In DRAM mode every page named was on a DRAM node before the request, every node named is an NVRAM node, as many pages are submitted as were found and reported free and none of these nodes for more than its reading, and the number reported is that of the pages that moved; in the NVRAM modes the reverse; in a SWITCH both, with the exact pages towards NVRAM as long as pages were contributed at most once |
| MigrationSpec.GreedyLength | src/ambix_hyb-ctl.c:236-249 | as many pages get a node as are listed and free: the smaller of n and the sum of the readings |
| MigrationSpec.GreedyWithinFree | src/ambix_hyb-ctl.c:236-249 | no node is assigned more pages than its reading |
| Daemon.Controller.AssignNodes | src/ambix_hyb-ctl.c:236-249 | the slots hold the candidates' addresses in order, and nodes are filled one after the other |
| Daemon.Controller.SubmitRuns | src/ambix_hyb-ctl.c:253-270 | the slots are submitted in longest runs of one pid, each in one call, and singly only after that call failed; the error count is that of failed single calls |
| MigrationSpec.RunsPartition | src/ambix_hyb-ctl.c:253-270 | the runs, joined, name the pid, the address and the node of every slot, once and in order |
| MigrationSpec.MovedAndFailed | src/ambix_hyb-ctl.c:253-275 | for any outcomes, moved and failed pages add up to the submitted ones |
| Daemon.Controller.DoMigration | src/ambix_hyb-ctl.c:215-276 | assignment and submission of the candidates in the buffer, and the result is the number of pages that moved |
| MigrationTheorems.MigrationConserves | src/ambix_hyb-ctl.c:215-276 | exactly min(n, free) pages are submitted, each once, in order and with its own pid; the nodes the calls name are nodes of the other tier, none for more pages than it had free; the result is the submitted pages minus the failed ones |
| MigrationTheorems.CallsPairSlots | src/ambix_hyb-ctl.c:255-261 | every call names a pid and an address that belong to one slot |
| MigrationTheorems.MigratedPagesWereSelected | src/ambix_hyb-ctl.c:478-508 | every page a migration names was met by the walk with that pid and address, eligible and of a class the callback takes |
| MigrationTheorems.NeverMoreThanAsked | src/ambix_hyb-ctl.c:478-508 | a request never reports more pages than were asked for, and a SWITCH never more than twice as many |
| Destinations.MigrationSends | src/ambix_hyb-ctl.c:215-276 | a migration of pages of one tier to the nodes of another names only such pages and only such nodes, and no node for more pages than its reading |
| Destinations.SwitchExchanges | src/ambix_hyb-ctl.c:278-403 | in every round of a SWITCH, NVRAM pages are sent to DRAM nodes and what is submitted for the DRAM entries to NVRAM nodes; these are the DRAM pages listed while pages were contributed at most once |
| Daemon.Controller.AssignDramNodes | src/ambix_hyb-ctl.c:302-316 | the DRAM slots of a round, whose source index starts over for every node |
| Daemon.Controller.DramRound | src/ambix_hyb-ctl.c:298-344 | one round towards NVRAM: new slots behind the old ones, and all slots submitted from the first if there is a new one |
| Daemon.Controller.NvramRound | src/ambix_hyb-ctl.c:346-393 | one round towards DRAM: after any number of rounds slot i holds the address of candidate i |
| Daemon.Controller.DoSwitch | src/ambix_hyb-ctl.c:278-403 | terminates for all readings and outcomes within the 2n+1 entries, after exactly as many rounds as it takes until everything has a slot or a round made no progress, which `SwitchStops` states by the readings alone; the result is slots minus failed single calls |
| SwitchStops.SlotsFromReadings | src/ambix_hyb-ctl.c:298-314 | after any number of rounds as many pages have a slot as there are pages and as were reported free over these rounds |
| SwitchStops.EndsSentOrFull | src/ambix_hyb-ctl.c:297-394 | a SWITCH that ends has submitted all its DRAM entries, or no NVRAM node reported a free page in the last round; likewise the other way |
| SwitchStops.RoomInEveryRound | src/ambix_hyb-ctl.c:297-394 | a tier that reports a free page in every round gets all n entries |
| SwitchStops.NoIdleRound | src/ambix_hyb-ctl.c:297-394 | a round submits pages in a direction if and only if pages are left and a node reported a free page; a round is the last if and only if it submits nothing or everything then has been submitted, so that the readings determine the number of rounds |
| MigrationSpec.ChunksAreExact | src/ambix_hyb-ctl.c:309-313 | in one round, for any addresses, the DRAM slots hold their own candidates if at most one node contributed; if no other candidate has the address of the first, only then |
| MigrationSpec.DramSlotsExact | src/ambix_hyb-ctl.c:297-316 | over any number of rounds and for any addresses, the DRAM slots hold their own candidates if pages were contributed at most once; if no other candidate has the address of the first, only then |
| MigrationSpec.SecondRoundMispairs | src/ambix_hyb-ctl.c:311 | with room for one page in the first round and more in the second, the second entry gets the address of the first |
| MigrationTheorems.NvramCallsNameEntries | src/ambix_hyb-ctl.c:366-388 | in every round, every call towards DRAM names the pid and the address of one NVRAM entry |
| MigrationTheorems.DramCallsExact | src/ambix_hyb-ctl.c:317-338 | the calls of a productive round towards NVRAM name the pids of the DRAM entries in order; each with its own address if pages were contributed at most once so far, and only then if no other entry has the address of the first |
| MigrationTheorems.DramCallsNameEntries | src/ambix_hyb-ctl.c:317-338 | as long as pages were contributed at most once, every call towards NVRAM names the pid and the address of one DRAM entry |
| MigrationTheorems.ResubmittedIffSeveral | src/ambix_hyb-ctl.c:317-324 | slots are submitted again if and only if more than one round got further |
| MigrationTheorems.RoundsCount | src/ambix_hyb-ctl.c:297-394 | over all rounds, moved and failed submissions add up to the slots plus the slots submitted again |
| MigrationTheorems.SwitchReport | src/ambix_hyb-ctl.c:278-403 | the number reported is short of the successful moves by exactly the slots submitted again; it is exact if and only if no direction got further in more than one round |
| SwitchEffect.RunOutcomes | src/ambix_hyb-ctl.c:262-269 | a page of a run moves if and only if the call for the run or its own call after it succeeds; the number moved counts these pages, all of them if the first call fails and every single one succeeds; calls follow one another without gap |
| SwitchEffect.RoundsMove | src/ambix_hyb-ctl.c:297-394 | over all rounds, the pages moved in either direction are among those the slots name, and all of them when no call fails |
| SwitchEffect.SwitchWithinSize | src/ambix_hyb-ctl.c:297-394 | a SWITCH of n moves at most n pages in each direction |
| SwitchEffect.SwitchShift | src/ambix_hyb-ctl.c:297-394 | with no failed call, at most one productive round towards NVRAM and entries that differ, exactly the listed pages with a slot move, and the shift between the tiers is the difference of the numbers of slots |
| SwitchEffect.RoomyWithoutShift | src/ambix_hyb-ctl.c:297-394 | with room for all pages on both tiers at the first reading, no failed call and entries that differ, n pages move each way and nothing is shifted |
| SwitchEffect.UnbalancedSwitch | src/ambix_hyb-ctl.c:311 | with room for one DRAM page at first, and more after two NVRAM pages have left, a SWITCH of two pages of one process moves two pages to DRAM and one to NVRAM, with no failed call |
| SwitchRuns.SwitchExists | src/ambix_hyb-ctl.c:297-394 | for any list, readings and outcomes there is a run that meets the specification of `do_switch` |
| SwitchRuns.RoomySwitch | src/ambix_hyb-ctl.c:297-394 | on tiers nobody else uses, with room on NVRAM for all DRAM pages and then on DRAM for all NVRAM pages, exactly the listed pages change places; the shift is the difference of the numbers of different pages |
| SwitchRuns.TightSwitch | src/ambix_hyb-ctl.c:297-394 | with less room on NVRAM, but enough on both tiers together, there are two rounds, all NVRAM pages move, and towards NVRAM the slots start over at the first candidate |
| SwitchRuns.ShiftBounds | src/ambix_hyb-ctl.c:297-394 | with enough room on both tiers together, a SWITCH of different entries never makes DRAM emptier, and fuller by at most n minus the pages free on NVRAM, by none if those are n or 0 |
| SwitchRuns.OneProcessShift | src/ambix_hyb-ctl.c:297-394 | if its DRAM pages are of one process, DRAM becomes fuller by exactly the smaller of f and n - f pages when f < n are free on NVRAM, and by none otherwise |
| SwitchRuns.ListedTwice | src/ambix_hyb-ctl.c:309-313 | with room for everything, a DRAM page that is listed twice makes the SWITCH bring one page more to DRAM than it takes away |
| SwitchRuns.TightSwitchExists | src/ambix_hyb-ctl.c:297-394 | for all such tiers and lists there is a run without failed calls whose readings are those of the tiers |
| Ring.CycleIsUnrolledRing | src/ambix_hyb-mod.c:443-501 | a cycle visits the ring of all pages in order from the hand, every page once and only the page at the hand again, at the end |
| Fairness.WalkAdvances | src/ambix_hyb-mod.c:443-501 | a walk that processed k pages leaves its hand k places further on the ring, less the pages it will meet again |
| Fairness.ResumesExactly | src/ambix_hyb-mod.c:171-175 | the hand is on the first unprocessed page if and only if no page, or the whole ring, will be met again |
| Fairness.UnfilledWalk | src/ambix_hyb-mod.c:443-501 | a walk whose quota is never met visited all of its cycle and leaves the hand as it was |
| Fairness.CycleDistinct | src/ambix_hyb-mod.c:452-500 | two visits of one page in a cycle are the first and the last, of the page at the hand |
| Fairness.DeliveredOnce | src/ambix_hyb-mod.c:503-553 | no pid and address is delivered twice in one selection, the one at the hand at most twice |
| Fairness.DeliveredClass | src/ambix_hyb-mod.c:168-202 | every delivered page was, when met, present, writable, on the scanned tier and of a class the callback takes |
| Fairness.DemotionSparesWrittenPages | src/ambix_hyb-mod.c:177-194 | the hybrid build never offers a page for demotion that was young and dirty when met |
| Fairness.SwitchHalvesDisjoint | src/ambix_hyb-mod.c:611-695 | no page is in both halves of a SWITCH |
| AnswerTheorems.AnswersAreUnique | src/ambix_hyb-mod.c:766-810 | in every state the module can be in, no page is listed twice in an answer, in both halves of a SWITCH together; only the page at a hand the walks started from may be listed twice |
| AnswerTheorems.HandPageListedTwice | src/ambix_hyb-mod.c:448-500 | a concrete memory whose answer lists the page at the hand twice |
| Fairness.RunGrows | src/ambix_hyb-mod.c:529-534 | every walk answered by the module on an unchanged table continues a run, wherever the last walk left the hand |
| Fairness.RunFollowsRing | src/ambix_hyb-mod.c:443-501 | in any run, each page visited is the one the unrolled ring shows at the run's position |
| Fairness.NothingSkipped | src/ambix_hyb-mod.c:443-501 | in any run of walks with any callbacks and quotas, every position between the first hand and the furthest point reached was visited |
| Fairness.EveryPageIsVisited | src/ambix_hyb-mod.c:443-501 | once a run has gone round the ring, by then every page of every task was visited |
| Fairness.FairScanning | src/ambix_hyb-mod.c:171-175 | if every walk was stopped by its callback, the visits of the run are the unrolled ring without gap or repetition |
| Fairness.StoppedWalksGoRound | src/ambix_hyb-mod.c:171-175 | callback-stopped walks that want at least q pages each do go round: after m of them with m times q at least the number of pages, every page of every task was visited |
| Fairness.Starvation | src/ambix_hyb-mod.c:456-458 | if the last page of the hand's task meets the quota, only that task is visited, the hand does not move, and the next equal request finds the same situation and selects the same pages; for all callbacks of the hybrid build and those of the other build that do not want clean pages |
| Fairness.StarvesForever | src/ambix_hyb-mod.c:456-458 | and so on for any number of requests: each selects the same pages and processes no page of another task |
| Fairness.SecondTaskStarves | src/ambix_hyb-mod.c:456-458 | two tasks with one idle page each: the first task's page is selected by every request, the second task's page is never visited |
| Threads.StepInv | src/ambix_hyb-ctl.c:416-444 | every step of every thread keeps the invariant about locks, socket, buffers and tags |
| Threads.RepliesReachTheirThreads | src/ambix_hyb-ctl.c:416-444 | in every interleaving, a thread that acts has the complete reply to its own request in its buffer, what it receives answers what it sent, the socket is empty while `comm_lock` is free, and each lock admits one thread |
| Threads.CandidatesAreStable | src/ambix_hyb-ctl.c:562-584 | no step of another thread changes the candidates a thread is migrating |
| Threads.NoDeadlock | src/ambix_hyb-ctl.c:599-613 | whenever a thread is in the middle of something, some such thread can take a step |
| Threads.CommOwnerMoves | src/ambix_hyb-ctl.c:416-444 | the thread inside `send_req` is never blocked: every reply the module can send is accepted, and, counted in whole entries, copying any part of it fits the buffer |
| Thresholds.MemcheckRound | src/ambix_hyb-ctl.c:553-621 | what moves is the given share of what the taken branch asks for, on the usages it reads; whatever pages a SWITCH moves each way, a pass conserves what is used; INTENSIVE leaves DRAM at or below its limit; demotion and promotion stop at the targets of both tiers; with both components idle nothing changes; and DRAM keeps its side of target and limit if and only if a SWITCH of this pass is harmless |
| Thresholds.DemotionStops | src/ambix_hyb-ctl.c:594-600 | a demotion asks for the largest number of pages, up to MAX_N_FIND, that leaves DRAM at or above and NVRAM at or below its target: k pages are no more than that if and only if they keep both |
| Thresholds.PromotionStops | src/ambix_hyb-ctl.c:607-613 | the mirror image for promotion |
| Thresholds.IntensiveStops | src/ambix_hyb-ctl.c:571-576 | the INTENSIVE branch asks for the largest number of pages, up to MAX_N_FIND, that leaves DRAM at or below its limit |
| Thresholds.RoundKeepsSides | src/ambix_hyb-ctl.c:553-621 | a DRAM usage at or below the limit stays there and one at or above the target stays there if and only if the bytes that the round's SWITCH, if any, moved each way are harmless; only below the target are pages promoted, only above the limit demoted |
| Thresholds.RunKeepsSides | src/ambix_hyb-ctl.c:521-634 | DRAM stays on its sides throughout a run if and only if what every SWITCH of the run moved is harmless |
| Thresholds.EvenSwitchIsHarmless | src/ambix_hyb-ctl.c:564-569 | a SWITCH that moves as many pages each way is harmless, whatever the same pass demotes on its older readings |
| Thresholds.FillingSwitch | src/ambix_hyb-ctl.c:564-569 | a SWITCH that does not make DRAM emptier is harmless if and only if what it brings fits below the limit of a DRAM that was within it |
| Thresholds.HarmfulSwitchOpens | src/ambix_hyb-ctl.c:564-600 | a harmful SWITCH opens the direction that was ruled out before it |
| Thresholds.NoPingPong | src/ambix_hyb-ctl.c:521-634 | no run promotes in one round and demotes in another, with any amounts moved and components switched on and off, unless what a SWITCH in between moved is harmful |
| DaemonRuns.RoomySwitchIsHarmless | src/ambix_hyb-ctl.c:564-565 | a SWITCH of different entries whose calls succeed is harmless if, before it, both tiers together have room for it and the most pages it can lose fit below the limit |
| DaemonRuns.RoomOnNvram | src/ambix_hyb-ctl.c:305-313 | room on NVRAM for all its pages meets that condition |
| DaemonRuns.OneProcessHarmless | src/ambix_hyb-ctl.c:305-313 | for DRAM pages of one process, it is harmless if and only if the pages it is bound to lose, given the free NVRAM pages and its size, fit below the limit |
| DaemonRuns.OneProcessReverses | src/ambix_hyb-ctl.c:564-600 | if they do not fit, DRAM ends above the limit it was within, and the next threshold pass demotes as soon as NVRAM has room |
| DaemonRuns.NoPingPongWithRoom | src/ambix_hyb-ctl.c:521-634 | in runs whose SWITCH requests are runs of `do_switch` on the tiers' own free pages, the thread does not promote in one pass and demote in another as long as there was room before each SWITCH in between and its entries are different and movable |
| DaemonRuns.PingPongThroughSwitch | src/ambix_hyb-ctl.c:564-600 | a run that does: two pages promoted, a SWITCH of twenty different pages with ten free pages on NVRAM that brings twenty for ten, five pages demoted; no failed call, no other use of memory |

## Left out

- PlacementModule.Placement.ProcessReq: FIND sizes are not negative; `int_min` does not clamp below, and only the debug command line can send a negative size.
- PlacementModule.Placement.ClearWalk: every live managed task has an `mm`; the source does not look for a null one here.
- PlacementModule.Placement.RefreshPids: a table entry is a pid, so null entries do not occur and a reused pid counts as the same process.
- PlacementModule.Placement.PteEntry: of the mixed-memory build only the classification and cleaning of the callbacks are modelled; its task limit of 5, its capacity test with `>` and its missing test for a null `mm` are not.
- Daemon.Controller.SendReq: netlink errors and allocation failures in the kernel are not modelled, so the answer always arrives.
- Daemon.Controller.DoSwitch: which calls succeed is a parameter; in `SwitchEffect` a successful call moves the pages it names, and what a mispaired address denotes in the other process is not modelled.
- Threads.RepliesReachTheirThreads: migrating is one phase of a thread; the daemon's flags, sleeping and exit are not steps.
- Thresholds.NoPingPong: usages are reals and page counts unbounded, no other program allocates memory meanwhile, and the usages change by exactly the pages moved. A run holds passes of the memcheck thread only: the `send` and `switch` commands of the stdin thread (src/ambix_hyb-ctl.c:768-804) also move pages between passes, and are not part of it.
- DaemonRuns.NoPingPongWithRoom: calls that fail, and a SWITCH for which both tiers together have too little room, are not covered; the condition is exact for DRAM pages of one process, and for others sufficient.
- Page tables are values keyed by pid, changed only by callbacks; sharing of pages between processes, locking, huge pages and hardware updates of young and dirty bits during a walk are not modelled.
- Between the requests of a run, page bits may change in any way but pages stay at their addresses; a page that is mapped or unmapped in between changes the ring.
- The one-byte shortage of the found array is treated as described above.
- `pte_callback_mem_force` and the commented-out callbacks and walks, which nothing installs.
- The daemon of the mixed-memory build, which repeats the functions modelled here.
- The bandwidth monitor under `src/pcm-mod`, the client, the bind and unbind tools, the command line, socket setup, printing and sleeping.
