/** What migrations and switches conserve. */
module MigrationTheorems {
  import opened Ambix
  import opened PageTable
  import opened Selection
  import opened Fairness
  import opened PlacementModule
  import opened MigrationSpec
  import opened DaemonSpec

  /** A migration submits as many pages as are listed and free, each of them in exactly one run, in order, with
      its own pid; it names only nodes of the other tier, none of them for more pages than it had free; and it
      reports exactly the pages that moved. */
  lemma {:induction false} MigrationConserves(list: seq<AddrInfo>, nodes: seq<int>, free: seq<nat>,
                                              outcome: nat -> bool, migrated: int, batches: seq<Batch>)
    requires |free| == |nodes| && forall a, b :: 0 <= a < b < |nodes| ==> nodes[a] != nodes[b]
    requires IsMigration(list, nodes, free, outcome, migrated, batches)
    ensures var p := IntMin(|list|, Sum(free));
            && JoinedPids(batches) == PidsOf(list[..p]) && JoinedAddrs(batches) == AddrsOf(list[..p])
            && |JoinedNodes(batches)| == p
            && migrated == MovedTotal(batches) == p - FailedTotal(batches)
            && 0 <= migrated <= |list|
    ensures forall i :: 0 <= i < |nodes| ==> Count(JoinedNodes(batches), nodes[i]) <= free[i]
    ensures forall node :: node !in nodes ==> Count(JoinedNodes(batches), node) == 0
  {
    hide Submitted, Greedy, JoinedPids, JoinedAddrs, JoinedNodes;
    var dests := Greedy(nodes, free, |list|);
    GreedyLength(nodes, free, |list|);
    RunsPartition(PidsOf(list[..|dests|]), AddrsOf(list[..|dests|]), dests, 0, outcome, batches);
    MovedAndFailed(PidsOf(list[..|dests|]), AddrsOf(list[..|dests|]), dests, 0, outcome, batches);
    forall i | 0 <= i < |nodes| ensures Count(dests, nodes[i]) <= free[i] {
      GreedyWithinFree(nodes, free, |list|, i);
    }
    forall node | node !in nodes ensures Count(dests, node) == 0 {
      GreedyOnlyNodes(nodes, free, |list|, node);
    }
  }

  /** Every call of a submission names a pid and an address that belong to one slot. */
  lemma {:induction false} CallsPairSlots(pids: seq<int>, addrs: seq<nat>, nodes: seq<int>, call: nat,
                                          outcome: nat -> bool, batches: seq<Batch>, k: nat, x: nat)
    requires |addrs| == |pids| && |nodes| == |pids|
    requires Submitted(pids, addrs, nodes, call, outcome, batches)
    requires k < |batches| && x < |batches[k].addrs|
    ensures exists i :: 0 <= i < |pids| && pids[i] == batches[k].pid && addrs[i] == batches[k].addrs[x]
  {
    var last := batches[|batches| - 1];
    var cut := |pids| - |last.addrs|;
    if k == |batches| - 1 {
      assert pids[cut + x] == last.pid && addrs[cut + x] == last.addrs[x];
    } else {
      var p, a := pids[..cut], addrs[..cut];
      CallsPairSlots(p, a, nodes[..cut], call, outcome, batches[..|batches| - 1], k, x);
      var i :| 0 <= i < |p| && p[i] == batches[k].pid && a[i] == batches[k].addrs[x];
      assert pids[i] == p[i] && addrs[i] == a[i];
    }
  }

  /** A migration of what a walk selected only ever names pages that the walk met, with the pid they belong to,
      and that were of a class the callback takes when it met them. */
  lemma {:induction false} MigratedPagesWereSelected(cb: Callback, need: nat, vs: seq<Visit>, nodes: seq<int>,
                                                     free: seq<nat>, outcome: nat -> bool, migrated: int,
                                                     batches: seq<Batch>, k: nat, x: nat)
    requires |free| == |nodes| && IsMigration(Selected(cb, need, vs), nodes, free, outcome, migrated, batches)
    requires k < |batches| && x < |batches[k].addrs|
    ensures exists v :: v in vs && v.pid == batches[k].pid && v.pte.addr == batches[k].addrs[x]
                        && Eligible(cb, v.pte) && !Classify(cb, v.pte).Ignore?
  {
    hide Submitted, Selected, Greedy, Classify;
    var list, dests := Selected(cb, need, vs), Greedy(nodes, free, |Selected(cb, need, vs)|);
    var pids, addrs := PidsOf(list[..|dests|]), AddrsOf(list[..|dests|]);
    CallsPairSlots(pids, addrs, dests, 0, outcome, batches, k, x);
    var i :| 0 <= i < |pids| && pids[i] == batches[k].pid && addrs[i] == batches[k].addrs[x];
    DeliveredClass(cb, need, vs, list[i]);
  }

  /** In every round of a SWITCH, what goes to DRAM is named by the pid and the address of one NVRAM entry. */
  lemma {:induction false} NvramCallsNameEntries(list: seq<AddrInfo>, n: nat, freeNvram: nat -> seq<nat>,
                                                 freeDram: nat -> seq<nat>, outcome: nat -> bool, rounds: seq<Round>,
                                                 r: nat, k: nat, x: nat)
    requires |list| == 2 * n + 1
    requires Readings(NVRAM_NODES, freeNvram) && Readings(DRAM_NODES, freeDram)
    requires RoundsOk(list, n, freeNvram, freeDram, outcome, rounds)
    requires r < |rounds| && k < |rounds[r].nvramBatches| && x < |rounds[r].nvramBatches[k].addrs|
    ensures var b := rounds[r].nvramBatches[k];
            exists i :: 0 <= i < n && list[i].pidRetval == b.pid && list[i].addr == b.addrs[x]
  {
    hide Submitted, Done, DestSlots, DramSlots;
    var v := Done(DRAM_NODES, freeDram, n, r + 1);
    var b := rounds[r].nvramBatches[k];
    assert NvramPart(list, n, freeDram, outcome, r, rounds[r].nvramCall, rounds[r].nvramBatches);
    var pids, addrs := PidsOf(list[..v]), AddrsOf(list[..v]);
    CallsPairSlots(pids, addrs, DestSlots(DRAM_NODES, freeDram, n, r + 1), rounds[r].nvramCall, outcome,
                   rounds[r].nvramBatches, k, x);
    var i :| 0 <= i < |pids| && pids[i] == b.pid && addrs[i] == b.addrs[x];
    assert list[i].pidRetval == b.pid && list[i].addr == b.addrs[x];
  }

  /** What one productive round of a SWITCH sends to NVRAM: the pids of the DRAM entries in order, each with the
      address in its slot. Every pid goes with its own address when pages were contributed at most once so far; and
      only then, unless another DRAM entry happens to have the address of the first. */
  lemma {:induction false} DramCallsExact(list: seq<AddrInfo>, n: nat, freeNvram: nat -> seq<nat>,
                                          freeDram: nat -> seq<nat>, outcome: nat -> bool, rounds: seq<Round>, r: nat)
    requires |list| == 2 * n + 1
    requires Readings(NVRAM_NODES, freeNvram) && Readings(DRAM_NODES, freeDram)
    requires RoundsOk(list, n, freeNvram, freeDram, outcome, rounds)
    requires r < |rounds| && Done(NVRAM_NODES, freeNvram, n, r) < Done(NVRAM_NODES, freeNvram, n, r + 1)
    ensures var entries := list[n + 1..][..Done(NVRAM_NODES, freeNvram, n, r + 1)];
            var batches := rounds[r].dramBatches;
            && JoinedPids(batches) == PidsOf(entries)
            && (Contributions(NVRAM_NODES, freeNvram, n, r + 1) <= 1 ==> JoinedAddrs(batches) == AddrsOf(entries))
            && (FirstIsUnique(AddrsOf(list[n + 1..])) && JoinedAddrs(batches) == AddrsOf(entries) ==>
                  Contributions(NVRAM_NODES, freeNvram, n, r + 1) <= 1)
  {
    hide Submitted, Done, DestSlots, DramSlots, Contributions, JoinedPids, JoinedAddrs, JoinedNodes, FirstIsUnique;
    var d := Done(NVRAM_NODES, freeNvram, n, r + 1);
    var src, batches := AddrsOf(list[n + 1..]), rounds[r].dramBatches;
    assert DramPart(list, n, freeNvram, outcome, r, rounds[r].dramCall, batches);
    RunsPartition(PidsOf(list[n + 1..][..d]), DramSlots(src, NVRAM_NODES, freeNvram, n, r + 1),
                  DestSlots(NVRAM_NODES, freeNvram, n, r + 1), rounds[r].dramCall, outcome, batches);
    DramSlotsExact(src, NVRAM_NODES, freeNvram, n, r + 1);
    assert AddrsOf(list[n + 1..][..d]) == src[..d];
  }

  /** While pages were contributed at most once, every call towards NVRAM names the pid and the address of one DRAM
      entry. */
  lemma {:induction false} DramCallsNameEntries(list: seq<AddrInfo>, n: nat, freeNvram: nat -> seq<nat>,
                                                freeDram: nat -> seq<nat>, outcome: nat -> bool, rounds: seq<Round>,
                                                r: nat, k: nat, x: nat)
    requires |list| == 2 * n + 1
    requires Readings(NVRAM_NODES, freeNvram) && Readings(DRAM_NODES, freeDram)
    requires RoundsOk(list, n, freeNvram, freeDram, outcome, rounds)
    requires r < |rounds| && k < |rounds[r].dramBatches| && x < |rounds[r].dramBatches[k].addrs|
    requires Contributions(NVRAM_NODES, freeNvram, n, r + 1) <= 1
    ensures var b := rounds[r].dramBatches[k];
            exists i :: n < i < |list| && list[i].pidRetval == b.pid && list[i].addr == b.addrs[x]
  {
    hide Submitted, Done, DestSlots, DramSlots, Contributions, FirstIsUnique;
    var d := Done(NVRAM_NODES, freeNvram, n, r + 1);
    var src, b := AddrsOf(list[n + 1..]), rounds[r].dramBatches[k];
    assert DramPart(list, n, freeNvram, outcome, r, rounds[r].dramCall, rounds[r].dramBatches);
    DramSlotsExact(src, NVRAM_NODES, freeNvram, n, r + 1);
    var pids, addrs := PidsOf(list[n + 1..][..d]), DramSlots(src, NVRAM_NODES, freeNvram, n, r + 1);
    CallsPairSlots(pids, addrs, DestSlots(NVRAM_NODES, freeNvram, n, r + 1), rounds[r].dramCall, outcome,
                   rounds[r].dramBatches, k, x);
    var i :| 0 <= i < |pids| && pids[i] == b.pid && addrs[i] == b.addrs[x];
    assert addrs[i] == src[i] && list[n + 1 + i] == list[n + 1..][i];
    assert list[n + 1 + i].pidRetval == b.pid && list[n + 1 + i].addr == b.addrs[x];
  }

  // ---- Counting over rounds ----------------------------------------------------------------------

  /** How many slots are submitted again, over `r` rounds, because a later round got further. */
  ghost function Resubmitted(nodes: seq<int>, free: nat -> seq<nat>, n: nat, r: nat): nat
    requires Readings(nodes, free)
  {
    if r == 0 then 0
    else
      var before := Done(nodes, free, n, r - 1);
      Resubmitted(nodes, free, n, r - 1) + if before < Done(nodes, free, n, r) then before else 0
  }

  /** How many of `r` rounds got further. */
  ghost function Productive(nodes: seq<int>, free: nat -> seq<nat>, n: nat, r: nat): nat
    requires Readings(nodes, free)
  {
    if r == 0 then 0
    else Productive(nodes, free, n, r - 1) + if Done(nodes, free, n, r - 1) < Done(nodes, free, n, r) then 1 else 0
  }

  lemma {:induction false} ResubmittedIffSeveral(nodes: seq<int>, free: nat -> seq<nat>, n: nat, r: nat)
    requires Readings(nodes, free)
    ensures Productive(nodes, free, n, r) == 0 <==> Done(nodes, free, n, r) == 0
    ensures Resubmitted(nodes, free, n, r) == 0 <==> Productive(nodes, free, n, r) <= 1
  {
    hide Greedy;
    if r > 0 {
      ResubmittedIffSeveral(nodes, free, n, r - 1);
    }
  }

  ghost function MovedInRounds(rounds: seq<Round>): nat {
    if |rounds| == 0 then 0
    else
      var last := rounds[|rounds| - 1];
      MovedInRounds(rounds[..|rounds| - 1]) + MovedTotal(last.dramBatches) + MovedTotal(last.nvramBatches)
  }

  /** Of all submissions of all rounds, as many moved or failed as there are slots and slots submitted again. */
  lemma {:induction false} RoundsCount(list: seq<AddrInfo>, n: nat, freeNvram: nat -> seq<nat>,
                                       freeDram: nat -> seq<nat>,
                                       outcome: nat -> bool, rounds: seq<Round>)
    requires |list| == 2 * n + 1
    requires Readings(NVRAM_NODES, freeNvram) && Readings(DRAM_NODES, freeDram)
    requires RoundsOk(list, n, freeNvram, freeDram, outcome, rounds)
    ensures var r := |rounds|;
            MovedInRounds(rounds) + FailedInRounds(rounds) ==
            Done(NVRAM_NODES, freeNvram, n, r) + Resubmitted(NVRAM_NODES, freeNvram, n, r) +
            Done(DRAM_NODES, freeDram, n, r) + Resubmitted(DRAM_NODES, freeDram, n, r)
  {
    hide Submitted, Done, Resubmitted, DramPart, NvramPart, MovedTotal, FailedTotal;
    if |rounds| == 0 {
      NothingCounted(NVRAM_NODES, freeNvram, n);
      NothingCounted(DRAM_NODES, freeDram, n);
    } else {
      var q := |rounds| - 1;
      var before, last := rounds[..q], rounds[q];
      assert RoundsOk(list, n, freeNvram, freeDram, outcome, before) by {
        forall i | 0 <= i < q ensures before[i] == rounds[i] && CallsOn(before, i) {
          assert before[..i] == rounds[..i] && CallsOn(rounds, i);
        }
      }
      RoundsCount(list, n, freeNvram, freeDram, outcome, before);
      RoundCount(list, n, freeNvram, freeDram, outcome, q, last);
      ResubmittedStep(NVRAM_NODES, freeNvram, n, q);
      ResubmittedStep(DRAM_NODES, freeDram, n, q);
    }
  }

  lemma NothingCounted(nodes: seq<int>, free: nat -> seq<nat>, n: nat)
    requires Readings(nodes, free)
    ensures Done(nodes, free, n, 0) == Resubmitted(nodes, free, n, 0) == 0
  {
  }

  lemma ResubmittedStep(nodes: seq<int>, free: nat -> seq<nat>, n: nat, q: nat)
    requires Readings(nodes, free)
    ensures Done(nodes, free, n, q) <= Done(nodes, free, n, q + 1)
    ensures Resubmitted(nodes, free, n, q + 1) + Done(nodes, free, n, q + 1) ==
            Resubmitted(nodes, free, n, q) + Done(nodes, free, n, q) +
            if Done(nodes, free, n, q) < Done(nodes, free, n, q + 1) then Done(nodes, free, n, q + 1) else 0
  {
    hide Greedy;
  }

  lemma {:induction false} RoundCount(list: seq<AddrInfo>, n: nat, freeNvram: nat -> seq<nat>,
                                      freeDram: nat -> seq<nat>,
                                      outcome: nat -> bool, q: nat, last: Round)
    requires |list| == 2 * n + 1
    requires Readings(NVRAM_NODES, freeNvram) && Readings(DRAM_NODES, freeDram)
    requires DramPart(list, n, freeNvram, outcome, q, last.dramCall, last.dramBatches)
    requires NvramPart(list, n, freeDram, outcome, q, last.nvramCall, last.nvramBatches)
    ensures var d, v := Done(NVRAM_NODES, freeNvram, n, q + 1), Done(DRAM_NODES, freeDram, n, q + 1);
            && MovedTotal(last.dramBatches) + FailedTotal(last.dramBatches) ==
               (if Done(NVRAM_NODES, freeNvram, n, q) < d then d else 0)
            && MovedTotal(last.nvramBatches) + FailedTotal(last.nvramBatches) ==
               (if Done(DRAM_NODES, freeDram, n, q) < v then v else 0)
  {
    hide Submitted, Done, DestSlots, DramSlots;
    var d, v := Done(NVRAM_NODES, freeNvram, n, q + 1), Done(DRAM_NODES, freeDram, n, q + 1);
    if Done(NVRAM_NODES, freeNvram, n, q) < d {
      MovedAndFailed(PidsOf(list[n + 1..][..d]), DramSlots(AddrsOf(list[n + 1..]), NVRAM_NODES, freeNvram, n, q + 1),
                     DestSlots(NVRAM_NODES, freeNvram, n, q + 1), last.dramCall, outcome, last.dramBatches);
    }
    if Done(DRAM_NODES, freeDram, n, q) < v {
      MovedAndFailed(PidsOf(list[..v]), AddrsOf(list[..v]), DestSlots(DRAM_NODES, freeDram, n, q + 1), last.nvramCall,
                     outcome, last.nvramBatches);
    }
  }

  /** The number a SWITCH reports is short of the page moves that succeeded by exactly the slots that were
      submitted again; it is exact if and only if no direction got further in more than one round. */
  lemma {:induction false} SwitchReport(list: seq<AddrInfo>, n: nat, freeNvram: nat -> seq<nat>,
                                        freeDram: nat -> seq<nat>,
                     outcome: nat -> bool, total: int, rounds: seq<Round>)
    requires |list| == 2 * n + 1
    requires Readings(NVRAM_NODES, freeNvram) && Readings(DRAM_NODES, freeDram)
    requires IsSwitch(list, n, freeNvram, freeDram, outcome, total, rounds)
    ensures var r := |rounds|;
            total + Resubmitted(NVRAM_NODES, freeNvram, n, r) + Resubmitted(DRAM_NODES, freeDram, n, r) ==
            MovedInRounds(rounds)
    ensures total == MovedInRounds(rounds) <==>
            Productive(NVRAM_NODES, freeNvram, n, |rounds|) <= 1 && Productive(DRAM_NODES, freeDram, n, |rounds|) <= 1
  {
    hide Done, RoundsOk, Resubmitted, Productive, MovedInRounds, FailedInRounds;
    RoundsCount(list, n, freeNvram, freeDram, outcome, rounds);
    ResubmittedIffSeveral(NVRAM_NODES, freeNvram, n, |rounds|);
    ResubmittedIffSeveral(DRAM_NODES, freeDram, n, |rounds|);
  }

  /** `send_find` never reports more pages than were asked for, and a SWITCH never more than twice as many. */
  lemma {:induction false} NeverMoreThanAsked(n: nat, list: seq<AddrInfo>, found: nat, mode: int,
                                              freeNvram: nat -> seq<nat>,
                           freeDram: nat -> seq<nat>, outcome: nat -> bool, migrated: int, batches: seq<Batch>,
                           rounds: seq<Round>)
    requires Readings(NVRAM_NODES, freeNvram) && Readings(DRAM_NODES, freeDram) && found <= n
    requires FindActedOn(list, found, mode, freeNvram, freeDram, outcome, migrated, batches, rounds)
    ensures migrated <= if mode == SWITCH_MODE then 2 * n else n
    ensures mode != SWITCH_MODE ==> migrated >= 0
  {
    hide Submitted, Greedy, RoundsOk, Finished, MovedTotal, FailedTotal, FailedInRounds, Done;
    if found > 0 && mode != SWITCH_MODE && IsListMode(mode) {
      MigrationConserves(list, if mode == DRAM_MODE then NVRAM_NODES else DRAM_NODES,
                         if mode == DRAM_MODE then freeNvram(0) else freeDram(0), outcome, migrated, batches);
    }
  }
}
