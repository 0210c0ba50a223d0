/** When the rounds of a SWITCH end, in terms of the free pages that the tiers reported. */
module SwitchStops {
  import opened Ambix
  import opened MigrationSpec
  import opened DaemonSpec

  /** Some round submitted all the DRAM entries of the list, in order. */
  ghost predicate DramEntriesSent(list: seq<AddrInfo>, n: nat, rounds: seq<Round>)
    requires |list| == 2 * n + 1
  {
    n == 0 || exists r :: 0 <= r < |rounds| && JoinedPids(rounds[r].dramBatches) == PidsOf(list[n + 1..])
  }

  /** Some round submitted all the NVRAM entries of the list, in order and with their addresses. */
  ghost predicate NvramEntriesSent(list: seq<AddrInfo>, n: nat, rounds: seq<Round>)
    requires |list| == 2 * n + 1
  {
    n == 0 || exists r :: 0 <= r < |rounds| && JoinedPids(rounds[r].nvramBatches) == PidsOf(list[..n])
                          && JoinedAddrs(rounds[r].nvramBatches) == AddrsOf(list[..n])
  }

  predicate AllZero(free: seq<nat>) {
    forall i :: 0 <= i < |free| ==> free[i] == 0
  }

  lemma {:induction false} SumZero(free: seq<nat>)
    ensures Sum(free) == 0 <==> AllZero(free)
  {
    if |free| > 0 {
      SumZero(free[1..]);
      assert forall i :: 1 <= i < |free| ==> free[i] == free[1..][i - 1];
    }
  }

  /** The pages that the nodes of a tier reported free over the first `r` rounds. */
  function FreeOver(free: nat -> seq<nat>, r: nat): nat {
    if r == 0 then 0 else FreeOver(free, r - 1) + Sum(free(r - 1))
  }

  /** As many pages have a slot as there are pages and as were reported free so far. */
  lemma {:induction false} SlotsFromReadings(nodes: seq<int>, free: nat -> seq<nat>, n: nat, r: nat)
    requires Readings(nodes, free)
    ensures Done(nodes, free, n, r) == IntMin(n, FreeOver(free, r))
  {
    hide Greedy;
    if r > 0 {
      SlotsFromReadings(nodes, free, n, r - 1);
      GreedyLength(nodes, free(r - 1), n - Done(nodes, free, n, r - 1));
    }
  }

  /** The round in which the last page got its slot. */
  lemma {:induction false} LastSlot(nodes: seq<int>, free: nat -> seq<nat>, n: nat, r: nat)
    returns (q: nat)
    requires Readings(nodes, free) && n > 0 && Done(nodes, free, n, r) == n
    ensures q < r && Done(nodes, free, n, q) < n && Done(nodes, free, n, q + 1) == n
  {
    hide Greedy;
    q := r - 1;
    if Done(nodes, free, n, q) == n {
      q := LastSlot(nodes, free, n, q);
    }
  }

  /** A tier whose pages do not all have a slot, in a round that gave none of them one, reported nothing free. */
  lemma {:induction false} StuckMeansFull(nodes: seq<int>, free: nat -> seq<nat>, n: nat, r: nat)
    requires Readings(nodes, free) && NoProgress(nodes, free, n, r) && Done(nodes, free, n, r) < n
    ensures AllZero(free(r - 1))
  {
    hide Greedy, Sum, AllZero;
    SlotsFromReadings(nodes, free, n, r);
    SlotsFromReadings(nodes, free, n, r - 1);
    SumZero(free(r - 1));
  }

  /** A SWITCH ends with all its DRAM entries submitted, or because no NVRAM node reported a free page in the last
      round; and likewise the other way. */
  lemma {:induction false} EndsSentOrFull(list: seq<AddrInfo>, n: nat, freeNvram: nat -> seq<nat>,
                                          freeDram: nat -> seq<nat>, outcome: nat -> bool, total: int,
                                          rounds: seq<Round>)
    requires |list| == 2 * n + 1
    requires Readings(NVRAM_NODES, freeNvram) && Readings(DRAM_NODES, freeDram)
    requires IsSwitch(list, n, freeNvram, freeDram, outcome, total, rounds)
    ensures DramEntriesSent(list, n, rounds) || (|rounds| > 0 && AllZero(freeNvram(|rounds| - 1)))
    ensures NvramEntriesSent(list, n, rounds) || (|rounds| > 0 && AllZero(freeDram(|rounds| - 1)))
  {
    hide Done, DestSlots, DramSlots, Submitted, JoinedPids, JoinedAddrs, JoinedNodes, FailedInRounds, AllZero,
      PidsOf, AddrsOf, NextCall;
    var R := |rounds|;
    if n > 0 {
      if Done(NVRAM_NODES, freeNvram, n, R) == n {
        var r := LastSlot(NVRAM_NODES, freeNvram, n, R);
        assert DramPart(list, n, freeNvram, outcome, r, rounds[r].dramCall, rounds[r].dramBatches);
        assert list[n + 1..][..n] == list[n + 1..];
        RunsPartition(PidsOf(list[n + 1..]), DramSlots(AddrsOf(list[n + 1..]), NVRAM_NODES, freeNvram, n, r + 1),
                      DestSlots(NVRAM_NODES, freeNvram, n, r + 1), rounds[r].dramCall, outcome, rounds[r].dramBatches);
      } else {
        StuckMeansFull(NVRAM_NODES, freeNvram, n, R);
      }
      if Done(DRAM_NODES, freeDram, n, R) == n {
        var r := LastSlot(DRAM_NODES, freeDram, n, R);
        assert NvramPart(list, n, freeDram, outcome, r, rounds[r].nvramCall, rounds[r].nvramBatches);
        RunsPartition(PidsOf(list[..n]), AddrsOf(list[..n]), DestSlots(DRAM_NODES, freeDram, n, r + 1),
                      rounds[r].nvramCall, outcome, rounds[r].nvramBatches);
      } else {
        StuckMeansFull(DRAM_NODES, freeDram, n, R);
      }
    }
  }

  /** A tier that reports a free page in every round gets all the entries that are to go there. */
  lemma {:induction false} RoomInEveryRound(list: seq<AddrInfo>, n: nat, freeNvram: nat -> seq<nat>,
                                            freeDram: nat -> seq<nat>, outcome: nat -> bool, total: int,
                                            rounds: seq<Round>)
    requires |list| == 2 * n + 1
    requires Readings(NVRAM_NODES, freeNvram) && Readings(DRAM_NODES, freeDram)
    requires IsSwitch(list, n, freeNvram, freeDram, outcome, total, rounds)
    ensures (forall r :: 0 <= r < |rounds| ==> !AllZero(freeNvram(r))) ==> DramEntriesSent(list, n, rounds)
    ensures (forall r :: 0 <= r < |rounds| ==> !AllZero(freeDram(r))) ==> NvramEntriesSent(list, n, rounds)
  {
    hide IsSwitch, DramEntriesSent, NvramEntriesSent, AllZero;
    EndsSentOrFull(list, n, freeNvram, freeDram, outcome, total, rounds);
  }

  lemma {:induction false} SomethingSubmitted(pids: seq<int>, addrs: seq<nat>, nodes: seq<int>, call: nat,
                                              outcome: nat -> bool, batches: seq<Batch>)
    requires |addrs| == |pids| && |nodes| == |pids| && |pids| > 0
    requires Submitted(pids, addrs, nodes, call, outcome, batches)
    ensures batches != []
  {
  }

  /** Whether a round submits pages follows from what was reported free so far. Rounds go on until everything has
      been submitted or a round submits nothing, and not longer. */
  lemma {:induction false} NoIdleRound(list: seq<AddrInfo>, n: nat, freeNvram: nat -> seq<nat>,
                                       freeDram: nat -> seq<nat>, outcome: nat -> bool, total: int,
                                       rounds: seq<Round>, r: nat)
    requires |list| == 2 * n + 1 && r < |rounds|
    requires Readings(NVRAM_NODES, freeNvram) && Readings(DRAM_NODES, freeDram)
    requires IsSwitch(list, n, freeNvram, freeDram, outcome, total, rounds)
    ensures rounds[r].dramBatches != [] <==> FreeOver(freeNvram, r) < n && !AllZero(freeNvram(r))
    ensures rounds[r].nvramBatches != [] <==> FreeOver(freeDram, r) < n && !AllZero(freeDram(r))
    ensures FreeOver(freeNvram, r) < n || FreeOver(freeDram, r) < n
    ensures r == |rounds| - 1 <==>
              || (rounds[r].dramBatches == [] && rounds[r].nvramBatches == [])
              || (FreeOver(freeNvram, r + 1) >= n && FreeOver(freeDram, r + 1) >= n)
  {
    hide DestSlots, DramSlots, Submitted, FailedInRounds, PidsOf, AddrsOf, NextCall, AllZero, Sum, Greedy, Done;
    SubmitsIff(NVRAM_NODES, freeNvram, n, r);
    SubmitsIff(DRAM_NODES, freeDram, n, r);
    var d, v := Done(NVRAM_NODES, freeNvram, n, r + 1), Done(DRAM_NODES, freeDram, n, r + 1);
    assert DramPart(list, n, freeNvram, outcome, r, rounds[r].dramCall, rounds[r].dramBatches);
    assert NvramPart(list, n, freeDram, outcome, r, rounds[r].nvramCall, rounds[r].nvramBatches);
    if Done(NVRAM_NODES, freeNvram, n, r) < d {
      SomethingSubmitted(PidsOf(list[n + 1..][..d]),
                         DramSlots(AddrsOf(list[n + 1..]), NVRAM_NODES, freeNvram, n, r + 1),
                         DestSlots(NVRAM_NODES, freeNvram, n, r + 1), rounds[r].dramCall, outcome,
                         rounds[r].dramBatches);
    }
    if Done(DRAM_NODES, freeDram, n, r) < v {
      SomethingSubmitted(PidsOf(list[..v]), AddrsOf(list[..v]), DestSlots(DRAM_NODES, freeDram, n, r + 1),
                         rounds[r].nvramCall, outcome, rounds[r].nvramBatches);
    }
    assert !Finished(n, freeNvram, freeDram, r);
    assert r == |rounds| - 1 <==> Finished(n, freeNvram, freeDram, r + 1);
  }

  /** A round gives a slot to further pages exactly when there are pages left and a node reported a free page. */
  lemma {:induction false} SubmitsIff(nodes: seq<int>, free: nat -> seq<nat>, n: nat, r: nat)
    requires Readings(nodes, free)
    ensures Done(nodes, free, n, r) == IntMin(n, FreeOver(free, r))
    ensures Done(nodes, free, n, r + 1) == IntMin(n, FreeOver(free, r + 1))
    ensures Done(nodes, free, n, r) <= Done(nodes, free, n, r + 1)
    ensures Done(nodes, free, n, r) < Done(nodes, free, n, r + 1) <==> FreeOver(free, r) < n && !AllZero(free(r))
  {
    hide Done, AllZero, Sum;
    SlotsFromReadings(nodes, free, n, r);
    SlotsFromReadings(nodes, free, n, r + 1);
    SumZero(free(r));
  }
}
