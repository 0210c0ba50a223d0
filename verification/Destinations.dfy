/** From which tier the daemon takes pages for a request, and to which it sends them. */
module Destinations {
  import opened Ambix
  import opened PageTable
  import opened MigrationSpec
  import opened DaemonSpec
  import opened MigrationTheorems

  /** All the calls name pages of one tier, and where they are to go. */
  ghost predicate NamesPagesOn(batches: seq<Batch>, mem: Memory, tier: seq<int>) {
    forall k, x :: 0 <= k < |batches| && 0 <= x < |batches[k].addrs| ==>
      PageOn(mem, tier, batches[k].pid, batches[k].addrs[x])
  }

  ghost predicate SendsTo(batches: seq<Batch>, tier: seq<int>) {
    forall node :: node in JoinedNodes(batches) ==> node in tier
  }

  /** Of `found` pages of one tier, as many go to the nodes of the other as these reported free. */
  ghost predicate Sends(batches: seq<Batch>, mem: Memory, source: seq<int>, target: seq<int>, free: seq<nat>,
                        found: nat)
    requires |free| == |target|
  {
    && NamesPagesOn(batches, mem, source) && SendsTo(batches, target)
    && |JoinedNodes(batches)| == IntMin(found, Sum(free))
    && forall i :: 0 <= i < |target| ==> Count(JoinedNodes(batches), target[i]) <= free[i]
  }

  /** In every round, NVRAM pages go to DRAM nodes and the pages submitted for the DRAM entries to NVRAM nodes; these
      are the DRAM pages that were found while NVRAM pages were contributed at most once. */
  ghost predicate Exchanges(rounds: seq<Round>, mem: Memory, freeNvram: nat -> seq<nat>, found: nat)
    requires Readings(NVRAM_NODES, freeNvram)
  {
    forall r :: 0 <= r < |rounds| ==>
      && NamesPagesOn(rounds[r].nvramBatches, mem, NVRAM_NODES) && SendsTo(rounds[r].nvramBatches, DRAM_NODES)
      && SendsTo(rounds[r].dramBatches, NVRAM_NODES)
      && (Contributions(NVRAM_NODES, freeNvram, found, r + 1) <= 1 ==>
            NamesPagesOn(rounds[r].dramBatches, mem, DRAM_NODES))
  }

  lemma {:induction false} CountZero(s: seq<int>, x: int)
    ensures Count(s, x) == 0 <==> x !in s
  {
    if |s| > 0 {
      CountZero(s[1..], x);
      assert s == [s[0]] + s[1..];
    }
  }

  lemma NothingSent(mem: Memory, source: seq<int>, target: seq<int>, free: seq<nat>, freeNvram: nat -> seq<nat>)
    requires |free| == |target| && Readings(NVRAM_NODES, freeNvram)
    ensures Sends([], mem, source, target, free, 0) && Exchanges([], mem, freeNvram, 0) && MovedTotal([]) == 0
  {
  }

  /** A migration of pages of one tier. */
  lemma {:induction false} MigrationSends(list: seq<AddrInfo>, mem: Memory, source: seq<int>, target: seq<int>,
                                          free: seq<nat>, outcome: nat -> bool, migrated: int, batches: seq<Batch>)
    requires |free| == |target| && forall a, b :: 0 <= a < b < |target| ==> target[a] != target[b]
    requires IsMigration(list, target, free, outcome, migrated, batches)
    requires forall e :: e in list ==> PageOn(mem, source, e.pidRetval, e.addr)
    ensures Sends(batches, mem, source, target, free, |list|) && migrated == MovedTotal(batches)
  {
    hide Submitted, Greedy, Sum, Count, JoinedNodes, JoinedPids, JoinedAddrs, PageOn;
    MigrationConserves(list, target, free, outcome, migrated, batches);
    forall node | node in JoinedNodes(batches) ensures node in target {
      CountZero(JoinedNodes(batches), node);
    }
    var dests := Greedy(target, free, |list|);
    var pids, addrs := PidsOf(list[..|dests|]), AddrsOf(list[..|dests|]);
    forall k, x | 0 <= k < |batches| && 0 <= x < |batches[k].addrs|
      ensures PageOn(mem, source, batches[k].pid, batches[k].addrs[x])
    {
      CallsPairSlots(pids, addrs, dests, 0, outcome, batches, k, x);
      var i :| 0 <= i < |pids| && pids[i] == batches[k].pid && addrs[i] == batches[k].addrs[x];
      assert list[i] in list;
    }
  }

  lemma {:induction false} SlotNodes(nodes: seq<int>, free: nat -> seq<nat>, n: nat, r: nat)
    requires Readings(nodes, free)
    ensures forall node :: node in DestSlots(nodes, free, n, r) ==> node in nodes
  {
    hide Greedy;
    if r > 0 {
      SlotNodes(nodes, free, n, r - 1);
      var more := Greedy(nodes, free(r - 1), n - Done(nodes, free, n, r - 1));
      forall node | node in more ensures node in nodes {
        CountZero(more, node);
        if node !in nodes {
          GreedyOnlyNodes(nodes, free(r - 1), n - Done(nodes, free, n, r - 1), node);
        }
      }
    }
  }

  /** A SWITCH of pages of the two tiers. */
  lemma {:induction false} SwitchExchanges(list: seq<AddrInfo>, n: nat, mem: Memory, freeNvram: nat -> seq<nat>,
                                           freeDram: nat -> seq<nat>, outcome: nat -> bool, total: int,
                                           rounds: seq<Round>)
    requires |list| == 2 * n + 1
    requires Readings(NVRAM_NODES, freeNvram) && Readings(DRAM_NODES, freeDram)
    requires IsSwitch(list, n, freeNvram, freeDram, outcome, total, rounds)
    requires forall e :: e in list[..n] ==> PageOn(mem, NVRAM_NODES, e.pidRetval, e.addr)
    requires forall e :: e in list[n + 1..] ==> PageOn(mem, DRAM_NODES, e.pidRetval, e.addr)
    ensures Exchanges(rounds, mem, freeNvram, n)
  {
    hide RoundsOk, Finished, FailedInRounds, PageOn, NamesPagesOn, SendsTo, Contributions, Done;
    forall r | 0 <= r < |rounds|
      ensures NamesPagesOn(rounds[r].nvramBatches, mem, NVRAM_NODES) && SendsTo(rounds[r].nvramBatches, DRAM_NODES)
      ensures SendsTo(rounds[r].dramBatches, NVRAM_NODES)
      ensures Contributions(NVRAM_NODES, freeNvram, n, r + 1) <= 1 ==>
                NamesPagesOn(rounds[r].dramBatches, mem, DRAM_NODES)
    {
      RoundSends(list, n, freeNvram, freeDram, outcome, rounds, r);
      NvramPagesNamed(list, n, mem, freeNvram, freeDram, outcome, rounds, r);
      if Contributions(NVRAM_NODES, freeNvram, n, r + 1) <= 1 {
        DramPagesNamed(list, n, mem, freeNvram, freeDram, outcome, rounds, r);
      }
    }
  }

  lemma {:induction false} RoundSends(list: seq<AddrInfo>, n: nat, freeNvram: nat -> seq<nat>,
                                      freeDram: nat -> seq<nat>, outcome: nat -> bool, rounds: seq<Round>, r: nat)
    requires |list| == 2 * n + 1 && r < |rounds|
    requires Readings(NVRAM_NODES, freeNvram) && Readings(DRAM_NODES, freeDram)
    requires RoundsOk(list, n, freeNvram, freeDram, outcome, rounds)
    ensures SendsTo(rounds[r].nvramBatches, DRAM_NODES) && SendsTo(rounds[r].dramBatches, NVRAM_NODES)
  {
    hide Done, DestSlots, DramSlots, Submitted, PidsOf, AddrsOf, CallsOn, NextCall;
    var d, v := Done(NVRAM_NODES, freeNvram, n, r + 1), Done(DRAM_NODES, freeDram, n, r + 1);
    assert DramPart(list, n, freeNvram, outcome, r, rounds[r].dramCall, rounds[r].dramBatches);
    assert NvramPart(list, n, freeDram, outcome, r, rounds[r].nvramCall, rounds[r].nvramBatches);
    SlotNodes(NVRAM_NODES, freeNvram, n, r + 1);
    SlotNodes(DRAM_NODES, freeDram, n, r + 1);
    if Done(NVRAM_NODES, freeNvram, n, r) < d {
      RunsPartition(PidsOf(list[n + 1..][..d]), DramSlots(AddrsOf(list[n + 1..]), NVRAM_NODES, freeNvram, n, r + 1),
                    DestSlots(NVRAM_NODES, freeNvram, n, r + 1), rounds[r].dramCall, outcome, rounds[r].dramBatches);
    }
    if Done(DRAM_NODES, freeDram, n, r) < v {
      RunsPartition(PidsOf(list[..v]), AddrsOf(list[..v]), DestSlots(DRAM_NODES, freeDram, n, r + 1),
                    rounds[r].nvramCall, outcome, rounds[r].nvramBatches);
    }
  }

  lemma {:induction false} NvramPagesNamed(list: seq<AddrInfo>, n: nat, mem: Memory, freeNvram: nat -> seq<nat>,
                                           freeDram: nat -> seq<nat>, outcome: nat -> bool, rounds: seq<Round>, r: nat)
    requires |list| == 2 * n + 1 && r < |rounds|
    requires Readings(NVRAM_NODES, freeNvram) && Readings(DRAM_NODES, freeDram)
    requires RoundsOk(list, n, freeNvram, freeDram, outcome, rounds)
    requires forall e :: e in list[..n] ==> PageOn(mem, NVRAM_NODES, e.pidRetval, e.addr)
    ensures NamesPagesOn(rounds[r].nvramBatches, mem, NVRAM_NODES)
  {
    hide RoundsOk, PageOn;
    var batches := rounds[r].nvramBatches;
    forall k, x | 0 <= k < |batches| && 0 <= x < |batches[k].addrs|
      ensures PageOn(mem, NVRAM_NODES, batches[k].pid, batches[k].addrs[x])
    {
      NvramCallsNameEntries(list, n, freeNvram, freeDram, outcome, rounds, r, k, x);
      var i :| 0 <= i < n && list[i].pidRetval == batches[k].pid && list[i].addr == batches[k].addrs[x];
      assert list[..n][i] == list[i];
    }
  }

  lemma {:induction false} DramPagesNamed(list: seq<AddrInfo>, n: nat, mem: Memory, freeNvram: nat -> seq<nat>,
                                          freeDram: nat -> seq<nat>, outcome: nat -> bool, rounds: seq<Round>, r: nat)
    requires |list| == 2 * n + 1 && r < |rounds|
    requires Readings(NVRAM_NODES, freeNvram) && Readings(DRAM_NODES, freeDram)
    requires RoundsOk(list, n, freeNvram, freeDram, outcome, rounds)
    requires Contributions(NVRAM_NODES, freeNvram, n, r + 1) <= 1
    requires forall e :: e in list[n + 1..] ==> PageOn(mem, DRAM_NODES, e.pidRetval, e.addr)
    ensures NamesPagesOn(rounds[r].dramBatches, mem, DRAM_NODES)
  {
    hide RoundsOk, PageOn, Contributions;
    var batches := rounds[r].dramBatches;
    forall k, x | 0 <= k < |batches| && 0 <= x < |batches[k].addrs|
      ensures PageOn(mem, DRAM_NODES, batches[k].pid, batches[k].addrs[x])
    {
      DramCallsNameEntries(list, n, freeNvram, freeDram, outcome, rounds, r, k, x);
      var i :| n < i < |list| && list[i].pidRetval == batches[k].pid && list[i].addr == batches[k].addrs[x];
      assert list[n + 1..][i - n - 1] == list[i];
    }
  }
}
