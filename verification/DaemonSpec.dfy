/** What the daemon does with a list of pages: the calls of a migration and the rounds of a SWITCH. */
module DaemonSpec {
  import opened Ambix
  import opened TaskTable
  import opened SwitchSpec
  import opened Multipart
  import opened MigrationSpec
  import opened PlacementModule

  ghost function PidsOf(s: seq<AddrInfo>): (r: seq<int>)
    ensures |r| == |s| && forall i :: 0 <= i < |s| ==> r[i] == s[i].pidRetval
  {
    seq(|s|, i requires 0 <= i < |s| => s[i].pidRetval)
  }

  ghost function AddrsOf(s: seq<AddrInfo>): (r: seq<nat>)
    ensures |r| == |s| && forall i :: 0 <= i < |s| ==> r[i] == s[i].addr
  {
    seq(|s|, i requires 0 <= i < |s| => s[i].addr)
  }

  /** The reply is a SWITCH list: it was asked for and there was a task to walk. */
  ghost predicate IsSwitchReply(mode: int, t: Table) {
    mode == SWITCH_MODE && t.tasks != []
  }

  /** What the daemon does with a list in which its scan found `found` entries. */
  ghost predicate FindActedOn(list: seq<AddrInfo>, found: nat, mode: int, freeNvram: nat -> seq<nat>,
                              freeDram: nat -> seq<nat>, outcome: nat -> bool, migrated: int, batches: seq<Batch>,
                              rounds: seq<Round>)
    requires Readings(NVRAM_NODES, freeNvram) && Readings(DRAM_NODES, freeDram)
  {
    if found == 0 || (mode != SWITCH_MODE && !IsListMode(mode)) then migrated == 0
    else if mode == SWITCH_MODE then
      |list| == 2 * found + 1 && IsSwitch(list, found, freeNvram, freeDram, outcome, migrated, rounds)
    else
      && |list| == found
      && IsMigration(list, if mode == DRAM_MODE then NVRAM_NODES else DRAM_NODES,
                     if mode == DRAM_MODE then freeNvram(0) else freeDram(0), outcome, migrated, batches)
  }

  /** The scan of the buffer finds the end of the list or the separator, whatever was in the buffer before. */
  lemma {:induction false} CandidatesHold(list: seq<AddrInfo>, code: AddrInfo, buffer: seq<AddrInfo>, isSwitch: bool,
                                          nvs: seq<AddrInfo>,
                       drs: seq<AddrInfo>)
    requires |list| < |buffer| && buffer[..|list| + 1] == list + [code] && code.pidRetval <= 0
    requires if isSwitch then Halves(list, nvs, drs) && |nvs| == |drs| && PositivePids(nvs) else PositivePids(list)
    ensures if isSwitch then |list| == 2 * |nvs| + 1 && Scan(buffer) == |nvs| else Scan(buffer) == |list|
    ensures buffer[|list|] == code && buffer[..|list|] == list
  {
    var stale := buffer[|list| + 1..];
    assert buffer == list + [code] + stale;
    if isSwitch {
      ScanFindsSwitch(list, nvs, drs, code, stale);
    } else {
      ScanFindsList(list, code, stale);
    }
  }

  /** What a migration of `list` to `nodes` does: assign as many pages as are free, node after node, submit
      them in runs of one pid, and report how many of them moved. */
  ghost predicate IsMigration(list: seq<AddrInfo>, nodes: seq<int>, free: seq<nat>, outcome: nat -> bool,
                              migrated: int, batches: seq<Batch>)
    requires |free| == |nodes|
  {
    var dests := Greedy(nodes, free, |list|);
    var p := |dests|;
    && Submitted(PidsOf(list[..p]), AddrsOf(list[..p]), dests, 0, outcome, batches)
    && migrated == MovedTotal(batches)
  }

  lemma {:induction false} MigrationResult(list: seq<AddrInfo>, pids: seq<int>, addrs: seq<nat>, dests: seq<int>,
                                           nodes: seq<int>,
                        free: seq<nat>, outcome: nat -> bool, batches: seq<Batch>)
    requires |free| == |nodes| && |dests| <= |list| && |pids| == |addrs| == |dests|
    requires dests == Greedy(nodes, free, |list|)
    requires pids == PidsOf(list[..|dests|]) && addrs == AddrsOf(list[..|dests|])
    requires Submitted(pids, addrs, dests, 0, outcome, batches)
    ensures IsMigration(list, nodes, free, outcome, |dests| - FailedTotal(batches), batches)
  {
    hide Submitted, Greedy, PidsOf, AddrsOf, MovedTotal, FailedTotal;
    MovedAndFailed(pids, addrs, dests, 0, outcome, batches);
  }

  lemma NothingBefore<T>(a: seq<T>, b: seq<T>)
    requires |a| == 0
    ensures a + b == b
  {
  }

  lemma NoAddrs(a: seq<nat>, s: seq<AddrInfo>)
    requires |s| == 0
    ensures a == a + AddrsOf(s)
  {
  }

  lemma AddrsOfJoin(before: seq<nat>, a: seq<AddrInfo>, b: seq<AddrInfo>, ab: seq<AddrInfo>)
    requires a + b == ab
    ensures before + AddrsOf(a) + AddrsOf(b) == before + AddrsOf(ab)
  {
  }

  lemma AddrsOfPrefix(all: seq<AddrInfo>, part: seq<AddrInfo>)
    requires part <= all
    ensures AddrsOf(part) == AddrsOf(all)[..|part|]
  {
  }

  // ---- What a SWITCH does ----------------------------------------------------------------------

  /** A round that gave no further page of a direction a slot. */
  ghost predicate NoProgress(nodes: seq<int>, free: nat -> seq<nat>, n: nat, r: nat)
    requires Readings(nodes, free)
  {
    r > 0 && Done(nodes, free, n, r) == Done(nodes, free, n, r - 1)
  }

  /** The DRAM slots after `r` rounds. */
  ghost predicate DramSlotsFilled(list: seq<AddrInfo>, n: nat, free: nat -> seq<nat>, r: nat, addrs: seq<nat>,
                                  dests: seq<int>)
    requires |list| == 2 * n + 1 && Readings(NVRAM_NODES, free)
  {
    addrs == DramSlots(AddrsOf(list[n + 1..]), NVRAM_NODES, free, n, r) && dests == DestSlots(NVRAM_NODES, free, n, r)
  }

  /** The NVRAM slots after `r` rounds: always the addresses of the entries they stand for. */
  ghost predicate NvramSlotsFilled(list: seq<AddrInfo>, n: nat, free: nat -> seq<nat>, r: nat, addrs: seq<nat>,
                                   dests: seq<int>)
    requires |list| == 2 * n + 1 && Readings(DRAM_NODES, free)
  {
    addrs == AddrsOf(list[..Done(DRAM_NODES, free, n, r)]) && dests == DestSlots(DRAM_NODES, free, n, r)
  }

  /** The DRAM -> NVRAM half of a round: when it got further, it submits all its slots again, from the first
      one, each entry's pid with whatever address `DramSlots` says. */
  ghost predicate DramPart(list: seq<AddrInfo>, n: nat, free: nat -> seq<nat>, outcome: nat -> bool, r: nat, call: nat,
                           batches: seq<Batch>)
    requires |list| == 2 * n + 1 && Readings(NVRAM_NODES, free)
  {
    var d := Done(NVRAM_NODES, free, n, r + 1);
    if Done(NVRAM_NODES, free, n, r) < d
    then Submitted(PidsOf(list[n + 1..][..d]), DramSlots(AddrsOf(list[n + 1..]), NVRAM_NODES, free, n, r + 1),
                   DestSlots(NVRAM_NODES, free, n, r + 1), call, outcome, batches)
    else batches == []
  }

  /** The NVRAM -> DRAM half of a round: likewise, but each entry's pid always goes with its own address. */
  ghost predicate NvramPart(list: seq<AddrInfo>, n: nat, free: nat -> seq<nat>, outcome: nat -> bool, r: nat, call: nat,
                            batches: seq<Batch>)
    requires |list| == 2 * n + 1 && Readings(DRAM_NODES, free)
  {
    var v := Done(DRAM_NODES, free, n, r + 1);
    if Done(DRAM_NODES, free, n, r) < v
    then Submitted(PidsOf(list[..v]), AddrsOf(list[..v]), DestSlots(DRAM_NODES, free, n, r + 1), call, outcome, batches)
    else batches == []
  }

  ghost function CallAfter(rounds: seq<Round>): nat {
    if |rounds| == 0 then 0
    else NextCall(rounds[|rounds| - 1].nvramCall, rounds[|rounds| - 1].nvramBatches)
  }

  /** Every round is as described, and no outcome is used twice. */
  ghost predicate RoundsOk(list: seq<AddrInfo>, n: nat, freeNvram: nat -> seq<nat>, freeDram: nat -> seq<nat>,
                           outcome: nat -> bool, rounds: seq<Round>)
    requires |list| == 2 * n + 1
    requires Readings(NVRAM_NODES, freeNvram) && Readings(DRAM_NODES, freeDram)
  {
    && (forall r :: 0 <= r < |rounds| ==>
          && DramPart(list, n, freeNvram, outcome, r, rounds[r].dramCall, rounds[r].dramBatches)
          && NvramPart(list, n, freeDram, outcome, r, rounds[r].nvramCall, rounds[r].nvramBatches)
          && rounds[r].nvramCall == NextCall(rounds[r].dramCall, rounds[r].dramBatches))
    && (forall r :: 0 <= r < |rounds| ==> CallsOn(rounds, r))
  }

  /** The calls of a round go on where those of the previous round ended. */
  ghost predicate CallsOn(rounds: seq<Round>, r: nat)
    requires r < |rounds|
  {
    rounds[r].dramCall == CallAfter(rounds[..r])
  }

  /** Everything has a slot, or the last round made no progress in either direction. */
  ghost predicate Finished(n: nat, freeNvram: nat -> seq<nat>, freeDram: nat -> seq<nat>, r: nat)
    requires Readings(NVRAM_NODES, freeNvram) && Readings(DRAM_NODES, freeDram)
  {
    || (Done(NVRAM_NODES, freeNvram, n, r) == n && Done(DRAM_NODES, freeDram, n, r) == n)
    || (NoProgress(NVRAM_NODES, freeNvram, n, r) && NoProgress(DRAM_NODES, freeDram, n, r))
  }

  /** A whole SWITCH: exactly as many rounds as it takes until it is finished, and the number of slots minus the
      number of failed single calls. */
  ghost predicate IsSwitch(list: seq<AddrInfo>, n: nat, freeNvram: nat -> seq<nat>, freeDram: nat -> seq<nat>,
                           outcome: nat -> bool, total: int, rounds: seq<Round>)
    requires |list| == 2 * n + 1
    requires Readings(NVRAM_NODES, freeNvram) && Readings(DRAM_NODES, freeDram)
  {
    var r := |rounds|;
    var d := Done(NVRAM_NODES, freeNvram, n, r);
    var v := Done(DRAM_NODES, freeDram, n, r);
    && RoundsOk(list, n, freeNvram, freeDram, outcome, rounds)
    && total == d + v - FailedInRounds(rounds)
    && Finished(n, freeNvram, freeDram, r) && (forall q :: 0 <= q < r ==> !Finished(n, freeNvram, freeDram, q))
  }

  lemma SlotsBefore(list: seq<AddrInfo>, freeNvram: nat -> seq<nat>, freeDram: nat -> seq<nat>, n: nat,
                    outcome: nat -> bool)
    requires |list| == 2 * n + 1
    requires Readings(NVRAM_NODES, freeNvram) && Readings(DRAM_NODES, freeDram)
    ensures Done(NVRAM_NODES, freeNvram, n, 0) == Done(DRAM_NODES, freeDram, n, 0) == 0
    ensures DramSlotsFilled(list, n, freeNvram, 0, [], []) && NvramSlotsFilled(list, n, freeDram, 0, [], [])
    ensures !NoProgress(NVRAM_NODES, freeNvram, n, 0) && !NoProgress(DRAM_NODES, freeDram, n, 0)
    ensures FailedInRounds([]) == 0
    ensures RoundsOk(list, n, freeNvram, freeDram, outcome, []) && CallAfter([]) == 0
  {
  }

  lemma NothingFailed()
    ensures FailedTotal([]) == 0
  {
  }

  lemma DoneGrows(freeNvram: nat -> seq<nat>, freeDram: nat -> seq<nat>, n: nat, r: nat)
    requires Readings(NVRAM_NODES, freeNvram) && Readings(DRAM_NODES, freeDram)
    ensures Done(NVRAM_NODES, freeNvram, n, r) <= Done(NVRAM_NODES, freeNvram, n, r + 1)
    ensures Done(DRAM_NODES, freeDram, n, r) <= Done(DRAM_NODES, freeDram, n, r + 1)
    ensures NoProgress(NVRAM_NODES, freeNvram, n, r + 1) <==>
            Done(NVRAM_NODES, freeNvram, n, r) == Done(NVRAM_NODES, freeNvram, n, r + 1)
    ensures NoProgress(DRAM_NODES, freeDram, n, r + 1) <==>
            Done(DRAM_NODES, freeDram, n, r) == Done(DRAM_NODES, freeDram, n, r + 1)
  {
    hide Greedy;
  }

  lemma DramSlotsNext(src: seq<nat>, free: nat -> seq<nat>, n: nat, r: nat)
    requires n <= |src| && Readings(NVRAM_NODES, free)
    ensures var d := Done(NVRAM_NODES, free, n, r);
            && Done(NVRAM_NODES, free, n, r + 1) == d + |Greedy(NVRAM_NODES, free(r), n - d)|
            && DestSlots(NVRAM_NODES, free, n, r + 1) ==
                 DestSlots(NVRAM_NODES, free, n, r) + Greedy(NVRAM_NODES, free(r), n - d)
            && DramSlots(src, NVRAM_NODES, free, n, r + 1) ==
               DramSlots(src, NVRAM_NODES, free, n, r) + ChunkAddrs(src, free(r), n - d)
  {
    hide Greedy, ChunkAddrs;
  }

  lemma NvramSlotsNext(free: nat -> seq<nat>, n: nat, r: nat)
    requires Readings(DRAM_NODES, free)
    ensures var v := Done(DRAM_NODES, free, n, r);
            && Done(DRAM_NODES, free, n, r + 1) == v + |Greedy(DRAM_NODES, free(r), n - v)|
            && DestSlots(DRAM_NODES, free, n, r + 1) ==
                 DestSlots(DRAM_NODES, free, n, r) + Greedy(DRAM_NODES, free(r), n - v)
  {
    hide Greedy;
  }

  lemma {:induction false} RoundsNext(list: seq<AddrInfo>, n: nat, freeNvram: nat -> seq<nat>,
                                      freeDram: nat -> seq<nat>,
                                      outcome: nat -> bool, rounds: seq<Round>, round: Round)
    requires |list| == 2 * n + 1
    requires Readings(NVRAM_NODES, freeNvram) && Readings(DRAM_NODES, freeDram)
    requires RoundsOk(list, n, freeNvram, freeDram, outcome, rounds)
    requires DramPart(list, n, freeNvram, outcome, |rounds|, round.dramCall, round.dramBatches)
    requires NvramPart(list, n, freeDram, outcome, |rounds|, round.nvramCall, round.nvramBatches)
    requires round.dramCall == CallAfter(rounds) && round.nvramCall == NextCall(round.dramCall, round.dramBatches)
    ensures RoundsOk(list, n, freeNvram, freeDram, outcome, rounds + [round])
    ensures CallAfter(rounds + [round]) == NextCall(round.nvramCall, round.nvramBatches)
    ensures FailedInRounds(rounds + [round]) ==
            FailedInRounds(rounds) + FailedTotal(round.dramBatches) + FailedTotal(round.nvramBatches)
  {
    hide DramPart, NvramPart, NextCall, FailedTotal;
    var all := rounds + [round];
    assert all[..|rounds|] == rounds;
    forall r | 0 <= r < |all|
      ensures && DramPart(list, n, freeNvram, outcome, r, all[r].dramCall, all[r].dramBatches)
              && NvramPart(list, n, freeDram, outcome, r, all[r].nvramCall, all[r].nvramBatches)
              && CallsOn(all, r)
    {
      assert all[..r] == rounds[..r];
      if r < |rounds| {
        assert all[r] == rounds[r] && CallsOn(rounds, r);
      } else {
        assert rounds[..r] == rounds;
      }
    }
  }
}
