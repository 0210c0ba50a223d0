/** The control daemon: sending requests, finding the lists in the replies, and migrating pages. */
module Daemon {
  import opened Ambix
  import opened PageTable
  import opened Selection
  import opened ClockOrder
  import opened TaskTable
  import opened SwitchSpec
  import opened Multipart
  import opened MigrationSpec
  import opened PlacementModule
  import opened DaemonSpec
  import opened Destinations
  import Requests

  class Controller {
    const kernel: Placement
    const candidates: array<AddrInfo>

    /** The daemon allocates its candidate buffer once. */
    constructor (kernel: Placement)
      ensures this.kernel == kernel && fresh(candidates) && candidates.Length == MAX_N_FIND + 1
    {
      this.kernel := kernel;
      candidates := new AddrInfo[MAX_N_FIND + 1];
    }

    // ---- Moving pages ----------------------------------------------------------------------

    /** Copies candidate addresses from index `src` on into slots from `dst` on, for one destination node,
        until the node or the list is exhausted. */
    method FillChunk(src: nat, dst: nat, avail: nat, limit: nat, node: int, addr: array<nat>, dest: array<int>)
      returns (j: nat)
      requires dst <= limit <= addr.Length && dest.Length == addr.Length
      requires src + (limit - dst) <= candidates.Length
      modifies addr, dest
      ensures j == IntMin(avail, limit - dst)
      ensures addr[..dst + j] == old(addr[..dst]) + AddrsOf(candidates[src..src + j])
      ensures dest[..dst + j] == old(dest[..dst]) + Repeat(node, j)
    {
      j := 0;
      while j < avail && dst + j < limit
        invariant j <= avail && dst + j <= limit
        invariant addr[..dst + j] == old(addr[..dst]) + AddrsOf(candidates[src..src + j])
        invariant dest[..dst + j] == old(dest[..dst]) + Repeat(node, j)
      {
        addr[dst + j] := candidates[src + j].addr;
        dest[dst + j] := node;
        j := j + 1;
      }
    }

    /** The single calls after a failed run. */
    method RetrySingly(count: nat, call: nat, outcome: nat -> bool) returns (e: nat, retries: seq<bool>)
      ensures |retries| == count && forall x :: 0 <= x < count ==> retries[x] == outcome(call + x)
      ensures e == count - CountTrue(retries)
    {
      e, retries := 0, [];
      for j := 0 to count
        invariant |retries| == j && forall x :: 0 <= x < j ==> retries[x] == outcome(call + x)
        invariant e == j - CountTrue(retries)
      {
        ghost var before := retries;
        retries := retries + [outcome(call + j)];
        assert retries[..|retries| - 1] == before;
        if !outcome(call + j) {
          e := e + 1;
        }
      }
    }

    /** Submits the first `count` slots in runs of candidates (from index `base` on) with one pid. */
    method SubmitRuns(base: nat, count: nat, addr: array<nat>, dest: array<int>, call: nat, outcome: nat -> bool)
      returns (e: nat, batches: seq<Batch>)
      requires count <= addr.Length == dest.Length && base + count < candidates.Length
      ensures Submitted(PidsOf(candidates[base..base + count]), addr[..count], dest[..count], call, outcome, batches)
      ensures e == FailedTotal(batches)
    {
      hide Submitted, FailedTotal, NextCall, PidsOf, FollowsOutcomes;
      ghost var pids, addrs, nodes := PidsOf(candidates[base..base + count]), addr[..count], dest[..count];
      e, batches := 0, [];
      var next := call;
      var migrated := 0;
      NothingSubmitted(call, outcome);
      assert pids[..0] == [] && addrs[..0] == [] && nodes[..0] == [];
      while migrated < count
        invariant 0 <= migrated <= count && next == NextCall(call, batches)
        invariant 0 < migrated < count ==> pids[migrated - 1] != pids[migrated]
        invariant Submitted(pids[..migrated], addrs[..migrated], nodes[..migrated], call, outcome, batches)
        invariant e == FailedTotal(batches)
      {
        var b, failed := SubmitRun(base, migrated, count, addr, dest, next, outcome, pids);
        SubmittedNext(pids, addrs, nodes, migrated, call, outcome, batches, b);
        e := e + failed;
        batches := batches + [b];
        next := next + 1 + |b.retries|;
        migrated := migrated + |b.addrs|;
      }
      assert pids[..count] == pids && addrs[..count] == addrs && nodes[..count] == nodes;
    }

    /** One run from slot `at` on: one call for all of it, and single calls if that fails. */
    method SubmitRun(base: nat, at: nat, count: nat, addr: array<nat>, dest: array<int>, call: nat,
                     outcome: nat -> bool,
                     ghost pids: seq<int>)
      returns (b: Batch, failed: nat)
      requires at < count <= addr.Length == dest.Length && base + count < candidates.Length
      requires pids == PidsOf(candidates[base..base + count])
      ensures 1 <= |b.addrs| <= count - at
      ensures b.addrs == addr[..count][at..at + |b.addrs|] && b.nodes == dest[..count][at..at + |b.addrs|]
      ensures forall x :: at <= x < at + |b.addrs| ==> pids[x] == b.pid
      ensures at + |b.addrs| < count ==> pids[at + |b.addrs|] != b.pid
      ensures b.call == call && FollowsOutcomes(b, outcome) && failed == Failed(b)
    {
      var currPid := candidates[base + at].pidRetval;
      var i := RunLength(base, at, count, currPid, pids);
      var moved, retries := outcome(call), [];
      failed := 0;
      if !moved {
        failed, retries := RetrySingly(i, call + 1, outcome);
      }
      b := Batch(currPid, addr[at..at + i], dest[at..at + i], call, moved, retries);
    }

    /** The inner scan: how many candidates from `at` on have the pid; it reads one entry past the last. */
    method RunLength(base: nat, at: nat, count: nat, pid: int, ghost pids: seq<int>) returns (i: nat)
      requires at < count && base + count < candidates.Length && candidates[base + at].pidRetval == pid
      requires pids == PidsOf(candidates[base..base + count])
      ensures 1 <= i <= count - at
      ensures forall x :: at <= x < at + i ==> pids[x] == pid
      ensures at + i < count ==> pids[at + i] != pid
    {
      i := 1;
      while candidates[base + at + i].pidRetval == pid && at + i < count
        invariant 1 <= i <= count - at
        invariant forall x :: at <= x < at + i ==> pids[x] == pid
      {
        i := i + 1;
      }
    }

    /** The loop over the nodes: from slot `start` on, candidates get the addresses of the same slots, node
        after node, as far as the nodes have free pages. */
    method AssignNodes(nodes: seq<int>, free: seq<nat>, start: nat, n: nat, addr: array<nat>, dest: array<int>)
      returns (processed: nat)
      requires |free| == |nodes| && start <= n == addr.Length == dest.Length && n <= candidates.Length
      modifies addr, dest
      ensures processed == start + |Greedy(nodes, free, n - start)| <= n
      ensures dest[..processed] == old(dest[..start]) + Greedy(nodes, free, n - start)
      ensures addr[..processed] == old(addr[..start]) + AddrsOf(candidates[start..processed])
    {
      hide AddrsOf, Repeat, Greedy;
      processed := start;
      ghost var dests, addr0 := dest[..start], addr[..start];
      ghost var all := dests + Greedy(nodes, free, n - start);
      NoAddrs(addr0, candidates[start..start]);
      assert nodes[0..] == nodes && free[0..] == free;
      GreedyLengths(dests, nodes, free, n - start);
      var i := 0;
      while i < |nodes| && processed < n
        invariant 0 <= i <= |nodes| && start <= processed <= n
        invariant dest[..processed] == dests
        invariant dests + Greedy(nodes[i..], free[i..], n - processed) == all
        invariant addr[..processed] == addr0 + AddrsOf(candidates[start..processed])
      {
        var j := FillChunk(processed, processed, free[i], n, nodes[i], addr, dest);
        AddrsOfJoin(addr0, candidates[start..processed], candidates[processed..processed + j],
                    candidates[start..processed + j]);
        GreedyStep(dests, nodes, free, i, n - processed, all);
        assert n - (processed + j) == n - processed - j;
        dests := dests + Repeat(nodes[i], j);
        processed := processed + j;
        i := i + 1;
      }
      GreedyDone(nodes[i..], free[i..], n - processed);
      assert dests + [] == dests;
    }

    /** `do_migration`: assigns the candidates to the nodes of the other tier and submits them; `free` are the
        readings of free pages per node, `outcome` the results of the calls. */
    method DoMigration(mode: int, n: nat, free: seq<nat>, outcome: nat -> bool) returns (migrated: int,
                       batches: seq<Batch>)
      requires n < candidates.Length
      requires |free| == |if mode == DRAM_MODE then NVRAM_NODES else DRAM_NODES|
      ensures IsMigration(candidates[..n], if mode == DRAM_MODE then NVRAM_NODES else DRAM_NODES, free, outcome,
                          migrated, batches)
    {
      hide Submitted, AddrsOf, PidsOf, MovedTotal, FailedTotal, Greedy;
      var nodeList := if mode == DRAM_MODE then NVRAM_NODES else DRAM_NODES;
      var addr, dest := new nat[n], new int[n];
      var processed := AssignNodes(nodeList, free, 0, n, addr, dest);
      var e;
      e, batches := SubmitRuns(0, processed, addr, dest, 0, outcome);
      assert candidates[0..processed] == candidates[..n][..processed];
      NothingBefore(addr[..0], AddrsOf(candidates[0..processed]));
      NothingBefore(dest[..0], Greedy(nodeList, free, n));
      MigrationResult(candidates[..n], PidsOf(candidates[0..processed]), addr[..processed], dest[..processed], nodeList,
                      free, outcome, batches);
      return processed - e, batches;
    }

    // ---- SWITCH ----------------------------------------------------------------------------

    /** The copy for one node in the DRAM half: the source index is that of the first DRAM candidate. */
    method FillFromFirst(dst: nat, avail: nat, n: nat, node: int, addr: array<nat>, dest: array<int>)
      returns (j: nat)
      requires dst <= n == addr.Length == dest.Length && 2 * n + 1 <= candidates.Length
      modifies addr, dest
      ensures j == IntMin(avail, n - dst)
      ensures addr[..dst + j] == old(addr[..dst]) + AddrsOf(candidates[n + 1..2 * n + 1])[..j]
      ensures dest[..dst + j] == old(dest[..dst]) + Repeat(node, j)
    {
      j := FillChunk(n + 1, dst, avail, n, node, addr, dest);
      AddrsOfPrefix(candidates[n + 1..2 * n + 1], candidates[n + 1..n + 1 + j]);
    }

    /** The node loop for the DRAM half: like `AssignNodes`, but for every node the source index starts over at
        the first DRAM candidate. */
    method AssignDramNodes(nodes: seq<int>, free: seq<nat>, start: nat, n: nat, addr: array<nat>, dest: array<int>)
      returns (processed: nat)
      requires |free| == |nodes| && start <= n == addr.Length == dest.Length && 2 * n + 1 <= candidates.Length
      modifies addr, dest
      ensures processed == start + |Greedy(nodes, free, n - start)| <= n
      ensures dest[..processed] == old(dest[..start]) + Greedy(nodes, free, n - start)
      ensures addr[..processed] ==
              old(addr[..start]) + ChunkAddrs(AddrsOf(candidates[n + 1..2 * n + 1]), free, n - start)
    {
      hide AddrsOf, Repeat, Greedy, ChunkAddrs;
      processed := start;
      ghost var dests, addrs, src := dest[..start], addr[..start], AddrsOf(candidates[n + 1..2 * n + 1]);
      ghost var all, sources := dests + Greedy(nodes, free, n - start), addrs + ChunkAddrs(src, free, n - start);
      assert nodes[0..] == nodes && free[0..] == free;
      GreedyLengths(dests, nodes, free, n - start);
      var i := 0;
      while i < |nodes| && processed < n
        invariant 0 <= i <= |nodes| && start <= processed <= n
        invariant dest[..processed] == dests && addr[..processed] == addrs
        invariant dests + Greedy(nodes[i..], free[i..], n - processed) == all
        invariant addrs + ChunkAddrs(src, free[i..], n - processed) == sources
      {
        var j := FillFromFirst(processed, free[i], n, nodes[i], addr, dest);
        GreedyStep(dests, nodes, free, i, n - processed, all);
        ChunkStep(addrs, src, free, i, n - processed, sources);
        assert n - (processed + j) == n - processed - j;
        dests, addrs := dests + Repeat(nodes[i], j), addrs + src[..j];
        processed := processed + j;
        i := i + 1;
      }
      GreedyDone(nodes[i..], free[i..], n - processed);
      ChunkDone(src, free[i..], n - processed);
      assert dests + [] == dests && addrs + [] == addrs;
    }

    /** The entries of a SWITCH of size `n`. */
    ghost function SwitchList(n: nat): (r: seq<AddrInfo>)
      reads candidates
      requires 2 * n + 1 <= candidates.Length
      ensures |r| == 2 * n + 1
    {
      candidates[..2 * n + 1]
    }

    /** One round of the DRAM -> NVRAM direction, the one with index `r`. */
    method DramRound(n: nat, done: nat, r: nat, free: nat -> seq<nat>, addr: array<nat>, dest: array<int>, call: nat,
                     outcome: nat -> bool)
      returns (processed: nat, e: nat, batches: seq<Batch>)
      requires n == addr.Length == dest.Length && 2 * n + 1 < candidates.Length
      requires Readings(NVRAM_NODES, free) && done == Done(NVRAM_NODES, free, n, r)
      requires DramSlotsFilled(SwitchList(n), n, free, r, addr[..done], dest[..done])
      modifies addr, dest
      ensures processed == Done(NVRAM_NODES, free, n, r + 1) <= n
      ensures DramSlotsFilled(SwitchList(n), n, free, r + 1, addr[..processed], dest[..processed])
      ensures DramPart(SwitchList(n), n, free, outcome, r, call, batches)
      ensures e == FailedTotal(batches)
    {
      hide Greedy, ChunkAddrs, Submitted, PidsOf, AddrsOf, Done, DestSlots, DramSlots, FailedTotal;
      ghost var src := AddrsOf(candidates[n + 1..2 * n + 1]);
      assert SwitchList(n)[n + 1..] == candidates[n + 1..2 * n + 1];
      DramSlotsNext(src, free, n, r);
      processed := AssignDramNodes(NVRAM_NODES, free(r), done, n, addr, dest);
      e, batches := 0, [];
      NothingFailed();
      if done < processed {
        e, batches := SubmitRuns(n + 1, processed, addr, dest, call, outcome);
        assert SwitchList(n)[n + 1..][..processed] == candidates[n + 1..n + 1 + processed];
      }
    }

    /** One round of the NVRAM -> DRAM direction. */
    method NvramRound(n: nat, done: nat, r: nat, free: nat -> seq<nat>, addr: array<nat>, dest: array<int>, call: nat,
                      outcome: nat -> bool)
      returns (processed: nat, e: nat, batches: seq<Batch>)
      requires n == addr.Length == dest.Length && 2 * n + 1 < candidates.Length
      requires Readings(DRAM_NODES, free) && done == Done(DRAM_NODES, free, n, r)
      requires NvramSlotsFilled(SwitchList(n), n, free, r, addr[..done], dest[..done])
      modifies addr, dest
      ensures processed == Done(DRAM_NODES, free, n, r + 1) <= n
      ensures NvramSlotsFilled(SwitchList(n), n, free, r + 1, addr[..processed], dest[..processed])
      ensures NvramPart(SwitchList(n), n, free, outcome, r, call, batches)
      ensures e == FailedTotal(batches)
    {
      hide Greedy, Submitted, PidsOf, AddrsOf, Done, DestSlots, FailedTotal;
      NvramSlotsNext(free, n, r);
      processed := AssignNodes(DRAM_NODES, free(r), done, n, addr, dest);
      AddrsOfJoin([], SwitchList(n)[..done], candidates[done..processed], SwitchList(n)[..processed]);
      NothingBefore([], AddrsOf(SwitchList(n)[..done]));
      NothingBefore([], AddrsOf(SwitchList(n)[..processed]));
      e, batches := 0, [];
      NothingFailed();
      if done < processed {
        e, batches := SubmitRuns(0, processed, addr, dest, call, outcome);
        assert SwitchList(n)[..processed] == candidates[0..processed];
      }
    }

    /** `do_switch`: exchanges the `n` NVRAM candidates in front of the separator with the `n` DRAM candidates
        behind it, in rounds, as long as a round makes progress. */
    method DoSwitch(n: nat, freeNvram: nat -> seq<nat>, freeDram: nat -> seq<nat>, outcome: nat -> bool)
      returns (total: int, rounds: seq<Round>)
      requires 2 * n + 1 < candidates.Length
      requires Readings(NVRAM_NODES, freeNvram) && Readings(DRAM_NODES, freeDram)
      ensures IsSwitch(SwitchList(n), n, freeNvram, freeDram, outcome, total, rounds)
    {
      hide Done, DramSlotsFilled, NvramSlotsFilled, DramPart, NvramPart, FailedTotal, FailedInRounds, NextCall,
        RoundsOk, CallAfter, SwitchList, NoProgress;
      ghost var list := SwitchList(n);
      var addrDram, destNvram, addrNvram, destDram := new nat[n], new int[n], new nat[n], new int[n];
      var dramMigrated, nvramMigrated, dramE, nvramE := 0, 0, 0, 0;
      var dramFree, nvramFree := true, true;
      var call := 0;
      rounds := [];
      SlotsBefore(list, freeNvram, freeDram, n, outcome);
      assert addrDram[..0] == [] && destNvram[..0] == [] && addrNvram[..0] == [] && destDram[..0] == [];
      while (dramMigrated + dramE < n || nvramMigrated + nvramE < n) && (dramFree || nvramFree)
        invariant SwitchList(n) == list
        invariant dramMigrated + dramE == Done(NVRAM_NODES, freeNvram, n, |rounds|)
        invariant nvramMigrated + nvramE == Done(DRAM_NODES, freeDram, n, |rounds|)
        invariant DramSlotsFilled(list, n, freeNvram, |rounds|, addrDram[..dramMigrated + dramE],
                                  destNvram[..dramMigrated + dramE])
        invariant NvramSlotsFilled(list, n, freeDram, |rounds|, addrNvram[..nvramMigrated + nvramE],
                                   destDram[..nvramMigrated + nvramE])
        invariant RoundsOk(list, n, freeNvram, freeDram, outcome, rounds) && call == CallAfter(rounds)
        invariant dramE + nvramE == FailedInRounds(rounds)
        invariant dramFree == !NoProgress(NVRAM_NODES, freeNvram, n, |rounds|)
        invariant nvramFree == !NoProgress(DRAM_NODES, freeDram, n, |rounds|)
        invariant forall q :: 0 <= q < |rounds| ==> !Finished(n, freeNvram, freeDram, q)
        decreases n - (dramMigrated + dramE) + n - (nvramMigrated + nvramE), dramFree || nvramFree
      {
        var r := |rounds|;
        var dramCall, dramDone := call, dramMigrated + dramE;
        var dramProcessed, dramFailed, dramBatches :=
          DramRound(n, dramDone, r, freeNvram, addrDram, destNvram, call, outcome);
        dramFree := dramDone < dramProcessed;
        call := NextCall(call, dramBatches);
        dramE := dramE + dramFailed;
        dramMigrated := dramProcessed - dramE;

        var nvramCall, nvramDone := call, nvramMigrated + nvramE;
        var nvramProcessed, nvramFailed, nvramBatches :=
          NvramRound(n, nvramDone, r, freeDram, addrNvram, destDram, call, outcome);
        nvramFree := nvramDone < nvramProcessed;
        call := NextCall(call, nvramBatches);
        nvramE := nvramE + nvramFailed;
        nvramMigrated := nvramProcessed - nvramE;

        var round := Round(dramCall, dramBatches, nvramCall, nvramBatches);
        DoneGrows(freeNvram, freeDram, n, r);
        RoundsNext(list, n, freeNvram, freeDram, outcome, rounds, round);
        rounds := rounds + [round];
      }
      total := dramMigrated + nvramMigrated;
    }

    // ---- Requests --------------------------------------------------------------------------

    /** The buffer is not one of the module's. */
    ghost predicate Apart(buffer: array<AddrInfo>)
    {
      buffer != kernel.foundAddrs && buffer != kernel.backupAddrs && buffer != kernel.switchBackupAddrs
    }

    /** The copy loop of `send_req`: each payload goes behind the previous one; an error message ends it. */
    method Reassemble(messages: seq<Message>, out: array<AddrInfo>) returns (ok: bool)
      requires |Join(messages)| <= out.Length
      modifies out
      ensures ok <==> forall i :: 0 <= i < |messages| ==> messages[i].msgType != NLMSG_ERROR
      ensures ok ==> out[..] == Join(messages) + old(out[|Join(messages)|..])
    {
      hide Spliced, Join;
      ghost var was := out[..];
      NothingJoined();
      assert messages[..0] == [] && [] + was[0..] == was;
      var at := 0;
      for i := 0 to |messages|
        invariant forall x :: 0 <= x < i ==> messages[x].msgType != NLMSG_ERROR
        invariant at == |Join(messages[..i])| <= out.Length
        invariant out[..] == Join(messages[..i]) + was[at..]
      {
        if messages[i].msgType == NLMSG_ERROR {
          return false;
        }
        JoinNext(messages, i);
        ghost var now := out[..];
        CopyPayload(messages[i].payload, out, at);
        CopiedBehind(Join(messages[..i]), was, messages[i].payload, now, out[..]);
        at := at + |messages[i].payload|;
      }
      assert messages[..|messages|] == messages;
      return true;
    }

    /** `memcpy` of one payload. */
    method CopyPayload(payload: seq<AddrInfo>, out: array<AddrInfo>, at: nat)
      requires at + |payload| <= out.Length
      modifies out
      ensures out[..] == Spliced(old(out[..]), at, payload)
    {
      hide Spliced;
      ghost var was := out[..];
      for i := 0 to |payload|
        invariant forall x {:trigger out[x]} :: 0 <= x < at || at + i <= x < out.Length ==> out[x] == was[x]
        invariant forall x {:trigger out[x]} :: at <= x < at + i ==> out[x] == payload[x - at]
      {
        out[at + i] := payload[i];
      }
      IsSpliced(was, out[..], at, payload);
    }

    /** `send_req`: sends the request and puts the entries of the reply into `out`, in order. */
    method SendReq(req: Request, alive: set<int>, out: array<AddrInfo>)
      returns (ok: bool, ghost list: seq<AddrInfo>, ghost code: AddrInfo, ghost t: Table, ghost mid: Memory)
      requires kernel.Valid() && Apart(out)
      requires out.Length >= if req.opCode == FIND_OP then MAX_N_FIND + 1 else 1
      requires req.opCode == FIND_OP ==> req.pidN >= 0
      requires req.opCode == FIND_OP && req.mode == NVRAM_CLEAR ==>
                 forall p :: p in kernel.Tasks() && p in alive ==> p in kernel.mem
      modifies kernel, kernel.taskItems, kernel.foundAddrs, kernel.backupAddrs, kernel.switchBackupAddrs, out
      ensures kernel.Valid() && ok && |list| + 1 <= out.Length
      ensures kernel.Answers(req, alive, old(kernel.View()), old(kernel.mem), list, code.pidRetval, t, mid)
      ensures out[..] == list + [code] + old(out[|list| + 1..])
    {
      hide Split, Join;
      var messages;
      messages, list, code, t, mid := kernel.HandleMessage(req, alive);
      JoinSplit(list + [code]);
      SplitFrames(list + [code], MAX_PACKETS);
      ok := Reassemble(messages, out);
    }

    /** `send_bind` and `send_unbind`: true iff the module reported success. */
    method SendBindOrUnbind(opCode: int, pid: int, alive: set<int>) returns (done: bool, ghost t: Table)
      requires kernel.Valid() && (opCode == BIND_OP || opCode == UNBIND_OP)
      modifies kernel, kernel.taskItems, kernel.foundAddrs, kernel.backupAddrs, kernel.switchBackupAddrs
      ensures kernel.Valid()
      ensures opCode == BIND_OP ==>
                && Refreshed(old(kernel.View()), alive, t)
                && done == (0 < pid <= MAX_PID_N && |t.tasks| < MAX_PIDS && pid !in t.tasks && pid in alive)
                && kernel.View() == t.(tasks := t.tasks + if done then [pid] else [])
      ensures opCode == UNBIND_OP ==>
                && Refreshed(old(kernel.View()), alive - {pid}, kernel.View())
                && done == (pid in old(kernel.Tasks()))
    {
      hide Refreshed;
      var retval := new AddrInfo[1];
      var ok;
      ghost var list, code, mid;
      ok, list, code, t, mid := SendReq(Request(opCode, pid, 0), alive, retval);
      assert retval[..][0] == code;
      done := retval[0].pidRetval == 0;
    }

    /** What the reply to a FIND request looks like: positive pids up to a code that is 0 or -1, or two halves
        with a separator between them. */
    lemma {:induction false} FindReplyShape(req: Request, alive: set<int>, v0: Table, mem0: Memory,
                                            list: seq<AddrInfo>, code: int, t: Table,
                         mid: Memory)
      returns (nvs: seq<AddrInfo>, drs: seq<AddrInfo>)
      requires kernel.Valid() && req.opCode == FIND_OP
      requires kernel.Answers(req, alive, v0, mem0, list, code, t, mid)
      ensures code == 0 || code == -1
      ensures IsSwitchReply(req.mode, t) ==> Halves(list, nvs, drs) && |nvs| == |drs| <= req.pidN && PositivePids(nvs)
      ensures !IsSwitchReply(req.mode, t) ==> nvs == list && drs == [] && PositivePids(list) && |list| <= req.pidN
    {
      hide WalkLeaves, Cycle, Halves, Primaries, Backups, Live, Distinct;
      nvs, drs := list, [];
      if IsSwitchReply(req.mode, t) {
        var cn, cd := Callback(kernel.build, NvramSwitch), Callback(kernel.build, Mem);
        var n: nat := IntMin(MAX_N_SWITCH, req.pidN);
        var vn := Cycle(cn, t.tasks, mem0, t.nvram.slot, t.nvram.addr);
        var vd := Cycle(cd, t.tasks, mid, t.dram.slot, t.dram.addr);
        var k := SwitchSize(n, |Primaries(cn, vn)|, |Backups(cn, vn)|, |Primaries(cd, vd)|, |Backups(cd, vd)|);
        nvs, drs := Selected(cn, k, vn), Selected(cd, k, vd);
        SelectedPositive(cn, k, t.tasks, mem0, t.nvram.slot, t.nvram.addr);
      } else if t.tasks != [] && IsListMode(req.mode) {
        var kind := Placement.KindOf(req.mode);
        var h := if kind.Mem? then t.dram else t.nvram;
        SelectedPositive(Callback(kernel.build, kind), IntMin(MAX_N_FIND, req.pidN) as nat, t.tasks, mem0, h.slot,
                         h.addr);
      }
    }

    /** The scan of `send_find`. */
    method ScanCandidates() returns (n: nat)
      requires exists i :: 0 <= i < candidates.Length && candidates[i].pidRetval <= 0
      ensures n < candidates.Length && n == Scan(candidates[..])
    {
      n := 0;
      while candidates[n].pidRetval > 0
        invariant n < candidates.Length
        invariant forall i :: 0 <= i < n ==> candidates[i].pidRetval > 0
        decreases candidates.Length - n
      {
        n := n + 1;
      }
      ScanUnique(candidates[..], n);
    }

    /** The first part of `send_find`: ask for pages and find the list in the reply. What is found is exactly
        the list the module built, or the NVRAM half of it. */
    method AskForPages(n: nat, mode: int, alive: set<int>)
      returns (found: nat, ghost list: seq<AddrInfo>, ghost code: AddrInfo, ghost t: Table, ghost mid: Memory)
      requires kernel.Valid() && Apart(candidates) && candidates.Length == MAX_N_FIND + 1
      requires mode == NVRAM_CLEAR ==> forall p :: p in kernel.Tasks() && p in alive ==> p in kernel.mem
      modifies kernel, kernel.taskItems, kernel.foundAddrs, kernel.backupAddrs, kernel.switchBackupAddrs, candidates
      ensures kernel.Valid()
      ensures kernel.Answers(Request(FIND_OP, n, mode), alive, old(kernel.View()), old(kernel.mem), list,
                code.pidRetval, t, mid)
      ensures |list| < candidates.Length && candidates[..|list|] == list && candidates[|list|] == code
      ensures found <= n && |list| == if IsSwitchReply(mode, t) then 2 * found + 1 else found
    {
      hide Placement.Answers, Placement.Valid, Halves, Placement.View, IsSwitchReply;
      var req := Request(FIND_OP, n, mode);
      ghost var v0, mem0 := kernel.View(), kernel.mem;
      var ok;
      ok, list, code, t, mid := SendReq(req, alive, candidates);
      ghost var nvs, drs := FindReplyShape(req, alive, v0, mem0, list, code.pidRetval, t, mid);
      CandidatesHold(list, code, candidates[..], IsSwitchReply(mode, t), nvs, drs);
      assert candidates[..][|list|].pidRetval <= 0;
      found := ScanCandidates();
    }

    /** `send_find`: migrates or switches the pages it found, and never more than were asked for. */
    method SendFind(n: nat, mode: int, alive: set<int>, freeNvram: nat -> seq<nat>, freeDram: nat -> seq<nat>,
                    outcome: nat -> bool)
      returns (migrated: int, found: nat, batches: seq<Batch>, rounds: seq<Round>, ghost list: seq<AddrInfo>,
               ghost code: AddrInfo, ghost t: Table, ghost mid: Memory)
      requires kernel.Valid() && Apart(candidates) && candidates.Length == MAX_N_FIND + 1
      requires Readings(NVRAM_NODES, freeNvram) && Readings(DRAM_NODES, freeDram)
      requires mode == NVRAM_CLEAR ==> forall p :: p in kernel.Tasks() && p in alive ==> p in kernel.mem
      modifies kernel, kernel.taskItems, kernel.foundAddrs, kernel.backupAddrs, kernel.switchBackupAddrs, candidates
      ensures kernel.Valid()
      ensures kernel.Answers(Request(FIND_OP, n, mode), alive, old(kernel.View()), old(kernel.mem), list,
                code.pidRetval, t, mid)
      ensures found <= n && |list| == if IsSwitchReply(mode, t) then 2 * found + 1 else found
      ensures FindActedOn(list, found, mode, freeNvram, freeDram, outcome, migrated, batches, rounds)
      ensures mode == DRAM_MODE ==>
                && Sends(batches, old(kernel.mem), DRAM_NODES, NVRAM_NODES, freeNvram(0), found)
                && migrated == MovedTotal(batches)
      ensures mode in {NVRAM_MODE, NVRAM_INTENSIVE_MODE, NVRAM_WRITE_MODE} ==>
                && Sends(batches, old(kernel.mem), NVRAM_NODES, DRAM_NODES, freeDram(0), found)
                && migrated == MovedTotal(batches)
      ensures mode == SWITCH_MODE ==> Exchanges(rounds, old(kernel.mem), freeNvram, found)
      ensures mode !in {DRAM_MODE, NVRAM_MODE, NVRAM_INTENSIVE_MODE, NVRAM_WRITE_MODE} ==> batches == []
      ensures mode != SWITCH_MODE ==> rounds == []
    {
      hide Placement.Answers, Placement.Valid, IsMigration, IsSwitch, Placement.View, Sends, Exchanges, MovedTotal;
      ghost var v0, mem0 := kernel.View(), kernel.mem;
      WellFormedBefore();
      found, list, code, t, mid := AskForPages(n, mode, alive);
      batches, rounds, migrated := [], [], 0;
      if found == 0 {
        NothingSent(mem0, DRAM_NODES, NVRAM_NODES, freeNvram(0), freeNvram);
        NothingSent(mem0, NVRAM_NODES, DRAM_NODES, freeDram(0), freeNvram);
        return;
      }
      assert candidates[..|list|] == list;
      if mode == DRAM_MODE {
        ListedFrom(n, mode, alive, v0, mem0, list, code.pidRetval, t, mid, DRAM_NODES);
        migrated, batches := DoMigration(DRAM_MODE, found, freeNvram(0), outcome);
        MigrationSends(list, mem0, DRAM_NODES, NVRAM_NODES, freeNvram(0), outcome, migrated, batches);
      } else if mode == NVRAM_MODE || mode == NVRAM_INTENSIVE_MODE || mode == NVRAM_WRITE_MODE {
        ListedFrom(n, mode, alive, v0, mem0, list, code.pidRetval, t, mid, NVRAM_NODES);
        migrated, batches := DoMigration(NVRAM_MODE, found, freeDram(0), outcome);
        MigrationSends(list, mem0, NVRAM_NODES, DRAM_NODES, freeDram(0), outcome, migrated, batches);
      } else if mode == SWITCH_MODE {
        NonEmptyReply(n, mode, alive, v0, mem0, list, code.pidRetval, t, mid);
        Requests.SwitchedPages(kernel, Request(FIND_OP, n, mode), alive, v0, mem0, list, code.pidRetval, t, mid, found);
        migrated, rounds := DoSwitch(found, freeNvram, freeDram, outcome);
        SwitchExchanges(list, found, mem0, freeNvram, freeDram, outcome, migrated, rounds);
      }
    }

    lemma WellFormedBefore()
      requires kernel.Valid()
      ensures WellFormed(kernel.mem)
    {
    }

    lemma {:induction false} ListedFrom(n: nat, mode: int, alive: set<int>, v0: Table, mem0: Memory,
                                        list: seq<AddrInfo>, code: int, t: Table, mid: Memory, tier: seq<int>)
      requires kernel.Valid() && mode in {DRAM_MODE, NVRAM_MODE, NVRAM_INTENSIVE_MODE, NVRAM_WRITE_MODE}
      requires tier == if mode == DRAM_MODE then DRAM_NODES else NVRAM_NODES
      requires kernel.Answers(Request(FIND_OP, n, mode), alive, v0, mem0, list, code, t, mid)
      ensures forall e :: e in list ==> PageOn(mem0, tier, e.pidRetval, e.addr)
    {
      hide Placement.Answers, Placement.Valid, PageOn;
      forall e | e in list ensures PageOn(mem0, tier, e.pidRetval, e.addr) {
        Requests.ListedPages(kernel, Request(FIND_OP, n, mode), alive, v0, mem0, list, code, t, mid, e);
      }
    }

    /** With no task left, a SWITCH request finds nothing. */
    lemma {:induction false} NonEmptyReply(n: nat, mode: int, alive: set<int>, v0: Table, mem0: Memory,
                                           list: seq<AddrInfo>, code: int, t: Table,
                        mid: Memory)
      requires kernel.Valid() && list != []
      requires kernel.Answers(Request(FIND_OP, n, mode), alive, v0, mem0, list, code, t, mid)
      ensures t.tasks != []
    {
      hide WalkLeaves, Cycle, Refreshed, Halves, Primaries, Backups, WellFormed, Distinct;
    }
  }
}
