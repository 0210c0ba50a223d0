/** Which pages a SWITCH moves, and by how much it shifts the usage of the tiers. */
module SwitchEffect {
  import opened Ambix
  import opened Ring
  import opened MigrationSpec
  import opened DaemonSpec
  import opened MigrationTheorems

  // ---- The pages that calls move -----------------------------------------------------------------

  /** The run moved its x-th page: in one call with the others, or alone. */
  predicate Moves(b: Batch, x: nat) {
    x < |b.addrs| && (b.moved || (x < |b.retries| && b.retries[x]))
  }

  function PagesMovedBy(b: Batch): set<Page> {
    set x | 0 <= x < |b.addrs| && Moves(b, x) :: Page(b.pid, b.addrs[x])
  }

  /** The pages named by successful calls; naming one twice moves it once. */
  function PagesMoved(batches: seq<Batch>): set<Page> {
    if |batches| == 0 then {} else PagesMoved(batches[..|batches| - 1]) + PagesMovedBy(batches[|batches| - 1])
  }

  function ToNvram(rounds: seq<Round>): set<Page> {
    if |rounds| == 0 then {} else ToNvram(rounds[..|rounds| - 1]) + PagesMoved(rounds[|rounds| - 1].dramBatches)
  }

  function ToDram(rounds: seq<Round>): set<Page> {
    if |rounds| == 0 then {} else ToDram(rounds[..|rounds| - 1]) + PagesMoved(rounds[|rounds| - 1].nvramBatches)
  }

  /** By how many pages a SWITCH makes DRAM fuller and NVRAM emptier. */
  function Shift(rounds: seq<Round>): int {
    |ToDram(rounds)| - |ToNvram(rounds)|
  }

  /** The pages that slots name. */
  function PagesNamed(pids: seq<int>, addrs: seq<nat>): set<Page>
    requires |addrs| == |pids|
  {
    set i | 0 <= i < |pids| :: Page(pids[i], addrs[i])
  }

  ghost predicate NoFailedCall(outcome: nat -> bool) {
    forall c :: outcome(c)
  }

  ghost predicate NoneTwice(pids: seq<int>, addrs: seq<nat>)
    requires |addrs| == |pids|
  {
    forall i, j :: 0 <= i < j < |pids| ==> pids[i] != pids[j] || addrs[i] != addrs[j]
  }

  // ---- One submission ----------------------------------------------------------------------------

  lemma NamedSplit(pids: seq<int>, addrs: seq<nat>, cut: nat)
    requires |addrs| == |pids| && cut <= |pids|
    ensures PagesNamed(pids, addrs) == PagesNamed(pids[..cut], addrs[..cut]) + PagesNamed(pids[cut..], addrs[cut..])
  {
    var all, low, high := PagesNamed(pids, addrs), PagesNamed(pids[..cut], addrs[..cut]),
        PagesNamed(pids[cut..], addrs[cut..]);
    forall p | p in all ensures p in low + high {
      var i :| 0 <= i < |pids| && p == Page(pids[i], addrs[i]);
      if i < cut {
        assert p == Page(pids[..cut][i], addrs[..cut][i]);
      } else {
        assert p == Page(pids[cut..][i - cut], addrs[cut..][i - cut]);
      }
    }
    forall p | p in high ensures p in all {
      var i :| 0 <= i < |pids[cut..]| && p == Page(pids[cut..][i], addrs[cut..][i]);
      assert p == Page(pids[cut + i], addrs[cut + i]);
    }
  }

  lemma RunNames(b: Batch, pids: seq<int>, outcome: nat -> bool)
    requires |pids| == |b.addrs| && FollowsOutcomes(b, outcome)
    requires forall x :: 0 <= x < |pids| ==> pids[x] == b.pid
    ensures PagesMovedBy(b) <= PagesNamed(pids, b.addrs)
    ensures NoFailedCall(outcome) ==> PagesMovedBy(b) == PagesNamed(pids, b.addrs)
  {
    forall p | p in PagesMovedBy(b) ensures p in PagesNamed(pids, b.addrs) {
      var x :| 0 <= x < |b.addrs| && Moves(b, x) && p == Page(b.pid, b.addrs[x]);
      assert p == Page(pids[x], b.addrs[x]);
    }
    if NoFailedCall(outcome) {
      assert outcome(b.call);
      forall p | p in PagesNamed(pids, b.addrs) ensures p in PagesMovedBy(b) {
        var x :| 0 <= x < |pids| && p == Page(pids[x], b.addrs[x]);
        assert Moves(b, x);
      }
    }
  }

  /** The call for a run comes right after the calls for the run before it. */
  lemma {:induction false} RunsInTurn(pids: seq<int>, addrs: seq<nat>, nodes: seq<int>, call: nat,
                                      outcome: nat -> bool, batches: seq<Batch>, k: nat)
    requires |addrs| == |pids| && |nodes| == |pids| && k < |batches|
    requires Submitted(pids, addrs, nodes, call, outcome, batches)
    ensures FollowsOutcomes(batches[k], outcome)
    ensures k == 0 ==> batches[k].call == call
    ensures k > 0 ==> batches[k].call == batches[k - 1].call + 1 + |batches[k - 1].retries|
  {
    hide FollowsOutcomes;
    var last := |batches| - 1;
    var cut := |pids| - |batches[last].addrs|;
    if k < last {
      RunsInTurn(pids[..cut], addrs[..cut], nodes[..cut], call, outcome, batches[..last], k);
    }
  }

  /** The call for the whole run succeeds, or the call after it for the x-th page does. */
  predicate SomeCallSucceeds(b: Batch, outcome: nat -> bool, x: nat) {
    outcome(b.call) || outcome(b.call + 1 + x)
  }

  /** For how many of the first `n` pages of a run that is so. */
  function Successes(b: Batch, outcome: nat -> bool, n: nat): (c: nat)
    ensures c <= n
  {
    if n == 0 then 0 else Successes(b, outcome, n - 1) + if SomeCallSucceeds(b, outcome, n - 1) then 1 else 0
  }

  lemma {:induction false} SuccessesOfRun(b: Batch, outcome: nat -> bool, n: nat)
    requires FollowsOutcomes(b, outcome) && n <= |b.addrs|
    ensures Successes(b, outcome, n) == if b.moved then n else CountTrue(b.retries[..n])
  {
    if n > 0 {
      SuccessesOfRun(b, outcome, n - 1);
      if !b.moved {
        assert b.retries[..n][..n - 1] == b.retries[..n - 1];
      }
    }
  }

  lemma {:induction false} AllSuccesses(b: Batch, outcome: nat -> bool, n: nat)
    ensures Successes(b, outcome, n) == n <==> forall x :: 0 <= x < n ==> SomeCallSucceeds(b, outcome, x)
  {
    hide SomeCallSucceeds;
    if n > 0 {
      AllSuccesses(b, outcome, n - 1);
    }
  }

  /** A page of a run moves when the call for the run succeeds, or else when its own call does; the number reported
      counts these pages, so that a failed run whose single calls all succeed moves every page. */
  lemma {:induction false} RunOutcomes(pids: seq<int>, addrs: seq<nat>, nodes: seq<int>, call: nat,
                                       outcome: nat -> bool, batches: seq<Batch>, k: nat)
    requires |addrs| == |pids| && |nodes| == |pids| && k < |batches|
    requires Submitted(pids, addrs, nodes, call, outcome, batches)
    ensures var b := batches[k];
            && (forall x :: 0 <= x < |b.addrs| ==> (Moves(b, x) <==> SomeCallSucceeds(b, outcome, x)))
            && MovedOf(b) == Successes(b, outcome, |b.addrs|)
            && (MovedOf(b) == |b.addrs| <==> forall x :: 0 <= x < |b.addrs| ==> SomeCallSucceeds(b, outcome, x))
            && (MovedOf(b) == |b.addrs| ==>
                  PagesMovedBy(b) == set x | 0 <= x < |b.addrs| :: Page(b.pid, b.addrs[x]))
    ensures batches[k].call ==
            if k == 0 then call
            else batches[k - 1].call + 1 + if outcome(batches[k - 1].call) then 0 else |batches[k - 1].addrs|
  {
    hide Submitted, CountTrue;
    var b := batches[k];
    RunsInTurn(pids, addrs, nodes, call, outcome, batches, k);
    if k > 0 {
      RunsInTurn(pids, addrs, nodes, call, outcome, batches, k - 1);
    }
    SuccessesOfRun(b, outcome, |b.addrs|);
    AllSuccesses(b, outcome, |b.addrs|);
    if !b.moved {
      assert b.retries[..|b.addrs|] == b.retries;
    }
    if MovedOf(b) == |b.addrs| {
      forall x | 0 <= x < |b.addrs| ensures Moves(b, x) {
        assert SomeCallSucceeds(b, outcome, x);
      }
    }
  }

  /** A submission moves only pages that its slots name, and all of them when no call fails. */
  lemma {:induction false} SubmissionMoves(pids: seq<int>, addrs: seq<nat>, nodes: seq<int>, call: nat,
                                           outcome: nat -> bool, batches: seq<Batch>)
    requires |addrs| == |pids| && |nodes| == |pids|
    requires Submitted(pids, addrs, nodes, call, outcome, batches)
    ensures PagesMoved(batches) <= PagesNamed(pids, addrs)
    ensures NoFailedCall(outcome) ==> PagesMoved(batches) == PagesNamed(pids, addrs)
  {
    if |batches| > 0 {
      hide PagesNamed, PagesMovedBy, NoFailedCall, FollowsOutcomes;
      var b := batches[|batches| - 1];
      var cut := |pids| - |b.addrs|;
      SubmissionMoves(pids[..cut], addrs[..cut], nodes[..cut], call, outcome, batches[..|batches| - 1]);
      RunNames(b, pids[cut..], outcome);
      NamedSplit(pids, addrs, cut);
    }
  }

  lemma {:induction false} NamedCount(pids: seq<int>, addrs: seq<nat>)
    requires |addrs| == |pids|
    ensures |PagesNamed(pids, addrs)| <= |pids|
    ensures NoneTwice(pids, addrs) ==> |PagesNamed(pids, addrs)| == |pids|
  {
    if |pids| > 0 {
      var n := |pids| - 1;
      NamedCount(pids[..n], addrs[..n]);
      NamedSplit(pids, addrs, n);
      NamedOne(pids[n..], addrs[n..]);
    }
  }

  lemma NamedOne(pids: seq<int>, addrs: seq<nat>)
    requires |addrs| == |pids| == 1
    ensures PagesNamed(pids, addrs) == {Page(pids[0], addrs[0])}
  {
  }

  // ---- All rounds --------------------------------------------------------------------------------

  /** What the slots of the two directions name after `r` rounds. */
  ghost function DramNamed(list: seq<AddrInfo>, n: nat, free: nat -> seq<nat>, r: nat): set<Page>
    requires |list| == 2 * n + 1 && Readings(NVRAM_NODES, free)
  {
    PagesNamed(PidsOf(list[n + 1..][..Done(NVRAM_NODES, free, n, r)]),
               DramSlots(AddrsOf(list[n + 1..]), NVRAM_NODES, free, n, r))
  }

  ghost function NvramNamed(list: seq<AddrInfo>, n: nat, free: nat -> seq<nat>, r: nat): set<Page>
    requires |list| == 2 * n + 1 && Readings(DRAM_NODES, free)
  {
    var v := Done(DRAM_NODES, free, n, r);
    PagesNamed(PidsOf(list[..v]), AddrsOf(list[..v]))
  }

  lemma DramNamedGrows(list: seq<AddrInfo>, n: nat, free: nat -> seq<nat>, r: nat)
    requires |list| == 2 * n + 1 && Readings(NVRAM_NODES, free)
    ensures DramNamed(list, n, free, r) <= DramNamed(list, n, free, r + 1)
    ensures Done(NVRAM_NODES, free, n, r) == Done(NVRAM_NODES, free, n, r + 1) ==>
              DramNamed(list, n, free, r) == DramNamed(list, n, free, r + 1)
  {
    hide Done, DramSlots, PagesNamed, PidsOf, AddrsOf, Greedy, ChunkAddrs;
    var src, d, next := AddrsOf(list[n + 1..]), Done(NVRAM_NODES, free, n, r), Done(NVRAM_NODES, free, n, r + 1);
    DramSlotsNext(src, free, n, r);
    var pids, addrs := PidsOf(list[n + 1..][..next]), DramSlots(src, NVRAM_NODES, free, n, r + 1);
    NamedSplit(pids, addrs, d);
    SamePids(list[n + 1..], d, next);
    assert addrs[..d] == DramSlots(src, NVRAM_NODES, free, n, r);
    assert d == next ==> pids[..d] == pids && addrs[..d] == addrs;
  }

  lemma NvramNamedGrows(list: seq<AddrInfo>, n: nat, free: nat -> seq<nat>, r: nat)
    requires |list| == 2 * n + 1 && Readings(DRAM_NODES, free)
    ensures NvramNamed(list, n, free, r) <= NvramNamed(list, n, free, r + 1)
    ensures Done(DRAM_NODES, free, n, r) == Done(DRAM_NODES, free, n, r + 1) ==>
              NvramNamed(list, n, free, r) == NvramNamed(list, n, free, r + 1)
  {
    hide Done, PagesNamed, Greedy;
    var v, next := Done(DRAM_NODES, free, n, r), Done(DRAM_NODES, free, n, r + 1);
    NvramSlotsNext(free, n, r);
    NamedSplit(PidsOf(list[..next]), AddrsOf(list[..next]), v);
    SamePids(list, v, next);
  }

  lemma SamePids(list: seq<AddrInfo>, i: nat, j: nat)
    requires i <= j <= |list|
    ensures PidsOf(list[..j])[..i] == PidsOf(list[..i]) && AddrsOf(list[..j])[..i] == AddrsOf(list[..i])
  {
  }

  lemma {:induction false} RoundsPrefix(list: seq<AddrInfo>, n: nat, freeNvram: nat -> seq<nat>,
                                        freeDram: nat -> seq<nat>, outcome: nat -> bool, rounds: seq<Round>)
    requires |list| == 2 * n + 1 && |rounds| > 0
    requires Readings(NVRAM_NODES, freeNvram) && Readings(DRAM_NODES, freeDram)
    requires RoundsOk(list, n, freeNvram, freeDram, outcome, rounds)
    ensures RoundsOk(list, n, freeNvram, freeDram, outcome, rounds[..|rounds| - 1])
  {
    hide DramPart, NvramPart, NextCall, CallAfter;
    var q := |rounds| - 1;
    var before := rounds[..q];
    forall i | 0 <= i < q ensures before[i] == rounds[i] && CallsOn(before, i) {
      assert before[..i] == rounds[..i] && CallsOn(rounds, i);
    }
  }

  lemma MovedUpTo(rounds: seq<Round>)
    requires |rounds| > 0
    ensures ToNvram(rounds) == ToNvram(rounds[..|rounds| - 1]) + PagesMoved(rounds[|rounds| - 1].dramBatches)
    ensures ToDram(rounds) == ToDram(rounds[..|rounds| - 1]) + PagesMoved(rounds[|rounds| - 1].nvramBatches)
  {
  }

  /** Over all rounds, a SWITCH moves only pages that its slots name, and all of them when no call fails. */
  lemma {:induction false} RoundsMove(list: seq<AddrInfo>, n: nat, freeNvram: nat -> seq<nat>,
                                      freeDram: nat -> seq<nat>, outcome: nat -> bool, rounds: seq<Round>)
    requires |list| == 2 * n + 1
    requires Readings(NVRAM_NODES, freeNvram) && Readings(DRAM_NODES, freeDram)
    requires RoundsOk(list, n, freeNvram, freeDram, outcome, rounds)
    ensures var dn, vn := DramNamed(list, n, freeNvram, |rounds|), NvramNamed(list, n, freeDram, |rounds|);
            && ToNvram(rounds) <= dn && ToDram(rounds) <= vn
            && (NoFailedCall(outcome) ==> ToNvram(rounds) == dn && ToDram(rounds) == vn)
  {
    if |rounds| == 0 {
      assert DramNamed(list, n, freeNvram, 0) == {} && NvramNamed(list, n, freeDram, 0) == {};
    } else {
      hide RoundsOk, DramNamed, NvramNamed, Done, NoFailedCall, PagesMoved, ToNvram, ToDram;
      MovedUpTo(rounds);
      var q := |rounds| - 1;
      RoundsPrefix(list, n, freeNvram, freeDram, outcome, rounds);
      RoundsMove(list, n, freeNvram, freeDram, outcome, rounds[..q]);
      DramNamedGrows(list, n, freeNvram, q);
      NvramNamedGrows(list, n, freeDram, q);
      LastRoundMoves(list, n, freeNvram, freeDram, outcome, rounds);
      var last := rounds[q];
      MoreMoved(ToNvram(rounds[..q]), PagesMoved(last.dramBatches), DramNamed(list, n, freeNvram, q),
                DramNamed(list, n, freeNvram, q + 1));
      MoreMoved(ToDram(rounds[..q]), PagesMoved(last.nvramBatches), NvramNamed(list, n, freeDram, q),
                NvramNamed(list, n, freeDram, q + 1));
    }
  }

  lemma MoreMoved(moved: set<Page>, more: set<Page>, named: set<Page>, next: set<Page>)
    requires moved <= named <= next && more <= next
    ensures moved + more <= next
    ensures moved == named && (more == next || (more == {} && named == next)) ==> moved + more == next
  {
  }

  lemma {:induction false} LastRoundMoves(list: seq<AddrInfo>, n: nat, freeNvram: nat -> seq<nat>,
                                          freeDram: nat -> seq<nat>, outcome: nat -> bool, rounds: seq<Round>)
    requires |list| == 2 * n + 1 && |rounds| > 0
    requires Readings(NVRAM_NODES, freeNvram) && Readings(DRAM_NODES, freeDram)
    requires RoundsOk(list, n, freeNvram, freeDram, outcome, rounds)
    ensures var q := |rounds| - 1;
            var d, v := PagesMoved(rounds[q].dramBatches), PagesMoved(rounds[q].nvramBatches);
            && d <= DramNamed(list, n, freeNvram, q + 1) && v <= NvramNamed(list, n, freeDram, q + 1)
            && (NoFailedCall(outcome) ==>
                  && (d == DramNamed(list, n, freeNvram, q + 1)
                      || (d == {} && Done(NVRAM_NODES, freeNvram, n, q) == Done(NVRAM_NODES, freeNvram, n, q + 1)))
                  && (v == NvramNamed(list, n, freeDram, q + 1)
                      || (v == {} && Done(DRAM_NODES, freeDram, n, q) == Done(DRAM_NODES, freeDram, n, q + 1))))
  {
    hide Submitted, Done, DestSlots, DramSlots, PagesNamed, NoFailedCall;
    var q := |rounds| - 1;
    var d, v := Done(NVRAM_NODES, freeNvram, n, q + 1), Done(DRAM_NODES, freeDram, n, q + 1);
    var last := rounds[q];
    DoneGrows(freeNvram, freeDram, n, q);
    assert DramPart(list, n, freeNvram, outcome, q, last.dramCall, last.dramBatches);
    assert NvramPart(list, n, freeDram, outcome, q, last.nvramCall, last.nvramBatches);
    if Done(NVRAM_NODES, freeNvram, n, q) < d {
      SubmissionMoves(PidsOf(list[n + 1..][..d]), DramSlots(AddrsOf(list[n + 1..]), NVRAM_NODES, freeNvram, n, q + 1),
                      DestSlots(NVRAM_NODES, freeNvram, n, q + 1), last.dramCall, outcome, last.dramBatches);
    }
    if Done(DRAM_NODES, freeDram, n, q) < v {
      SubmissionMoves(PidsOf(list[..v]), AddrsOf(list[..v]), DestSlots(DRAM_NODES, freeDram, n, q + 1),
                      last.nvramCall, outcome, last.nvramBatches);
    }
  }

  // ---- The net effect ----------------------------------------------------------------------------

  /** No SWITCH of `n` moves more than `n` pages in either direction. */
  lemma {:induction false} SwitchWithinSize(list: seq<AddrInfo>, n: nat, freeNvram: nat -> seq<nat>,
                                            freeDram: nat -> seq<nat>, outcome: nat -> bool, rounds: seq<Round>)
    requires |list| == 2 * n + 1
    requires Readings(NVRAM_NODES, freeNvram) && Readings(DRAM_NODES, freeDram)
    requires RoundsOk(list, n, freeNvram, freeDram, outcome, rounds)
    ensures |ToNvram(rounds)| <= Done(NVRAM_NODES, freeNvram, n, |rounds|) <= n
    ensures |ToDram(rounds)| <= Done(DRAM_NODES, freeDram, n, |rounds|) <= n
  {
    hide RoundsOk, Done, DramSlots, PagesNamed, ToNvram, ToDram;
    var d, v := Done(NVRAM_NODES, freeNvram, n, |rounds|), Done(DRAM_NODES, freeDram, n, |rounds|);
    RoundsMove(list, n, freeNvram, freeDram, outcome, rounds);
    NamedCount(PidsOf(list[n + 1..][..d]), DramSlots(AddrsOf(list[n + 1..]), NVRAM_NODES, freeNvram, n, |rounds|));
    NamedCount(PidsOf(list[..v]), AddrsOf(list[..v]));
    Smaller(ToNvram(rounds), DramNamed(list, n, freeNvram, |rounds|));
    Smaller(ToDram(rounds), NvramNamed(list, n, freeDram, |rounds|));
  }

  lemma {:induction false} Smaller(a: set<Page>, b: set<Page>)
    requires a <= b
    ensures |a| <= |b|
    decreases a
  {
    if a != {} {
      var x :| x in a;
      Smaller(a - {x}, b - {x});
    }
  }

  lemma {:induction false} ContributionsOfOneNode(node: int, free: nat -> seq<nat>, n: nat, r: nat)
    requires Readings([node], free)
    ensures Contributions([node], free, n, r) == Productive([node], free, n, r)
  {
    if r == 0 {
      NothingContributes([node], free, n);
    } else {
      hide Greedy, Contributing, Done, Contributions, Productive, Readings;
      ContributionsOfOneNode(node, free, n, r - 1);
      OneNodeStep(node, free, n, r - 1);
    }
  }

  lemma OneNodeStep(node: int, free: nat -> seq<nat>, n: nat, r: nat)
    requires Readings([node], free)
    ensures Contributions([node], free, n, r + 1) - Contributions([node], free, n, r) ==
            Productive([node], free, n, r + 1) - Productive([node], free, n, r)
  {
    hide Greedy, Contributing, Done, Contributions, Productive;
    RoundStep([node], free, n, r);
    OneNodeContributes(node, free(r), n - Done([node], free, n, r));
  }

  lemma NothingContributes(nodes: seq<int>, free: nat -> seq<nat>, n: nat)
    requires Readings(nodes, free)
    ensures Contributions(nodes, free, n, 0) == Productive(nodes, free, n, 0) == 0
  {
  }

  lemma RoundStep(nodes: seq<int>, free: nat -> seq<nat>, n: nat, r: nat)
    requires Readings(nodes, free)
    ensures var d := Done(nodes, free, n, r);
            && Contributions(nodes, free, n, r + 1) ==
                 Contributions(nodes, free, n, r) + Contributing(free(r), n - d)
            && Productive(nodes, free, n, r + 1) ==
                 Productive(nodes, free, n, r) + if |Greedy(nodes, free(r), n - d)| > 0 then 1 else 0
  {
    hide Greedy, Contributing;
  }

  lemma OneNodeContributes(node: int, free: seq<nat>, n: nat)
    requires |free| == 1
    ensures Contributing(free, n) == if |Greedy([node], free, n)| > 0 then 1 else 0
  {
    var t: nat := IntMin(free[0], n);
    assert free[1..] == [] && [node][1..] == [];
    assert Greedy([], [], n - t) == [] && Contributing([], n - t) == 0;
  }

  /** When no call fails and pages get slots towards NVRAM in at most one round, a SWITCH of different entries moves
      exactly one page for every slot, so that its shift is the difference of the numbers of slots. */
  lemma {:induction false} SwitchShift(list: seq<AddrInfo>, n: nat, freeNvram: nat -> seq<nat>,
                                       freeDram: nat -> seq<nat>, outcome: nat -> bool, rounds: seq<Round>)
    requires |list| == 2 * n + 1
    requires Readings(NVRAM_NODES, freeNvram) && Readings(DRAM_NODES, freeDram)
    requires RoundsOk(list, n, freeNvram, freeDram, outcome, rounds) && NoFailedCall(outcome)
    requires Productive(NVRAM_NODES, freeNvram, n, |rounds|) <= 1
    requires NoneTwice(PidsOf(list[..n]), AddrsOf(list[..n]))
    requires NoneTwice(PidsOf(list[n + 1..]), AddrsOf(list[n + 1..]))
    ensures var d, v := Done(NVRAM_NODES, freeNvram, n, |rounds|), Done(DRAM_NODES, freeDram, n, |rounds|);
            && ToNvram(rounds) == PagesNamed(PidsOf(list[n + 1..][..d]), AddrsOf(list[n + 1..][..d]))
            && ToDram(rounds) == PagesNamed(PidsOf(list[..v]), AddrsOf(list[..v]))
            && Shift(rounds) == v - d
  {
    hide RoundsOk, Done, DramSlots, PagesNamed, ToNvram, ToDram, NoFailedCall, Contributions, Productive;
    var d, v := Done(NVRAM_NODES, freeNvram, n, |rounds|), Done(DRAM_NODES, freeDram, n, |rounds|);
    var src := AddrsOf(list[n + 1..]);
    RoundsMove(list, n, freeNvram, freeDram, outcome, rounds);
    ContributionsOfOneNode(NVRAM_NODES[0], freeNvram, n, |rounds|);
    DramSlotsExact(src, NVRAM_NODES, freeNvram, n, |rounds|);
    assert AddrsOf(list[n + 1..][..d]) == src[..d];
    NamedCount(PidsOf(list[n + 1..][..d]), src[..d]);
    NamedCount(PidsOf(list[..v]), AddrsOf(list[..v]));
  }

  /** With room for all pages on both tiers from the beginning and no failed call, a SWITCH of different entries
      leaves the usages as they were. */
  lemma {:induction false} RoomyWithoutShift(list: seq<AddrInfo>, n: nat, freeNvram: nat -> seq<nat>,
                                             freeDram: nat -> seq<nat>, outcome: nat -> bool, total: int,
                                             rounds: seq<Round>)
    requires |list| == 2 * n + 1 && n > 0
    requires Readings(NVRAM_NODES, freeNvram) && Readings(DRAM_NODES, freeDram)
    requires IsSwitch(list, n, freeNvram, freeDram, outcome, total, rounds) && NoFailedCall(outcome)
    requires Sum(freeNvram(0)) >= n && Sum(freeDram(0)) >= n
    requires NoneTwice(PidsOf(list[..n]), AddrsOf(list[..n]))
    requires NoneTwice(PidsOf(list[n + 1..]), AddrsOf(list[n + 1..]))
    ensures |ToNvram(rounds)| == |ToDram(rounds)| == n && Shift(rounds) == 0
  {
    hide RoundsOk, Done, DramSlots, PagesNamed, ToNvram, ToDram, NoFailedCall, Productive;
    NothingDoneFirst(NVRAM_NODES, freeNvram, n);
    if |rounds| == 0 {
      assert false;
    }
    RoomForAll(NVRAM_NODES, freeNvram, n, |rounds|);
    RoomForAll(DRAM_NODES, freeDram, n, |rounds|);
    SwitchShift(list, n, freeNvram, freeDram, outcome, rounds);
    NamedCount(PidsOf(list[..n]), AddrsOf(list[..n]));
    assert list[..n + 1 + n] == list;
  }

  lemma NothingDoneFirst(nodes: seq<int>, free: nat -> seq<nat>, n: nat)
    requires Readings(nodes, free)
    ensures Done(nodes, free, n, 0) == 0
  {
  }

  lemma {:induction false} RoomForAll(nodes: seq<int>, free: nat -> seq<nat>, n: nat, r: nat)
    requires Readings(nodes, free) && Sum(free(0)) >= n && r > 0
    ensures Done(nodes, free, n, r) == n && Productive(nodes, free, n, r) <= 1
  {
    hide Greedy;
    if r == 1 {
      GreedyLength(nodes, free(0), n);
      assert Done(nodes, free, n, 0) == 0 && Productive(nodes, free, n, 0) == 0;
    } else {
      RoomForAll(nodes, free, n, r - 1);
      GreedyLength(nodes, free(r - 1), 0);
    }
  }

  /** A SWITCH that shifts the usages although no call fails: there is room for one DRAM page in the first round,
      and in the second round the page moved in the first is submitted again in place of the other one. */
  lemma {:induction false} UnbalancedSwitch(list: seq<AddrInfo>, freeNvram: nat -> seq<nat>, freeDram: nat -> seq<nat>,
                                            outcome: nat -> bool, total: int, rounds: seq<Round>)
    requires |list| == 5 && list[3].pidRetval == list[4].pidRetval
    requires NoneTwice(PidsOf(list[..2]), AddrsOf(list[..2]))
    requires Readings(NVRAM_NODES, freeNvram) && Readings(DRAM_NODES, freeDram)
    requires freeNvram(0) == [1] && freeNvram(1)[0] >= 1 && freeDram(0) == [2]
    requires IsSwitch(list, 2, freeNvram, freeDram, outcome, total, rounds) && NoFailedCall(outcome)
    ensures |ToDram(rounds)| == 2 && |ToNvram(rounds)| == 1 && Shift(rounds) == 1
  {
    hide RoundsOk, Done, DramSlots, PagesNamed, ToNvram, ToDram, NoFailedCall;
    var src, r := AddrsOf(list[3..]), |rounds|;
    TwoRoundsNeeded(src, freeNvram, r);
    if r < 2 {
      assert false;
    }
    RoomForAll(DRAM_NODES, freeDram, 2, r);
    RoundsMove(list, 2, freeNvram, freeDram, outcome, rounds);
    var pids := PidsOf(list[3..][..2]);
    assert pids == [list[3].pidRetval, list[3].pidRetval];
    NamedTwice(list[3].pidRetval, src[0]);
    NamedCount(PidsOf(list[..2]), AddrsOf(list[..2]));
  }

  lemma NamedTwice(pid: int, addr: nat)
    ensures PagesNamed([pid, pid], [addr, addr]) == {Page(pid, addr)}
  {
    assert Page([pid, pid][0], [addr, addr][0]) == Page(pid, addr);
  }

  lemma {:induction false} TwoRoundsNeeded(src: seq<nat>, free: nat -> seq<nat>, r: nat)
    requires |src| == 2 && Readings(NVRAM_NODES, free) && free(0) == [1] && free(1)[0] >= 1
    ensures Done(NVRAM_NODES, free, 2, 0) == 0 && Done(NVRAM_NODES, free, 2, 1) == 1
    ensures r >= 2 ==> Done(NVRAM_NODES, free, 2, r) == 2 && DramSlots(src, NVRAM_NODES, free, 2, r) == [src[0], src[0]]
  {
    hide Greedy, ChunkAddrs;
    assert Done(NVRAM_NODES, free, 2, 0) == 0;
    OneFree(src, NVRAM_NODES, [1], 2);
    assert Done(NVRAM_NODES, free, 2, 1) == 1;
    if r == 2 {
      SecondRoundMispairs(src, NVRAM_NODES[0], free);
    } else if r > 2 {
      TwoRoundsNeeded(src, free, r - 1);
      GreedyLength(NVRAM_NODES, free(r - 1), 0);
      ChunkAddrsLength(src, NVRAM_NODES, free(r - 1), 0);
      assert ChunkAddrs(src, free(r - 1), 0) == [];
    }
  }
}
