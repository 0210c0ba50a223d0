/** What the daemon submits to `move_pages`: node assignment, runs of one pid, retries, and counting. */
module MigrationSpec {
  import opened Ambix

  // ---- Assigning pages to nodes ---------------------------------------------------------------

  function Repeat(node: int, n: nat): (r: seq<int>)
    ensures |r| == n && forall i :: 0 <= i < n ==> r[i] == node
  {
    seq(n, _ => node)
  }

  /** Destination nodes for up to `n` pages, filling node after node up to its reading of free pages. */
  function Greedy(nodes: seq<int>, free: seq<nat>, n: nat): (r: seq<int>)
    requires |free| == |nodes|
    ensures |r| <= n
  {
    if |nodes| == 0 then []
    else
      var t: nat := IntMin(free[0], n);
      Repeat(nodes[0], t) + Greedy(nodes[1..], free[1..], n - t)
  }

  /** One more node filled: the equation a loop over the nodes uses. */
  lemma GreedyStep(done: seq<int>, nodes: seq<int>, free: seq<nat>, i: nat, n: nat, all: seq<int>)
    requires |free| == |nodes| && i < |nodes|
    requires done + Greedy(nodes[i..], free[i..], n) == all
    ensures var t: nat := IntMin(free[i], n);
            done + Repeat(nodes[i], t) + Greedy(nodes[i + 1..], free[i + 1..], n - t) == all
  {
    assert nodes[i..][1..] == nodes[i + 1..] && free[i..][1..] == free[i + 1..];
  }

  lemma GreedyLengths(before: seq<int>, nodes: seq<int>, free: seq<nat>, n: nat)
    requires |free| == |nodes|
    ensures |before + Greedy(nodes, free, n)| == |before| + |Greedy(nodes, free, n)|
  {
  }

  lemma {:induction false} GreedyDone(nodes: seq<int>, free: seq<nat>, n: nat)
    requires |free| == |nodes| && (|nodes| == 0 || n == 0)
    ensures Greedy(nodes, free, n) == []
  {
    if |nodes| > 0 {
      GreedyDone(nodes[1..], free[1..], 0);
    }
  }

  function Sum(free: seq<nat>): nat {
    if |free| == 0 then 0 else free[0] + Sum(free[1..])
  }

  /** As many pages get a node as there are pages and free pages. */
  lemma {:induction false} GreedyLength(nodes: seq<int>, free: seq<nat>, n: nat)
    requires |free| == |nodes|
    ensures |Greedy(nodes, free, n)| == IntMin(n, Sum(free))
  {
    if |nodes| > 0 {
      GreedyLength(nodes[1..], free[1..], n - IntMin(free[0], n) as nat);
    }
  }

  function Count(s: seq<int>, x: int): nat {
    if |s| == 0 then 0 else (if s[0] == x then 1 else 0) + Count(s[1..], x)
  }

  lemma {:induction false} CountConcat(a: seq<int>, b: seq<int>, x: int)
    ensures Count(a + b, x) == Count(a, x) + Count(b, x)
  {
    if |a| == 0 {
      assert a + b == b;
    } else {
      CountConcat(a[1..], b, x);
      assert (a + b)[1..] == a[1..] + b;
    }
  }

  lemma {:induction false} CountRepeat(node: int, n: nat, x: int)
    ensures Count(Repeat(node, n), x) == if node == x then n else 0
  {
    if n > 0 {
      CountRepeat(node, n - 1, x);
      assert Repeat(node, n)[1..] == Repeat(node, n - 1);
    }
  }

  lemma {:induction false} GreedyOnlyNodes(nodes: seq<int>, free: seq<nat>, n: nat, x: int)
    requires |free| == |nodes| && x !in nodes
    ensures Count(Greedy(nodes, free, n), x) == 0
  {
    if |nodes| > 0 {
      var t: nat := IntMin(free[0], n);
      GreedyOnlyNodes(nodes[1..], free[1..], n - t, x);
      CountConcat(Repeat(nodes[0], t), Greedy(nodes[1..], free[1..], n - t), x);
      CountRepeat(nodes[0], t, x);
    }
  }

  /** No node of a list without repetitions is assigned more pages than it had free. */
  lemma {:induction false} GreedyWithinFree(nodes: seq<int>, free: seq<nat>, n: nat, i: nat)
    requires |free| == |nodes| && i < |nodes|
    requires forall a, b :: 0 <= a < b < |nodes| ==> nodes[a] != nodes[b]
    ensures Count(Greedy(nodes, free, n), nodes[i]) <= free[i]
  {
    var t: nat := IntMin(free[0], n);
    CountConcat(Repeat(nodes[0], t), Greedy(nodes[1..], free[1..], n - t), nodes[i]);
    CountRepeat(nodes[0], t, nodes[i]);
    if i == 0 {
      GreedyOnlyNodes(nodes[1..], free[1..], n - t, nodes[0]);
    } else {
      GreedyWithinFree(nodes[1..], free[1..], n - t, i - 1);
    }
  }

  // ---- Submitting runs -------------------------------------------------------------------------

  /** One run of pages of one pid: the call for all of it, and a call for each page if that one failed.
      `call` is the number of the first call; `moved` and `retries` are the outcomes. */
  datatype Batch = Batch(pid: int, addrs: seq<nat>, nodes: seq<int>, call: nat, moved: bool, retries: seq<bool>)

  function CountTrue(s: seq<bool>): (n: nat)
    ensures n <= |s|
  {
    if |s| == 0 then 0 else CountTrue(s[..|s| - 1]) + if s[|s| - 1] then 1 else 0
  }

  /** How many pages of a run one of its calls moved. */
  function MovedOf(b: Batch): nat {
    if b.moved then |b.addrs| else CountTrue(b.retries)
  }

  function MovedTotal(batches: seq<Batch>): nat {
    if |batches| == 0 then 0 else MovedTotal(batches[..|batches| - 1]) + MovedOf(batches[|batches| - 1])
  }

  /** The number of the first call after `batches` when their first call was `call`. */
  function NextCall(call: nat, batches: seq<Batch>): nat {
    if |batches| == 0 then call
    else batches[|batches| - 1].call + 1 + |batches[|batches| - 1].retries|
  }

  /** The outcomes in a run are those of consecutive calls, the single ones only after a failure. */
  ghost predicate FollowsOutcomes(b: Batch, outcome: nat -> bool) {
    && b.moved == outcome(b.call)
    && (b.moved ==> b.retries == [])
    && (!b.moved ==> |b.retries| == |b.addrs| && forall x :: 0 <= x < |b.addrs| ==>
         b.retries[x] == outcome(b.call + 1 + x))
  }

  /** `batches` submit the pages (pids[i], addrs[i]) to nodes[i]: in order, each page in exactly one run,
      each run a longest one of equal pids. */
  ghost predicate Submitted(pids: seq<int>, addrs: seq<nat>, nodes: seq<int>, call: nat, outcome: nat -> bool,
                            batches: seq<Batch>)
    requires |addrs| == |pids| && |nodes| == |pids|
  {
    if |batches| == 0 then |pids| == 0
    else
      var b := batches[|batches| - 1];
      var before := batches[..|batches| - 1];
      var cut := |pids| - |b.addrs|;
      && 1 <= |b.addrs| <= |pids| && |b.nodes| == |b.addrs|
      && b.addrs == addrs[cut..] && b.nodes == nodes[cut..]
      && (forall x :: cut <= x < |pids| ==> pids[x] == b.pid)
      && (cut > 0 ==> pids[cut - 1] != b.pid)
      && b.call == NextCall(call, before)
      && FollowsOutcomes(b, outcome)
      && Submitted(pids[..cut], addrs[..cut], nodes[..cut], call, outcome, before)
  }

  lemma NothingSubmitted(call: nat, outcome: nat -> bool)
    ensures Submitted([], [], [], call, outcome, []) && NextCall(call, []) == call && FailedTotal([]) == 0
  {
  }

  lemma Cut<T>(s: seq<T>, at: nat, end: nat)
    requires at <= end <= |s|
    ensures s[..end][..at] == s[..at] && s[..end][at..] == s[at..end]
  {
  }

  lemma NextCallSnoc(call: nat, batches: seq<Batch>, b: Batch)
    ensures NextCall(call, batches + [b]) == b.call + 1 + |b.retries|
  {
  }

  /** Submitting one more run. */
  lemma SubmittedNext(pids: seq<int>, addrs: seq<nat>, nodes: seq<int>, at: nat, call: nat, outcome: nat -> bool,
                      batches: seq<Batch>, b: Batch)
    requires |addrs| == |pids| && |nodes| == |pids|
    requires 1 <= |b.addrs| && at + |b.addrs| <= |pids|
    requires Submitted(pids[..at], addrs[..at], nodes[..at], call, outcome, batches)
    requires b.addrs == addrs[at..at + |b.addrs|] && b.nodes == nodes[at..at + |b.addrs|]
    requires forall x :: at <= x < at + |b.addrs| ==> pids[x] == b.pid
    requires at > 0 ==> pids[at - 1] != b.pid
    requires b.call == NextCall(call, batches) && FollowsOutcomes(b, outcome)
    ensures var end := at + |b.addrs|;
            Submitted(pids[..end], addrs[..end], nodes[..end], call, outcome, batches + [b])
    ensures FailedTotal(batches + [b]) == FailedTotal(batches) + Failed(b)
    ensures NextCall(call, batches + [b]) == b.call + 1 + |b.retries|
  {
    hide Submitted, FollowsOutcomes, NextCall, FailedTotal;
    var end := at + |b.addrs|;
    Cut(pids, at, end);
    Cut(addrs, at, end);
    Cut(nodes, at, end);
    NextCallSnoc(call, batches, b);
    FailedSnoc(batches, b);
    assert forall x :: at <= x < end ==> pids[..end][x] == pids[x];
    SubmittedSnoc(pids[..end], addrs[..end], nodes[..end], call, outcome, batches, b);
  }

  lemma {:induction false} SubmittedSnoc(pids: seq<int>, addrs: seq<nat>, nodes: seq<int>, call: nat,
                                         outcome: nat -> bool,
                      batches: seq<Batch>, b: Batch)
    requires |addrs| == |pids| && |nodes| == |pids| && 1 <= |b.addrs| <= |pids|
    requires var cut := |pids| - |b.addrs|;
             && b.addrs == addrs[cut..] && b.nodes == nodes[cut..]
             && (forall x :: cut <= x < |pids| ==> pids[x] == b.pid)
             && (cut > 0 ==> pids[cut - 1] != b.pid)
             && Submitted(pids[..cut], addrs[..cut], nodes[..cut], call, outcome, batches)
    requires b.call == NextCall(call, batches) && FollowsOutcomes(b, outcome)
    ensures Submitted(pids, addrs, nodes, call, outcome, batches + [b])
  {
    hide FollowsOutcomes, NextCall;
    assert (batches + [b])[..|batches|] == batches;
  }

  lemma FailedSnoc(batches: seq<Batch>, b: Batch)
    ensures FailedTotal(batches + [b]) == FailedTotal(batches) + Failed(b)
  {
    assert (batches + [b])[..|batches|] == batches;
  }

  function Failed(b: Batch): nat {
    if b.moved then 0 else |b.retries| - CountTrue(b.retries)
  }

  function FailedTotal(batches: seq<Batch>): nat {
    if |batches| == 0 then 0 else FailedTotal(batches[..|batches| - 1]) + Failed(batches[|batches| - 1])
  }

  /** Every submitted page either moved or is counted as an error, once. */
  lemma {:induction false} MovedAndFailed(pids: seq<int>, addrs: seq<nat>, nodes: seq<int>, call: nat,
                                          outcome: nat -> bool, batches: seq<Batch>)
    requires |addrs| == |pids| && |nodes| == |pids|
    requires Submitted(pids, addrs, nodes, call, outcome, batches)
    ensures MovedTotal(batches) + FailedTotal(batches) == |pids|
  {
    if |batches| > 0 {
      var b := batches[|batches| - 1];
      var cut := |pids| - |b.addrs|;
      MovedAndFailed(pids[..cut], addrs[..cut], nodes[..cut], call, outcome, batches[..|batches| - 1]);
    }
  }

  /** The addresses, pids and nodes that the runs name, page by page. */
  function JoinedAddrs(batches: seq<Batch>): seq<nat> {
    if |batches| == 0 then [] else JoinedAddrs(batches[..|batches| - 1]) + batches[|batches| - 1].addrs
  }

  function JoinedPids(batches: seq<Batch>): seq<int> {
    if |batches| == 0 then []
    else JoinedPids(batches[..|batches| - 1]) + Repeat(batches[|batches| - 1].pid, |batches[|batches| - 1].addrs|)
  }

  function JoinedNodes(batches: seq<Batch>): seq<int> {
    if |batches| == 0 then [] else JoinedNodes(batches[..|batches| - 1]) + batches[|batches| - 1].nodes
  }

  /** The runs partition the slots: joined in order, they name the pid, the address and the node of every slot,
      once and in order. */
  lemma {:induction false} RunsPartition(pids: seq<int>, addrs: seq<nat>, nodes: seq<int>, call: nat,
                                         outcome: nat -> bool, batches: seq<Batch>)
    requires |addrs| == |pids| && |nodes| == |pids|
    requires Submitted(pids, addrs, nodes, call, outcome, batches)
    ensures JoinedPids(batches) == pids && JoinedAddrs(batches) == addrs && JoinedNodes(batches) == nodes
  {
    if |batches| > 0 {
      var b := batches[|batches| - 1];
      var cut := |pids| - |b.addrs|;
      RunsPartition(pids[..cut], addrs[..cut], nodes[..cut], call, outcome, batches[..|batches| - 1]);
      LastJoined(batches);
      hide JoinedPids, JoinedAddrs, JoinedNodes, FollowsOutcomes, NextCall, Repeat;
      Rejoin(addrs, cut);
      Rejoin(nodes, cut);
      Rejoin(pids, cut);
      AllTheSame(pids[cut..], b.pid);
    }
  }

  lemma LastJoined(batches: seq<Batch>)
    requires |batches| > 0
    ensures var before, b := batches[..|batches| - 1], batches[|batches| - 1];
            && JoinedPids(batches) == JoinedPids(before) + Repeat(b.pid, |b.addrs|)
            && JoinedAddrs(batches) == JoinedAddrs(before) + b.addrs
            && JoinedNodes(batches) == JoinedNodes(before) + b.nodes
  {
  }

  lemma Rejoin<T>(s: seq<T>, cut: nat)
    requires cut <= |s|
    ensures s == s[..cut] + s[cut..]
  {
  }

  lemma AllTheSame(s: seq<int>, x: int)
    requires forall i :: 0 <= i < |s| ==> s[i] == x
    ensures s == Repeat(x, |s|)
  {
  }

  // ---- SWITCH: which DRAM addresses are submitted ------------------------------------------------

  /** The addresses that `do_switch` puts into the DRAM slots of one round: for every node it starts over at
      the first DRAM candidate. */
  function ChunkAddrs(src: seq<nat>, free: seq<nat>, n: nat): (r: seq<nat>)
    requires n <= |src|
    ensures |r| <= n
  {
    if |free| == 0 then []
    else
      var t: nat := IntMin(free[0], n);
      src[..t] + ChunkAddrs(src, free[1..], n - t)
  }

  lemma ChunkStep(done: seq<nat>, src: seq<nat>, free: seq<nat>, i: nat, n: nat, all: seq<nat>)
    requires n <= |src| && i < |free|
    requires done + ChunkAddrs(src, free[i..], n) == all
    ensures var t: nat := IntMin(free[i], n);
            done + src[..t] + ChunkAddrs(src, free[i + 1..], n - t) == all
  {
    assert free[i..][1..] == free[i + 1..];
  }

  lemma {:induction false} ChunkDone(src: seq<nat>, free: seq<nat>, n: nat)
    requires n <= |src| && (|free| == 0 || n == 0)
    ensures ChunkAddrs(src, free, n) == []
  {
    if |free| > 0 {
      ChunkDone(src, free[1..], 0);
    }
  }

  lemma {:induction false} ChunkAddrsLength(src: seq<nat>, nodes: seq<int>, free: seq<nat>, n: nat)
    requires n <= |src| && |free| == |nodes|
    ensures |ChunkAddrs(src, free, n)| == |Greedy(nodes, free, n)|
  {
    if |free| > 0 {
      ChunkAddrsLength(src, nodes[1..], free[1..], n - IntMin(free[0], n) as nat);
    }
  }

  /** How many nodes contribute pages to a round. */
  function Contributing(free: seq<nat>, n: nat): nat {
    if |free| == 0 then 0
    else
      var t: nat := IntMin(free[0], n);
      (if t > 0 then 1 else 0) + Contributing(free[1..], n - t)
  }

  lemma {:induction false} NoContribution(src: seq<nat>, free: seq<nat>, n: nat)
    requires n <= |src|
    ensures Contributing(free, n) == 0 <==> ChunkAddrs(src, free, n) == []
  {
    if |free| > 0 {
      NoContribution(src, free[1..], n - IntMin(free[0], n) as nat);
    }
  }

  lemma {:induction false} ChunkStartsOver(src: seq<nat>, free: seq<nat>, n: nat)
    requires n <= |src| && Contributing(free, n) > 0
    ensures |ChunkAddrs(src, free, n)| > 0 && ChunkAddrs(src, free, n)[0] == src[0]
  {
    if free[0] == 0 || n == 0 {
      ChunkStartsOver(src, free[1..], n);
    }
  }

  lemma ChunkUnfold(src: seq<nat>, free: seq<nat>, n: nat)
    requires n <= |src| && |free| > 0
    ensures var t: nat := IntMin(free[0], n);
            && ChunkAddrs(src, free, n) == src[..t] + ChunkAddrs(src, free[1..], n - t)
            && Contributing(free, n) == (if t > 0 then 1 else 0) + Contributing(free[1..], n - t)
  {
  }

  lemma SecondStart(src: seq<nat>, before: seq<nat>, chunk: seq<nat>)
    requires 0 < |before| && 0 < |chunk| && |before| + |chunk| <= |src| && chunk[0] == src[0] != src[|before|]
    ensures before + chunk != src[..|before| + |chunk|]
  {
    assert (before + chunk)[|before|] == src[0] && src[..|before| + |chunk|][|before|] == src[|before|];
  }

  /** The address of the first candidate occurs only once. */
  predicate FirstIsUnique(src: seq<nat>) {
    forall i :: 0 < i < |src| ==> src[i] != src[0]
  }

  /** The DRAM slots of a round hold the addresses of the candidates they stand for when at most one node
      contributes; with a second node the first candidate is submitted again, so that only then they do, unless
      another candidate happens to have the address of the first. */
  lemma {:induction false} ChunksAreExact(src: seq<nat>, free: seq<nat>, n: nat)
    requires n <= |src|
    ensures Contributing(free, n) <= 1 ==> ChunkAddrs(src, free, n) == src[..|ChunkAddrs(src, free, n)|]
    ensures FirstIsUnique(src) && ChunkAddrs(src, free, n) == src[..|ChunkAddrs(src, free, n)|] ==>
              Contributing(free, n) <= 1
  {
    if |free| > 0 {
      hide ChunkAddrs, Contributing;
      var t: nat := IntMin(free[0], n);
      var rest := ChunkAddrs(src, free[1..], n - t);
      ChunkUnfold(src, free, n);
      NoContribution(src, free[1..], n - t);
      if t == 0 {
        ChunksAreExact(src, free[1..], n);
        assert src[..0] + rest == rest;
      } else if Contributing(free[1..], n - t) == 0 {
        assert src[..t] + rest == src[..t];
      } else if FirstIsUnique(src) {
        ChunkStartsOver(src, free[1..], n - t);
        SecondStart(src, src[..t], rest);
      }
    }
  }

  // ---- SWITCH: rounds ----------------------------------------------------------------------------

  /** Free-page readings for the nodes of one tier, round by round. */
  ghost predicate Readings(nodes: seq<int>, free: nat -> seq<nat>) {
    forall r :: |free(r)| == |nodes|
  }

  /** How many of `n` pages have a slot after `r` rounds. */
  ghost function Done(nodes: seq<int>, free: nat -> seq<nat>, n: nat, r: nat): (d: nat)
    requires Readings(nodes, free)
    ensures d <= n
  {
    if r == 0 then 0
    else
      var d := Done(nodes, free, n, r - 1);
      d + |Greedy(nodes, free(r - 1), n - d)|
  }

  /** The destination nodes of those slots. */
  ghost function DestSlots(nodes: seq<int>, free: nat -> seq<nat>, n: nat, r: nat): (s: seq<int>)
    requires Readings(nodes, free)
    ensures |s| == Done(nodes, free, n, r)
  {
    if r == 0 then []
    else DestSlots(nodes, free, n, r - 1) + Greedy(nodes, free(r - 1), n - Done(nodes, free, n, r - 1))
  }

  /** The addresses that end up in the DRAM slots. */
  ghost function DramSlots(src: seq<nat>, nodes: seq<int>, free: nat -> seq<nat>, n: nat, r: nat): (s: seq<nat>)
    requires Readings(nodes, free) && n <= |src|
    ensures |s| == Done(nodes, free, n, r)
  {
    if r == 0 then []
    else
      var d := Done(nodes, free, n, r - 1);
      ChunkAddrsLength(src, nodes, free(r - 1), n - d);
      DramSlots(src, nodes, free, n, r - 1) + ChunkAddrs(src, free(r - 1), n - d)
  }

  /** How many times, over `r` rounds, a node contributed pages. */
  ghost function Contributions(nodes: seq<int>, free: nat -> seq<nat>, n: nat, r: nat): nat
    requires Readings(nodes, free)
  {
    if r == 0 then 0
    else Contributions(nodes, free, n, r - 1) + Contributing(free(r - 1), n - Done(nodes, free, n, r - 1))
  }

  lemma {:induction false} NothingContributed(nodes: seq<int>, free: nat -> seq<nat>, n: nat, r: nat, src: seq<nat>)
    requires Readings(nodes, free) && n <= |src|
    ensures Contributions(nodes, free, n, r) == 0 <==> Done(nodes, free, n, r) == 0
  {
    hide Greedy, ChunkAddrs, Contributing;
    if r > 0 {
      var d := Done(nodes, free, n, r - 1);
      NothingContributed(nodes, free, n, r - 1, src);
      ChunkAddrsLength(src, nodes, free(r - 1), n - d);
      NoContribution(src, free(r - 1), n - d);
    }
  }

  /** Over any number of rounds, the DRAM slots hold the addresses of the candidates they stand for when pages
      were contributed at most once, by one node in one round; and only then, unless another candidate happens to
      have the address of the first. */
  lemma {:induction false} DramSlotsExact(src: seq<nat>, nodes: seq<int>, free: nat -> seq<nat>, n: nat, r: nat)
    requires Readings(nodes, free) && n <= |src|
    ensures Contributions(nodes, free, n, r) <= 1 ==>
              DramSlots(src, nodes, free, n, r) == src[..Done(nodes, free, n, r)]
    ensures FirstIsUnique(src) && DramSlots(src, nodes, free, n, r) == src[..Done(nodes, free, n, r)] ==>
              Contributions(nodes, free, n, r) <= 1
  {
    hide Greedy, ChunkAddrs, Contributing;
    if r > 0 {
      var d := Done(nodes, free, n, r - 1);
      var before := DramSlots(src, nodes, free, n, r - 1);
      var chunk := ChunkAddrs(src, free(r - 1), n - d);
      DramSlotsExact(src, nodes, free, n, r - 1);
      NothingContributed(nodes, free, n, r - 1, src);
      NoContribution(src, free(r - 1), n - d);
      ChunkAddrsLength(src, nodes, free(r - 1), n - d);
      assert DramSlots(src, nodes, free, n, r) == before + chunk;
      if chunk == [] {
        assert before + chunk == before;
      } else if d == 0 {
        assert before + chunk == chunk;
        ChunksAreExact(src, free(r - 1), n);
      } else if FirstIsUnique(src) {
        ChunkStartsOver(src, free(r - 1), n - d);
        SecondStart(src, before, chunk);
      }
    }
  }

  /** An input where they do not: with room for one page in the first round and more in the second, the second of two
      DRAM entries is submitted with the address of the first. */
  lemma SecondRoundMispairs(src: seq<nat>, node: int, free: nat -> seq<nat>)
    requires |src| == 2 && Readings([node], free) && free(0) == [1] && free(1)[0] >= 1
    ensures DramSlots(src, [node], free, 2, 2) == [src[0], src[0]]
  {
    var nodes := [node];
    assert Done(nodes, free, 2, 0) == 0 && DramSlots(src, nodes, free, 2, 0) == [];
    OneFree(src, nodes, [1], 2);
    assert Done(nodes, free, 2, 1) == 1 && DramSlots(src, nodes, free, 2, 1) == [src[0]];
    OneFree(src, nodes, free(1), 1);
  }

  lemma OneFree(src: seq<nat>, nodes: seq<int>, free: seq<nat>, n: nat)
    requires |nodes| == |free| == 1 && n <= |src| && IntMin(free[0], n) == 1
    ensures |Greedy(nodes, free, n)| == 1 && ChunkAddrs(src, free, n) == [src[0]]
  {
    assert free[1..] == [] && nodes[1..] == [];
    assert ChunkAddrs(src, [], n - 1) == [];
    assert src[..1] + [] == [src[0]];
  }

  /** What one round of a SWITCH submitted in each direction. */
  datatype Round = Round(dramCall: nat, dramBatches: seq<Batch>, nvramCall: nat, nvramBatches: seq<Batch>)

  ghost function FailedInRounds(rounds: seq<Round>): nat {
    if |rounds| == 0 then 0
    else
      var last := rounds[|rounds| - 1];
      FailedInRounds(rounds[..|rounds| - 1]) + FailedTotal(last.dramBatches) + FailedTotal(last.nvramBatches)
  }
}
