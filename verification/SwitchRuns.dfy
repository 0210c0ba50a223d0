/** Runs of `do_switch` on tiers that nobody else uses: each reading of free pages is what the pages moved so far have
    left, so that the shift of the tiers follows from what is known before the call. */
module SwitchRuns {
  import opened Ambix
  import opened Ring
  import opened MigrationSpec
  import opened DaemonSpec
  import opened MigrationTheorems
  import opened SwitchEffect
  import T = Thresholds

  // ---- Every input has its run -------------------------------------------------------------------

  /** Where the last run of equal pids begins. */
  function LastRun(pids: seq<int>): (cut: nat)
    requires |pids| > 0
    ensures cut < |pids|
    ensures forall x :: cut <= x < |pids| ==> pids[x] == pids[cut]
    ensures cut > 0 ==> pids[cut - 1] != pids[cut]
  {
    var n := |pids| - 1;
    if n == 0 || pids[n - 1] != pids[n] then n
    else
      var cut := LastRun(pids[..n]);
      assert forall x :: cut <= x < n ==> pids[x] == pids[..n][x];
      cut
  }

  lemma {:induction false} SubmissionExists(pids: seq<int>, addrs: seq<nat>, nodes: seq<int>, call: nat,
                                            outcome: nat -> bool) returns (batches: seq<Batch>)
    requires |addrs| == |pids| && |nodes| == |pids|
    ensures Submitted(pids, addrs, nodes, call, outcome, batches)
  {
    if |pids| == 0 {
      batches := [];
      assert pids == [] && addrs == [] && nodes == [];
    } else {
      var cut := LastRun(pids);
      var before := SubmissionExists(pids[..cut], addrs[..cut], nodes[..cut], call, outcome);
      var c := NextCall(call, before);
      var k: nat := |pids| - cut;
      var retries := if outcome(c) then [] else seq(k, x requires 0 <= x < k => outcome(c + 1 + x));
      var b := Batch(pids[cut], addrs[cut..], nodes[cut..], c, outcome(c), retries);
      hide Submitted, NextCall;
      assert |pids| - |b.addrs| == cut;
      SubmittedSnoc(pids, addrs, nodes, call, outcome, before, b);
      batches := before + [b];
    }
  }

  lemma {:induction false} RoundExists(list: seq<AddrInfo>, n: nat, freeNvram: nat -> seq<nat>,
                                       freeDram: nat -> seq<nat>, outcome: nat -> bool, rounds: seq<Round>)
    returns (round: Round)
    requires |list| == 2 * n + 1
    requires Readings(NVRAM_NODES, freeNvram) && Readings(DRAM_NODES, freeDram)
    requires RoundsOk(list, n, freeNvram, freeDram, outcome, rounds)
    ensures RoundsOk(list, n, freeNvram, freeDram, outcome, rounds + [round])
  {
    hide Submitted, Done, DestSlots, DramSlots, RoundsOk, CallAfter, NextCall;
    var r := |rounds|;
    var d, v := Done(NVRAM_NODES, freeNvram, n, r + 1), Done(DRAM_NODES, freeDram, n, r + 1);
    var dramCall, dram, nvram := CallAfter(rounds), [], [];
    if Done(NVRAM_NODES, freeNvram, n, r) < d {
      dram := SubmissionExists(PidsOf(list[n + 1..][..d]),
                               DramSlots(AddrsOf(list[n + 1..]), NVRAM_NODES, freeNvram, n, r + 1),
                               DestSlots(NVRAM_NODES, freeNvram, n, r + 1), dramCall, outcome);
    }
    var nvramCall := NextCall(dramCall, dram);
    if Done(DRAM_NODES, freeDram, n, r) < v {
      nvram := SubmissionExists(PidsOf(list[..v]), AddrsOf(list[..v]), DestSlots(DRAM_NODES, freeDram, n, r + 1),
                                nvramCall, outcome);
    }
    round := Round(dramCall, dram, nvramCall, nvram);
    RoundsNext(list, n, freeNvram, freeDram, outcome, rounds, round);
  }

  /** For any list, readings and outcomes there is a run of `do_switch`. */
  lemma {:induction false} SwitchExists(list: seq<AddrInfo>, n: nat, freeNvram: nat -> seq<nat>,
                                        freeDram: nat -> seq<nat>, outcome: nat -> bool, before: seq<Round>)
    returns (total: int, rounds: seq<Round>)
    requires |list| == 2 * n + 1
    requires Readings(NVRAM_NODES, freeNvram) && Readings(DRAM_NODES, freeDram)
    requires RoundsOk(list, n, freeNvram, freeDram, outcome, before)
    requires forall q :: 0 <= q < |before| ==> !Finished(n, freeNvram, freeDram, q)
    ensures IsSwitch(list, n, freeNvram, freeDram, outcome, total, rounds)
    decreases 2 * n - Done(NVRAM_NODES, freeNvram, n, |before|) - Done(DRAM_NODES, freeDram, n, |before|),
              if Finished(n, freeNvram, freeDram, |before|) then 0 else 1
  {
    hide RoundsOk, Done;
    var r := |before|;
    if Finished(n, freeNvram, freeDram, r) {
      rounds := before;
      total := Done(NVRAM_NODES, freeNvram, n, r) + Done(DRAM_NODES, freeDram, n, r) - FailedInRounds(before);
    } else {
      var round := RoundExists(list, n, freeNvram, freeDram, outcome, before);
      DoneGrows(freeNvram, freeDram, n, r);
      total, rounds := SwitchExists(list, n, freeNvram, freeDram, outcome, before + [round]);
    }
  }

  // ---- Free pages --------------------------------------------------------------------------------

  function FreePages(used: int, size: nat, pageSize: nat): nat
    requires pageSize > 0
  {
    if used <= size then (size - used) / pageSize else 0
  }

  function FreeDram(m: T.Tiers): nat
    requires T.Sized(m)
  {
    FreePages(m.dramUsed, m.dramSize, m.pageSize)
  }

  function FreeNvram(m: T.Tiers): nat
    requires T.Sized(m)
  {
    FreePages(m.nvramUsed, m.nvramSize, m.pageSize)
  }

  /** No tier holds more than its size. */
  predicate Fits(m: T.Tiers) {
    T.Sized(m) && m.dramUsed <= m.dramSize && m.nvramUsed <= m.nvramSize
  }

  lemma Quotient(x: int, k: int, p: int)
    requires p > 0
    ensures (x + k * p) / p == x / p + k
  {
    var q, r := x / p, x % p;
    assert x + k * p == (q + k) * p + r;
    QuotientIs(x + k * p, q + k, r, p);
  }

  lemma QuotientIs(x: int, q: int, r: int, p: int)
    requires p > 0 && 0 <= r < p && x == q * p + r
    ensures x / p == q
  {
    var d := x / p - q;
    assert x % p - r == -(d * p);
  }

  /** Moving pages in and out changes the free pages by as many, as long as there is room. */
  lemma FreeAfter(used: int, size: nat, p: nat, added: nat, taken: nat)
    requires p > 0 && used <= size && FreePages(used, size, p) + taken >= added
    ensures FreePages(used + added * p - taken * p, size, p) == FreePages(used, size, p) + taken - added
  {
    var x := size - used;
    var k: int := taken - added;
    Quotient(x, k, p);
    assert size - (used + added * p - taken * p) == x + k * p;
    assert (x + k * p) / p >= 0;
  }

  /** The tiers after `a` pages went to DRAM and `b` to NVRAM. */
  function Exchanged(m: T.Tiers, a: nat, b: nat): T.Tiers {
    T.Demote(T.Promote(m, a), b)
  }

  lemma FreeExchanged(m: T.Tiers, a: nat, b: nat)
    requires Fits(m)
    ensures T.Sized(Exchanged(m, a, b))
    ensures FreeNvram(m) + a >= b ==> FreeNvram(Exchanged(m, a, b)) == FreeNvram(m) + a - b
    ensures FreeDram(m) + b >= a ==> FreeDram(Exchanged(m, a, b)) == FreeDram(m) + b - a
  {
    if FreeNvram(m) + a >= b {
      FreeAfter(m.nvramUsed, m.nvramSize, m.pageSize, b, a);
    }
    if FreeDram(m) + b >= a {
      FreeAfter(m.dramUsed, m.dramSize, m.pageSize, a, b);
    }
  }

  // ---- A SWITCH on these tiers -------------------------------------------------------------------

  /** A run of `do_switch`. */
  datatype Exchange = Exchange(list: seq<AddrInfo>, n: nat, freeNvram: nat -> seq<nat>, freeDram: nat -> seq<nat>,
                               outcome: nat -> bool, total: int, rounds: seq<Round>)

  ghost predicate IsExchange(x: Exchange) {
    && |x.list| == 2 * x.n + 1
    && Readings(NVRAM_NODES, x.freeNvram) && Readings(DRAM_NODES, x.freeDram)
    && IsSwitch(x.list, x.n, x.freeNvram, x.freeDram, x.outcome, x.total, x.rounds)
  }

  /** In round `k` the free pages are read on NVRAM before its first half, and on DRAM after it. */
  ghost predicate ReadsAt(m: T.Tiers, x: Exchange, k: nat)
    requires T.Sized(m) && k < |x.rounds|
  {
    var a, b, b' := |ToDram(x.rounds[..k])|, |ToNvram(x.rounds[..k])|, |ToNvram(x.rounds[..k + 1])|;
    && x.freeNvram(k) == [FreeNvram(Exchanged(m, a, b))]
    && x.freeDram(k) == [FreeDram(Exchanged(m, a, b'))]
  }

  /** All readings are those of tiers that nobody else uses. */
  ghost predicate ReadsTiers(m: T.Tiers, x: Exchange)
    requires T.Sized(m)
  {
    forall k :: 0 <= k < |x.rounds| ==> ReadsAt(m, x, k)
  }

  ghost function NvramPages(x: Exchange): set<Page>
    requires |x.list| == 2 * x.n + 1
  {
    PagesNamed(PidsOf(x.list[..x.n]), AddrsOf(x.list[..x.n]))
  }

  ghost function DramPages(x: Exchange): set<Page>
    requires |x.list| == 2 * x.n + 1
  {
    PagesNamed(PidsOf(x.list[x.n + 1..]), AddrsOf(x.list[x.n + 1..]))
  }

  /** No page is listed twice in its half. */
  ghost predicate Different(x: Exchange)
    requires |x.list| == 2 * x.n + 1
  {
    && NoneTwice(PidsOf(x.list[..x.n]), AddrsOf(x.list[..x.n]))
    && NoneTwice(PidsOf(x.list[x.n + 1..]), AddrsOf(x.list[x.n + 1..]))
  }

  /** All DRAM entries are of one process. */
  ghost predicate OneProcess(x: Exchange) {
    forall i, j :: x.n < i < |x.list| && x.n < j < |x.list| ==> x.list[i].pidRetval == x.list[j].pidRetval
  }

  // ---- Round by round ----------------------------------------------------------------------------

  lemma {:induction false} RoundsTake(x: Exchange, k: nat)
    requires IsExchange(x) && k <= |x.rounds|
    ensures RoundsOk(x.list, x.n, x.freeNvram, x.freeDram, x.outcome, x.rounds[..k])
    decreases |x.rounds| - k
  {
    hide RoundsOk, Finished;
    if k == |x.rounds| {
      assert x.rounds[..k] == x.rounds;
    } else {
      RoundsTake(x, k + 1);
      RoundsPrefix(x.list, x.n, x.freeNvram, x.freeDram, x.outcome, x.rounds[..k + 1]);
      assert x.rounds[..k + 1][..k] == x.rounds[..k];
    }
  }

  /** When no call fails, the pages moved by then are those that the slots name. */
  lemma {:induction false} MovedBy(x: Exchange, k: nat)
    requires IsExchange(x) && NoFailedCall(x.outcome) && k <= |x.rounds|
    ensures ToNvram(x.rounds[..k]) == DramNamed(x.list, x.n, x.freeNvram, k)
    ensures ToDram(x.rounds[..k]) == NvramNamed(x.list, x.n, x.freeDram, k)
  {
    hide RoundsOk, Finished, NoFailedCall, ToNvram, ToDram, DramNamed, NvramNamed;
    RoundsTake(x, k);
    RoundsMove(x.list, x.n, x.freeNvram, x.freeDram, x.outcome, x.rounds[..k]);
  }

  lemma {:induction false} OneReading(node: int, free: nat -> seq<nat>, n: nat, k: nat, src: seq<nat>)
    requires Readings([node], free) && n <= |src|
    ensures var d := Done([node], free, n, k);
            var t: nat := IntMin(free(k)[0], n - d);
            && Done([node], free, n, k + 1) == d + t
            && DramSlots(src, [node], free, n, k + 1) == DramSlots(src, [node], free, n, k) + src[..t]
  {
    hide DramSlots;
    var d := Done([node], free, n, k);
    var t: nat := IntMin(free(k)[0], n - d);
    assert free(k)[1..] == [] && [node][1..] == [];
    assert Greedy([node], free(k), n - d) == Repeat(node, t);
    ChunkUnfold(src, free(k), n - d);
    assert src[..t] + [] == src[..t];
    SlotsUnfold(src, [node], free, n, k);
  }

  lemma SlotsUnfold(src: seq<nat>, nodes: seq<int>, free: nat -> seq<nat>, n: nat, k: nat)
    requires Readings(nodes, free) && n <= |src|
    ensures DramSlots(src, nodes, free, n, k + 1) ==
            DramSlots(src, nodes, free, n, k) + ChunkAddrs(src, free(k), n - Done(nodes, free, n, k))
  {
    hide ChunkAddrs, Greedy;
  }

  lemma NothingYet(x: Exchange)
    requires IsExchange(x)
    ensures Done(NVRAM_NODES, x.freeNvram, x.n, 0) == Done(DRAM_NODES, x.freeDram, x.n, 0) == 0
    ensures DramSlots(AddrsOf(x.list[x.n + 1..]), NVRAM_NODES, x.freeNvram, x.n, 0) == []
    ensures ToNvram(x.rounds[..0]) == ToDram(x.rounds[..0]) == {}
  {
  }

  /** The first round: as many DRAM pages leave as NVRAM has room for, and then as many NVRAM pages come as DRAM has
      room for. */
  lemma {:induction false} FirstRound(m: T.Tiers, x: Exchange)
    requires Fits(m) && IsExchange(x) && ReadsTiers(m, x) && NoFailedCall(x.outcome) && x.n > 0
    ensures |x.rounds| >= 1
    ensures var src, d := AddrsOf(x.list[x.n + 1..]), IntMin(FreeNvram(m), x.n) as nat;
            var left := PagesNamed(PidsOf(x.list[x.n + 1..])[..d], src[..d]);
            && Done(NVRAM_NODES, x.freeNvram, x.n, 1) == d
            && DramSlots(src, NVRAM_NODES, x.freeNvram, x.n, 1) == src[..d]
            && ToNvram(x.rounds[..1]) == left
            && Done(DRAM_NODES, x.freeDram, x.n, 1) == IntMin(FreeDram(m) + |left|, x.n)
  {
    hide RoundsOk, NoFailedCall, ToNvram, ToDram, Done, DramSlots, FreePages, Exchanged, PagesNamed, PidsOf, AddrsOf;
    var src := AddrsOf(x.list[x.n + 1..]);
    NothingYet(x);
    assert !Finished(x.n, x.freeNvram, x.freeDram, 0);
    assert ReadsAt(m, x, 0);
    FreeExchanged(m, 0, 0);
    OneReading(NVRAM_NODES[0], x.freeNvram, x.n, 0, src);
    OneReading(DRAM_NODES[0], x.freeDram, x.n, 0, src);
    MovedBy(x, 1);
    var d: nat := IntMin(FreeNvram(m), x.n);
    assert [] + src[..d] == src[..d];
    PidsTaken(x, d);
    FreeExchanged(m, 0, |ToNvram(x.rounds[..1])|);
  }

  lemma PidsTaken(x: Exchange, d: nat)
    requires |x.list| == 2 * x.n + 1 && d <= x.n
    ensures PidsOf(x.list[x.n + 1..][..d]) == PidsOf(x.list[x.n + 1..])[..d]
  {
  }

  lemma AllNamed(x: Exchange, r: nat)
    requires IsExchange(x) && NoFailedCall(x.outcome) && |x.rounds| == r
    requires Done(NVRAM_NODES, x.freeNvram, x.n, r) == Done(DRAM_NODES, x.freeDram, x.n, r) == x.n
    ensures var src := AddrsOf(x.list[x.n + 1..]);
            ToNvram(x.rounds) ==
            PagesNamed(PidsOf(x.list[x.n + 1..]), DramSlots(src, NVRAM_NODES, x.freeNvram, x.n, r))
    ensures ToDram(x.rounds) == NvramPages(x)
  {
    hide RoundsOk, Finished, NoFailedCall, ToNvram, ToDram, Done, DramSlots, PagesNamed, PidsOf, AddrsOf;
    MovedBy(x, r);
    assert x.rounds[..r] == x.rounds;
    assert x.list[x.n + 1..][..x.n] == x.list[x.n + 1..];
  }

  /** With room on NVRAM for all DRAM pages, and then room on DRAM for all NVRAM pages, exactly the listed pages
      change places, so that the shift is the difference of the numbers of different pages. */
  lemma {:induction false} RoomySwitch(m: T.Tiers, x: Exchange)
    requires Fits(m) && IsExchange(x) && ReadsTiers(m, x) && NoFailedCall(x.outcome)
    requires FreeNvram(m) >= x.n && FreeDram(m) + |DramPages(x)| >= x.n
    ensures ToNvram(x.rounds) == DramPages(x) && ToDram(x.rounds) == NvramPages(x)
    ensures Shift(x.rounds) == |NvramPages(x)| - |DramPages(x)|
  {
    hide RoundsOk, NoFailedCall, ToNvram, ToDram, Done, DramSlots, FreePages, PagesNamed, PidsOf, AddrsOf, ReadsTiers;
    var src, pids := AddrsOf(x.list[x.n + 1..]), PidsOf(x.list[x.n + 1..]);
    assert src[..x.n] == src && pids[..x.n] == pids;
    NothingYet(x);
    if x.n > 0 {
      FirstRound(m, x);
      assert Finished(x.n, x.freeNvram, x.freeDram, 1);
      AllNamed(x, 1);
    } else {
      assert Finished(x.n, x.freeNvram, x.freeDram, 0);
      assert src == [] && x.rounds[..0] == [];
      AllNamed(x, 0);
    }
  }

  /** With less room on NVRAM, but enough on both tiers together, there are two rounds, and the second one starts over
      at the first DRAM candidate. */
  lemma {:induction false} TightSwitch(m: T.Tiers, x: Exchange)
    requires Fits(m) && IsExchange(x) && ReadsTiers(m, x) && NoFailedCall(x.outcome) && Different(x)
    requires FreeNvram(m) < x.n <= FreeNvram(m) + FreeDram(m)
    ensures |x.rounds| == 2 && ToDram(x.rounds) == NvramPages(x)
    ensures var src, f := AddrsOf(x.list[x.n + 1..]), FreeNvram(m);
            ToNvram(x.rounds) == PagesNamed(PidsOf(x.list[x.n + 1..]), src[..f] + src[..x.n - f])
  {
    hide RoundsOk, NoFailedCall, ToNvram, ToDram, Done, DramSlots, FreePages, PagesNamed, PidsOf, AddrsOf, Exchanged,
      NoneTwice;
    var src, pids, f := AddrsOf(x.list[x.n + 1..]), PidsOf(x.list[x.n + 1..]), FreeNvram(m);
    NothingYet(x);
    FirstRound(m, x);
    NoneTwiceTaken(pids, src, f);
    NamedCount(pids[..f], src[..f]);
    assert !Finished(x.n, x.freeNvram, x.freeDram, 1);
    MovedBy(x, 1);
    assert x.list[..x.n] == x.list[..Done(DRAM_NODES, x.freeDram, x.n, 1)];
    NamedCount(PidsOf(x.list[..x.n]), AddrsOf(x.list[..x.n]));
    assert ReadsAt(m, x, 1);
    FreeExchanged(m, x.n, f);
    OneReading(NVRAM_NODES[0], x.freeNvram, x.n, 1, src);
    OneReading(DRAM_NODES[0], x.freeDram, x.n, 1, src);
    assert Finished(x.n, x.freeNvram, x.freeDram, 2);
    AllNamed(x, 2);
  }

  lemma NoneTwiceTaken(pids: seq<int>, addrs: seq<nat>, d: nat)
    requires |addrs| == |pids| && d <= |pids| && NoneTwice(pids, addrs)
    ensures NoneTwice(pids[..d], addrs[..d])
  {
  }

  // ---- The shift, from what is known before the call ---------------------------------------------

  /** By how many pages a SWITCH of `n` pages of one process shifts the tiers when NVRAM has room for `f`. */
  function Lost(f: nat, n: nat): nat {
    if f >= n then 0 else IntMin(f, n - f)
  }

  /** The most by which any SWITCH of `n` different entries may. */
  function MostLost(f: nat, n: nat): nat {
    if f == 0 || f >= n then 0 else n - f
  }

  lemma DifferentCounts(x: Exchange)
    requires |x.list| == 2 * x.n + 1 && Different(x)
    ensures |NvramPages(x)| == |DramPages(x)| == x.n
  {
    hide PagesNamed, PidsOf, AddrsOf, NoneTwice;
    NamedCount(PidsOf(x.list[..x.n]), AddrsOf(x.list[..x.n]));
    NamedCount(PidsOf(x.list[x.n + 1..]), AddrsOf(x.list[x.n + 1..]));
  }

  /** With room on both tiers together and no failed call, a SWITCH of different entries brings all its NVRAM pages to
      DRAM, never makes DRAM emptier, and makes it fuller by at most `MostLost` pages. */
  lemma {:induction false} ShiftBounds(m: T.Tiers, x: Exchange)
    requires Fits(m) && IsExchange(x) && ReadsTiers(m, x) && NoFailedCall(x.outcome) && Different(x)
    requires x.n <= FreeNvram(m) + FreeDram(m)
    ensures |ToDram(x.rounds)| == x.n && 0 <= Shift(x.rounds) <= MostLost(FreeNvram(m), x.n)
  {
    hide IsSwitch, ReadsTiers, NoFailedCall, ToNvram, ToDram, FreePages, PagesNamed, PidsOf, AddrsOf, NoneTwice;
    var src, pids, f := AddrsOf(x.list[x.n + 1..]), PidsOf(x.list[x.n + 1..]), FreeNvram(m);
    DifferentCounts(x);
    if f >= x.n {
      RoomySwitch(m, x);
    } else {
      TightSwitch(m, x);
      NamedTight(pids, src, f);
    }
  }

  lemma NamedTight(pids: seq<int>, src: seq<nat>, f: nat)
    requires |pids| == |src| > f && NoneTwice(pids, src)
    ensures |src| - MostLost(f, |src|) <= |PagesNamed(pids, src[..f] + src[..|src| - f])| <= |src|
  {
    hide PagesNamed, NoneTwice;
    var addrs := src[..f] + src[..|src| - f];
    NamedCount(pids, addrs);
    NoneTwiceTaken(pids, src, f);
    NamedSplit(pids, addrs, f);
    assert addrs[..f] == src[..f];
    NamedCount(pids[..f], src[..f]);
    Smaller(PagesNamed(pids[..f], src[..f]), PagesNamed(pids, addrs));
    if f == 0 {
      assert addrs == src;
      NamedCount(pids, src);
    }
  }

  /** When the DRAM entries are of one process, it makes DRAM fuller by exactly `Lost` pages. */
  lemma {:induction false} OneProcessShift(m: T.Tiers, x: Exchange)
    requires Fits(m) && IsExchange(x) && ReadsTiers(m, x) && NoFailedCall(x.outcome) && Different(x) && OneProcess(x)
    requires x.n <= FreeNvram(m) + FreeDram(m)
    ensures |ToDram(x.rounds)| == x.n && Shift(x.rounds) == Lost(FreeNvram(m), x.n)
  {
    hide IsSwitch, ReadsTiers, NoFailedCall, ToNvram, ToDram, FreePages, PagesNamed, PidsOf, AddrsOf, NoneTwice,
      OneProcess;
    var src, pids, f := AddrsOf(x.list[x.n + 1..]), PidsOf(x.list[x.n + 1..]), FreeNvram(m);
    DifferentCounts(x);
    if f >= x.n {
      RoomySwitch(m, x);
    } else {
      TightSwitch(m, x);
      OnePid(x);
      var most := if f >= x.n - f then f else x.n - f;
      NamedAgain(pids, src, f, most);
      NoneTwiceTaken(pids, src, most);
      NamedCount(pids[..most], src[..most]);
    }
  }

  lemma OnePid(x: Exchange)
    requires |x.list| == 2 * x.n + 1 && OneProcess(x)
    ensures var pids := PidsOf(x.list[x.n + 1..]);
            forall i :: 0 <= i < |pids| ==> pids[i] == pids[0]
  {
    var pids := PidsOf(x.list[x.n + 1..]);
    forall i | 0 <= i < |pids| ensures pids[i] == pids[0] {
      assert pids[i] == x.list[x.n + 1 + i].pidRetval && pids[0] == x.list[x.n + 1].pidRetval;
    }
  }

  /** Slots that start over at the first address name no page of one process that the longer part does not name. */
  lemma NamedAgain(pids: seq<int>, src: seq<nat>, f: nat, most: nat)
    requires |pids| == |src| > f && forall i :: 0 <= i < |pids| ==> pids[i] == pids[0]
    requires most == if f >= |src| - f then f else |src| - f
    ensures PagesNamed(pids, src[..f] + src[..|src| - f]) == PagesNamed(pids[..most], src[..most])
  {
    var addrs := src[..f] + src[..|src| - f];
    var all, part := PagesNamed(pids, addrs), PagesNamed(pids[..most], src[..most]);
    forall p | p in all ensures p in part {
      var i :| 0 <= i < |pids| && p == Page(pids[i], addrs[i]);
      var j := if i < f then i else i - f;
      assert p == Page(pids[..most][j], src[..most][j]);
    }
    forall p | p in part ensures p in all {
      var j :| 0 <= j < |pids[..most]| && p == Page(pids[..most][j], src[..most][j]);
      var i := if most == f then j else f + j;
      assert p == Page(pids[i], addrs[i]);
    }
  }

  /** A second cause: with room for everything, a SWITCH in which only a DRAM page is listed twice brings one page more
      to DRAM than it takes away. */
  lemma {:induction false} ListedTwice(m: T.Tiers, x: Exchange)
    requires Fits(m) && IsExchange(x) && ReadsTiers(m, x) && NoFailedCall(x.outcome) && x.n == 2
    requires FreeNvram(m) >= 2 && FreeDram(m) >= 1
    requires x.list[0] != x.list[1] && x.list[3] == x.list[4]
    ensures Shift(x.rounds) == 1
  {
    hide IsSwitch, ReadsTiers, NoFailedCall, ToNvram, ToDram, FreePages;
    var a, b, c := x.list[0], x.list[1], x.list[3];
    assert NvramPages(x) == {Page(a.pidRetval, a.addr), Page(b.pidRetval, b.addr)} by {
      NamedPair(PidsOf(x.list[..2]), AddrsOf(x.list[..2]));
    }
    assert DramPages(x) == {Page(c.pidRetval, c.addr)} by {
      NamedPair(PidsOf(x.list[3..]), AddrsOf(x.list[3..]));
    }
    RoomySwitch(m, x);
  }

  lemma NamedPair(pids: seq<int>, addrs: seq<nat>)
    requires |pids| == |addrs| == 2
    ensures PagesNamed(pids, addrs) == {Page(pids[0], addrs[0]), Page(pids[1], addrs[1])}
  {
  }

  // ---- Such runs exist ---------------------------------------------------------------------------

  /** For tiers with too little room on NVRAM and a list of different entries, the DRAM ones of one process, there is a
      run of `do_switch` that reads the tiers' own free pages and none of whose calls fails. */
  lemma {:induction false} TightSwitchExists(m: T.Tiers, list: seq<AddrInfo>, n: nat) returns (x: Exchange)
    requires Fits(m) && |list| == 2 * n + 1 && FreeNvram(m) < n <= FreeNvram(m) + FreeDram(m)
    requires NoneTwice(PidsOf(list[..n]), AddrsOf(list[..n]))
    requires NoneTwice(PidsOf(list[n + 1..]), AddrsOf(list[n + 1..]))
    requires forall i :: n < i < |list| ==> list[i].pidRetval == list[n + 1].pidRetval
    ensures x.list == list && x.n == n && IsExchange(x) && ReadsTiers(m, x)
    ensures NoFailedCall(x.outcome) && Different(x) && OneProcess(x)
  {
    hide IsSwitch, RoundsOk, NoneTwice, FreePages, ReadsTiers, PagesNamed, PidsOf, AddrsOf, NoFailedCall, OneProcess,
      ToNvram, ToDram, Done, DramSlots, Finished, CallAfter, FailedInRounds;
    var f, g := FreeNvram(m), FreeDram(m);
    var most := if f >= n - f then f else n - f;
    var freeNvram: nat -> seq<nat> := (k: nat) => if k == 0 then [f] else [n];
    var freeDram: nat -> seq<nat> := (k: nat) => if k == 0 then [g + f] else [g + most - n];
    var outcome: nat -> bool := (c: nat) => true;
    assert Readings(NVRAM_NODES, freeNvram) && Readings(DRAM_NODES, freeDram);
    SlotsBefore(list, freeNvram, freeDram, n, outcome);
    var total, rounds := SwitchExists(list, n, freeNvram, freeDram, outcome, []);
    x := Exchange(list, n, freeNvram, freeDram, outcome, total, rounds);
    AllSucceed(outcome);
    OneProcessOf(x);
    TwoRounds(x, f, g + f);
    TightMoves(x, f, most);
    ReadingsFit(m, x, f, most);
  }

  lemma OneProcessOf(x: Exchange)
    requires |x.list| == 2 * x.n + 1
    requires forall i :: x.n < i < |x.list| ==> x.list[i].pidRetval == x.list[x.n + 1].pidRetval
    ensures OneProcess(x)
  {
  }

  lemma AllSucceed(outcome: nat -> bool)
    requires forall c: nat :: outcome(c)
    ensures NoFailedCall(outcome)
  {
  }

  lemma {:induction false} TwoRounds(x: Exchange, f: nat, room: nat)
    requires IsExchange(x) && f < x.n <= room
    requires x.freeNvram(0) == [f] && x.freeNvram(1) == [x.n] && x.freeDram(0) == [room]
    ensures |x.rounds| == 2
    ensures var src := AddrsOf(x.list[x.n + 1..]);
            && Done(NVRAM_NODES, x.freeNvram, x.n, 1) == f && Done(NVRAM_NODES, x.freeNvram, x.n, 2) == x.n
            && DramSlots(src, NVRAM_NODES, x.freeNvram, x.n, 1) == src[..f]
            && DramSlots(src, NVRAM_NODES, x.freeNvram, x.n, 2) == src[..f] + src[..x.n - f]
            && Done(DRAM_NODES, x.freeDram, x.n, 1) == Done(DRAM_NODES, x.freeDram, x.n, 2) == x.n
  {
    hide RoundsOk, Done, DramSlots, AddrsOf;
    var src := AddrsOf(x.list[x.n + 1..]);
    NothingYet(x);
    OneReading(NVRAM_NODES[0], x.freeNvram, x.n, 0, src);
    OneReading(DRAM_NODES[0], x.freeDram, x.n, 0, src);
    OneReading(NVRAM_NODES[0], x.freeNvram, x.n, 1, src);
    OneReading(DRAM_NODES[0], x.freeDram, x.n, 1, src);
    assert [] + src[..f] == src[..f];
    assert !Finished(x.n, x.freeNvram, x.freeDram, 0) && !Finished(x.n, x.freeNvram, x.freeDram, 1);
    assert Finished(x.n, x.freeNvram, x.freeDram, 2);
  }

  lemma {:induction false} TightMoves(x: Exchange, f: nat, most: nat)
    requires IsExchange(x) && NoFailedCall(x.outcome) && Different(x) && OneProcess(x) && |x.rounds| == 2 && f < x.n
    requires var src := AddrsOf(x.list[x.n + 1..]);
             && Done(NVRAM_NODES, x.freeNvram, x.n, 1) == f && Done(NVRAM_NODES, x.freeNvram, x.n, 2) == x.n
             && DramSlots(src, NVRAM_NODES, x.freeNvram, x.n, 1) == src[..f]
             && DramSlots(src, NVRAM_NODES, x.freeNvram, x.n, 2) == src[..f] + src[..x.n - f]
             && Done(DRAM_NODES, x.freeDram, x.n, 1) == Done(DRAM_NODES, x.freeDram, x.n, 2) == x.n
    requires most == if f >= x.n - f then f else x.n - f
    ensures |ToNvram(x.rounds[..1])| == f && |ToNvram(x.rounds[..2])| == most && |ToDram(x.rounds[..1])| == x.n
  {
    hide IsSwitch, RoundsOk, Done, DramSlots, PagesNamed, PidsOf, AddrsOf, NoneTwice, OneProcess, NoFailedCall, ToNvram,
      ToDram;
    var src, pids := AddrsOf(x.list[x.n + 1..]), PidsOf(x.list[x.n + 1..]);
    MovedBy(x, 1);
    MovedBy(x, 2);
    PidsTaken(x, f);
    PidsTaken(x, x.n);
    assert pids[..x.n] == pids;
    NoneTwiceTaken(pids, src, f);
    NamedCount(pids[..f], src[..f]);
    OnePid(x);
    NamedAgain(pids, src, f, most);
    NoneTwiceTaken(pids, src, most);
    NamedCount(pids[..most], src[..most]);
    DifferentCounts(x);
  }

  lemma NothingMoved(rounds: seq<Round>)
    ensures ToNvram(rounds[..0]) == ToDram(rounds[..0]) == {}
  {
  }

  lemma ReadingsFit(m: T.Tiers, x: Exchange, f: nat, most: nat)
    requires Fits(m) && |x.rounds| == 2 && f == FreeNvram(m) < x.n <= f + FreeDram(m) && most >= f
    requires |ToNvram(x.rounds[..1])| == f && |ToNvram(x.rounds[..2])| == most && |ToDram(x.rounds[..1])| == x.n
    requires x.freeNvram(0) == [f] && x.freeNvram(1) == [x.n]
    requires x.freeDram(0) == [FreeDram(m) + f] && x.freeDram(1) == [FreeDram(m) + most - x.n]
    ensures ReadsTiers(m, x)
  {
    hide FreePages, Exchanged, ToNvram, ToDram;
    NothingMoved(x.rounds);
    FreeExchanged(m, 0, 0);
    FreeExchanged(m, 0, f);
    FreeExchanged(m, x.n, f);
    FreeExchanged(m, x.n, most);
    assert ReadsAt(m, x, 0) && ReadsAt(m, x, 1);
  }
}
