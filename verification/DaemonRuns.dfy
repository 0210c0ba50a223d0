/** Runs of the memcheck thread whose SWITCH requests are runs of `do_switch` on the tiers' own free pages: when they
    never move pages back and forth, in terms of what is known before each request. */
module DaemonRuns {
  import opened Ambix
  import opened MigrationSpec
  import opened DaemonSpec
  import opened SwitchEffect
  import opened SwitchRuns
  import T = Thresholds

  /** The SWITCH of a round moves what a run of `do_switch` on these tiers moves. */
  ghost predicate Switches(m: T.Tiers, r: T.Round, x: Exchange)
    requires T.Sized(m)
  {
    && x.n <= MAX_N_SWITCH && IsExchange(x) && ReadsTiers(m, x)
    && r.toDram == |ToDram(x.rounds)| && r.toNvram == |ToNvram(x.rounds)|
  }

  ghost predicate PassOk(tiers: seq<T.Tiers>, rounds: seq<T.Round>, xs: seq<Exchange>, k: nat)
    requires k < |tiers| && k < |rounds| && k < |xs|
  {
    Fits(tiers[k]) && (T.TakesSwitch(tiers[k], rounds[k]) ==> Switches(tiers[k], rounds[k], xs[k]))
  }

  /** A run of the thread in which `xs[k]` is the exchange of the k-th pass, if it is a SWITCH. */
  ghost predicate IsDaemonRun(tiers: seq<T.Tiers>, rounds: seq<T.Round>, xs: seq<Exchange>) {
    && T.IsRun(tiers, rounds) && |xs| == |rounds|
    && forall k :: 0 <= k < |rounds| ==> PassOk(tiers, rounds, xs, k)
  }

  /** What the free pages say about a SWITCH of `n` pages before it is made: both tiers together have room for them,
      and the most pages it may lose on the way still fit below the limit of a DRAM that is within its limit. With
      room for all of them on NVRAM, none can be lost. */
  predicate HasRoom(m: T.Tiers, n: nat)
    requires T.Sized(m)
  {
    && n <= FreeNvram(m) + FreeDram(m)
    && FitsBelow(m, MostLost(FreeNvram(m), n))
  }

  /** So many pages more still fit below the limit of a DRAM that is within its limit. */
  predicate FitsBelow(m: T.Tiers, pages: nat)
    requires T.Sized(m)
  {
    T.DramUsage(m) <= T.DRAM_LIMIT ==>
      (pages * m.pageSize) as real <= T.BytesBelow(m.dramUsed, m.dramSize, T.DRAM_LIMIT)
  }

  /** A SWITCH of different entries, none of whose calls fails. */
  ghost predicate IsClean(x: Exchange)
    requires |x.list| == 2 * x.n + 1
  {
    NoFailedCall(x.outcome) && Different(x)
  }

  lemma RoomOnNvram(m: T.Tiers, n: nat)
    requires T.Sized(m) && FreeNvram(m) >= n
    ensures HasRoom(m, n)
  {
    T.Excess(m.dramUsed, m.dramSize, T.DRAM_LIMIT);
    assert MostLost(FreeNvram(m), n) * m.pageSize == 0;
  }

  lemma PagesFit(m: T.Tiers, r: T.Round, shift: int)
    requires T.Sized(m) && T.Admissible(m, r) && T.TakesSwitch(m, r)
    requires shift == r.toDram - r.toNvram && shift >= 0
    ensures T.Harmless(m, r) <==> FitsBelow(m, shift)
  {
    hide T.Admissible, T.Harmless, T.TakesSwitch, T.BytesBelow, T.DramUsage;
    T.FillingSwitch(m, r);
    assert r.toDram * m.pageSize - r.toNvram * m.pageSize == shift * m.pageSize;
  }

  lemma FewerFit(m: T.Tiers, fewer: nat, more: nat)
    requires T.Sized(m) && fewer <= more && FitsBelow(m, more)
    ensures FitsBelow(m, fewer)
  {
    hide T.BytesBelow, T.DramUsage;
    assert fewer * m.pageSize <= more * m.pageSize;
  }

  /** A clean SWITCH for which there was room is harmless. */
  lemma {:induction false} RoomySwitchIsHarmless(m: T.Tiers, r: T.Round, x: Exchange)
    requires Fits(m) && T.Admissible(m, r) && T.TakesSwitch(m, r) && Switches(m, r, x)
    requires IsClean(x) && HasRoom(m, x.n)
    ensures T.Harmless(m, r) && r.toDram == x.n
  {
    hide IsSwitch, ReadsTiers, NoFailedCall, Different, T.Admissible, T.Harmless, T.TakesSwitch, FitsBelow, ToDram,
      ToNvram, FreePages;
    ShiftBounds(m, x);
    FewerFit(m, Shift(x.rounds), MostLost(FreeNvram(m), x.n));
    PagesFit(m, r, Shift(x.rounds));
  }

  /** For a clean SWITCH of DRAM pages of one process, the condition is exact: it is harmless if and only if as many
      pages as `do_switch` loses on the way fit below the limit. */
  lemma {:induction false} OneProcessHarmless(m: T.Tiers, r: T.Round, x: Exchange)
    requires Fits(m) && T.Admissible(m, r) && T.TakesSwitch(m, r) && Switches(m, r, x)
    requires IsClean(x) && OneProcess(x) && x.n <= FreeNvram(m) + FreeDram(m)
    ensures T.Harmless(m, r) <==> FitsBelow(m, Lost(FreeNvram(m), x.n))
  {
    hide IsSwitch, ReadsTiers, NoFailedCall, Different, OneProcess, T.Admissible, T.Harmless, T.TakesSwitch, FitsBelow,
      ToDram, ToNvram, FreePages;
    OneProcessShift(m, x);
    PagesFit(m, r, Lost(FreeNvram(m), x.n));
  }

  /** When it does not fit, the SWITCH lifts a DRAM that was within its limit above it, and the next pass of the
      threshold component demotes as soon as NVRAM has room. */
  lemma {:induction false} OneProcessReverses(m: T.Tiers, r: T.Round, x: Exchange, next: T.Round)
    requires Fits(m) && T.Admissible(m, r) && T.TakesSwitch(m, r) && Switches(m, r, x)
    requires IsClean(x) && OneProcess(x) && x.n <= FreeNvram(m) + FreeDram(m)
    requires !FitsBelow(m, Lost(FreeNvram(m), x.n))
    ensures var after := T.AfterRound(m, r);
            && T.Sized(after) && T.DramUsage(m) <= T.DRAM_LIMIT < T.DramUsage(after)
            && (next.threshAct && T.NvramUsage(after) < T.NVRAM_TARGET ==> T.Demotes(after, next))
  {
    hide IsSwitch, ReadsTiers, NoFailedCall, Different, OneProcess, T.Admissible, T.Harmless, ToDram, ToNvram,
      FreePages, T.BytesBelow, T.DramUsage, T.NvramUsage, Lost;
    OneProcessHarmless(m, r, x);
    OneProcessShift(m, x);
    T.HarmfulSwitchOpens(m, r, next);
    StillFull(m, r);
  }

  /** A SWITCH that brings at least as much as it takes keeps DRAM at or above its target. */
  lemma StillFull(m: T.Tiers, r: T.Round)
    requires T.Sized(m) && T.Admissible(m, r) && T.TakesSwitch(m, r) && r.toDram >= r.toNvram
    requires T.DramUsage(m) <= T.DRAM_LIMIT
    ensures T.Sized(T.AfterRound(m, r)) && T.DramUsage(T.AfterRound(m, r)) >= T.DRAM_TARGET
  {
    hide T.NvramUsage;
    assert r.toNvram * m.pageSize <= r.toDram * m.pageSize;
    var after := T.AfterRound(m, r);
    assert after.dramUsed == m.dramUsed + r.toDram * m.pageSize - r.toNvram * m.pageSize;
    T.QuotientMonotone(m.dramUsed, after.dramUsed, m.dramSize);
  }

  /** Every SWITCH from pass `i` up to pass `j` is clean, and there was room for it. */
  ghost predicate RoomBetween(tiers: seq<T.Tiers>, rounds: seq<T.Round>, xs: seq<Exchange>, i: nat, j: nat)
    requires IsDaemonRun(tiers, rounds, xs) && j <= |rounds|
  {
    forall k :: i <= k < j ==> RoomAt(tiers, rounds, xs, k)
  }

  ghost predicate RoomAt(tiers: seq<T.Tiers>, rounds: seq<T.Round>, xs: seq<Exchange>, k: nat)
    requires IsDaemonRun(tiers, rounds, xs) && k < |rounds|
  {
    assert PassOk(tiers, rounds, xs, k);
    T.TakesSwitch(tiers[k], rounds[k]) ==> IsClean(xs[k]) && HasRoom(tiers[k], xs[k].n)
  }

  /** No ping-pong, in terms of what is known before each SWITCH: as long as there is room for it and its entries are
      different and can be moved, the thread does not promote in one pass and demote in another. */
  lemma {:induction false} NoPingPongWithRoom(tiers: seq<T.Tiers>, rounds: seq<T.Round>, xs: seq<Exchange>, i: nat,
                                              j: nat)
    requires IsDaemonRun(tiers, rounds, xs) && i < |rounds| && j < |rounds|
    requires if i <= j then RoomBetween(tiers, rounds, xs, i, j) else RoomBetween(tiers, rounds, xs, j, i)
    ensures !(T.Promotes(tiers[i], rounds[i]) && T.Demotes(tiers[j], rounds[j]))
  {
    hide T.Promotes, T.Demotes, T.Harmless, T.Admissible, T.AfterRound, T.TakesSwitch, HasRoom, Switches, IsClean;
    var low, high := if i <= j then i else j, if i <= j then j else i;
    forall k | low <= k < high ensures T.Harmless(tiers[k], rounds[k]) {
      assert RoomAt(tiers, rounds, xs, k) && PassOk(tiers, rounds, xs, k) && T.Follows(tiers, rounds, k);
      OnePassHarmless(tiers[k], rounds[k], xs[k]);
    }
    T.NoPingPong(tiers, rounds, i, j);
  }

  lemma {:induction false} OnePassHarmless(m: T.Tiers, r: T.Round, x: Exchange)
    requires Fits(m) && T.Admissible(m, r)
    requires T.TakesSwitch(m, r) ==> Switches(m, r, x) && IsClean(x) && HasRoom(m, x.n)
    ensures T.Harmless(m, r)
  {
    hide HasRoom, IsClean, Switches, T.Admissible;
    if T.TakesSwitch(m, r) {
      RoomySwitchIsHarmless(m, r, x);
    }
  }

  // ---- A run that moves pages back and forth -----------------------------------------------------

  /** Tiers of 1000 and 300 pages. */
  function Figures(dramUsed: int, nvramUsed: int): T.Tiers {
    T.Tiers(1000, 300, dramUsed, nvramUsed, 1)
  }

  /** Twenty pages of process 1 on NVRAM and twenty of process 2 on DRAM. */
  function TwentyPages(): (list: seq<AddrInfo>)
    ensures |list| == 41
    ensures forall i :: 0 <= i < 20 ==> list[i] == AddrInfo(4096 * i, 1)
    ensures forall i :: 21 <= i < 41 ==> list[i] == AddrInfo(4096 * i, 2)
  {
    seq(41, i requires 0 <= i < 41 => if i == 20 then AddrInfo(0, 0) else AddrInfo(4096 * i, if i < 20 then 1 else 2))
  }

  lemma AllDifferent()
    ensures NoneTwice(PidsOf(TwentyPages()[..20]), AddrsOf(TwentyPages()[..20]))
    ensures NoneTwice(PidsOf(TwentyPages()[21..]), AddrsOf(TwentyPages()[21..]))
  {
    hide TwentyPages;
    var nvs, drs := TwentyPages()[..20], TwentyPages()[21..];
    assert forall i :: 0 <= i < 20 ==> AddrsOf(nvs)[i] == 4096 * i;
    assert forall i :: 0 <= i < 20 ==> AddrsOf(drs)[i] == 4096 * (i + 21);
  }

  /** An INTENSIVE request brings two pages to DRAM and leaves it within its limit; a clean SWITCH of twenty pages
      finds ten pages free on NVRAM, and brings twenty to DRAM for ten; and the next pass demotes. */
  lemma PingPongThroughSwitch() returns (tiers: seq<T.Tiers>, rounds: seq<T.Round>, xs: seq<Exchange>)
    ensures IsDaemonRun(tiers, rounds, xs) && |rounds| == 3
    ensures T.Promotes(tiers[0], rounds[0]) && T.Demotes(tiers[2], rounds[2])
    ensures rounds[0].intensive == 2 && rounds[2].moved == 5
    ensures T.TakesSwitch(tiers[1], rounds[1]) && !T.Harmless(tiers[1], rounds[1])
    ensures xs[1].list == TwentyPages() && xs[1].n == 20 && IsClean(xs[1])
    ensures FreeNvram(tiers[1]) == 10 && FreeDram(tiers[1]) == 49
  {
    hide IsSwitch, ReadsTiers, TwentyPages, NoneTwice, NoFailedCall, T.Admissible, T.AfterRound, T.Promotes, T.Demotes,
      T.TakesSwitch, T.Harmless, ToDram, ToNvram, IsClean, OneProcess;
    tiers := [Figures(949, 292), Figures(951, 290), Figures(961, 280), Figures(956, 285)];
    var r0, r1, r2 := T.Round(true, true, true, 2, 0, 0, 0), T.Round(true, true, true, 0, 20, 10, 0),
        T.Round(true, true, false, 0, 0, 0, 5);
    rounds := [r0, r1, r2];
    AllDifferent();
    var x := TightSwitchExists(tiers[1], TwentyPages(), 20);
    xs := [x, x, x];
    CleanAgain(x);
    OneProcessShift(tiers[1], x);
    IntensivePass(r0);
    SwitchPass(r1);
    DemotionPass(r2);
    assert T.Follows(tiers, rounds, 0) && T.Follows(tiers, rounds, 1) && T.Follows(tiers, rounds, 2);
    assert PassOk(tiers, rounds, xs, 0) && PassOk(tiers, rounds, xs, 1) && PassOk(tiers, rounds, xs, 2);
  }

  lemma CleanAgain(x: Exchange)
    requires |x.list| == 2 * x.n + 1 && NoFailedCall(x.outcome) && Different(x)
    ensures IsClean(x)
  {
  }

  lemma IntensivePass(r: T.Round)
    requires r == T.Round(true, true, true, 2, 0, 0, 0)
    ensures var m := Figures(949, 292);
            && T.Admissible(m, r) && T.Promotes(m, r) && !T.TakesSwitch(m, r) && T.AfterRound(m, r) == Figures(951, 290)
  {
    hide T.DramUsage, T.NvramUsage, T.IntensivePages;
    UsagesOf(949, 292);
    UsagesOf(951, 290);
    PagesAskedFor();
  }

  lemma SwitchPass(r: T.Round)
    requires r == T.Round(true, true, true, 0, 20, 10, 0)
    ensures var m := Figures(951, 290);
            && T.Admissible(m, r) && T.TakesSwitch(m, r) && !T.Harmless(m, r) && T.AfterRound(m, r) == Figures(961, 280)
  {
    hide T.DramUsage, T.NvramUsage, T.BytesAbove, T.BytesBelow;
    UsagesOf(951, 290);
    PagesAskedFor();
  }

  lemma DemotionPass(r: T.Round)
    requires r == T.Round(true, true, false, 0, 0, 0, 5)
    ensures var m := Figures(961, 280);
            && T.Admissible(m, r) && T.Demotes(m, r) && !T.TakesSwitch(m, r) && T.AfterRound(m, r) == Figures(956, 285)
  {
    hide T.DramUsage, T.NvramUsage, T.DemotionPages;
    UsagesOf(961, 280);
    PagesAskedFor();
  }

  lemma UsagesOf(dramUsed: int, nvramUsed: int)
    ensures T.DramUsage(Figures(dramUsed, nvramUsed)) * 1000.0 == dramUsed as real
    ensures T.NvramUsage(Figures(dramUsed, nvramUsed)) * 300.0 == nvramUsed as real
  {
  }

  lemma PagesAskedFor()
    ensures T.DramUsage(Figures(949, 292)) < T.DRAM_TARGET && T.IntensivePages(Figures(949, 292)) == 11
    ensures T.BytesBelow(951, 1000, T.DRAM_LIMIT) == 9.0
    ensures T.DramUsage(Figures(961, 280)) > T.DRAM_LIMIT && T.NvramUsage(Figures(961, 280)) < T.NVRAM_TARGET
    ensures T.DemotionPages(Figures(961, 280)) == 5
  {
  }
}
