/** The placement policy of the memcheck thread, in exact arithmetic: when it moves pages between the tiers and
    how many, and why it never moves them back and forth. */
module Thresholds {
  import opened Ambix

  const DRAM_TARGET: real := 0.95
  const DRAM_LIMIT: real := 0.96
  const NVRAM_TARGET: real := 0.95
  const NVRAM_LIMIT: real := 0.98

  /** Sizes and used bytes of the two tiers, and the page size in bytes. */
  datatype Tiers = Tiers(dramSize: nat, nvramSize: nat, dramUsed: int, nvramUsed: int, pageSize: nat)

  predicate Sized(m: Tiers) {
    m.dramSize > 0 && m.nvramSize > 0 && m.pageSize > 0
  }

  /** `free_space_tot_per`. */
  function DramUsage(m: Tiers): real
    requires Sized(m)
  {
    m.dramUsed as real / m.dramSize as real
  }

  function NvramUsage(m: Tiers): real
    requires Sized(m)
  {
    m.nvramUsed as real / m.nvramSize as real
  }

  /** `(usage - t) * size`: the bytes by which a tier exceeds a threshold. */
  function BytesAbove(used: int, size: nat, t: real): real
    requires size > 0
  {
    (used as real / size as real - t) * size as real
  }

  /** `(t - usage) * size`: the bytes that are missing to a threshold. */
  function BytesBelow(used: int, size: nat, t: real): real
    requires size > 0
  {
    (t - used as real / size as real) * size as real
  }

  /** A byte count in floating point becomes a page count, capped by what one request may ask for. */
  function PageCount(bytes: real, pageSize: nat): (n: nat)
    requires bytes >= 0.0 && pageSize > 0
  {
    IntMin(bytes.Floor / pageSize, MAX_N_FIND)
  }

  function RealMin(a: real, b: real): real {
    if a < b then a else b
  }

  /** `k` pages from DRAM to NVRAM. */
  function Demote(m: Tiers, k: nat): Tiers {
    m.(dramUsed := m.dramUsed - k * m.pageSize, nvramUsed := m.nvramUsed + k * m.pageSize)
  }

  /** `k` pages from NVRAM to DRAM. */
  function Promote(m: Tiers, k: nat): Tiers {
    m.(dramUsed := m.dramUsed + k * m.pageSize, nvramUsed := m.nvramUsed - k * m.pageSize)
  }

  // ---- One round of the thread -------------------------------------------------------------------

  datatype Branch = NoMove | Demotion | Promotion

  /** One round: which components are on, whether NVRAM is busy, and how many pages really moved: `intensive` by an
      INTENSIVE request, `toDram` and `toNvram` by a SWITCH, `moved` by the threshold component. */
  datatype Round = Round(switchAct: bool, threshAct: bool, busy: bool, intensive: nat, toDram: nat, toNvram: nat,
                         moved: nat)

  /** The two branches of the bandwidth component. */
  predicate TakesIntensive(m: Tiers, r: Round)
    requires Sized(m)
  {
    r.switchAct && r.busy && DramUsage(m) < DRAM_TARGET
  }

  predicate TakesSwitch(m: Tiers, r: Round)
    requires Sized(m)
  {
    r.switchAct && r.busy && DramUsage(m) >= DRAM_TARGET
  }

  function IntensivePages(m: Tiers): nat
    requires Sized(m) && DramUsage(m) < DRAM_TARGET
  {
    Excess(m.dramUsed, m.dramSize, DRAM_LIMIT);
    PageCount(BytesBelow(m.dramUsed, m.dramSize, DRAM_LIMIT), m.pageSize)
  }

  /** The branch of the threshold component. */
  function ThresholdBranch(m: Tiers, switchAct: bool, threshAct: bool): Branch
    requires Sized(m)
  {
    if !threshAct then NoMove
    else if DramUsage(m) > DRAM_LIMIT && NvramUsage(m) < NVRAM_TARGET then Demotion
    else if !switchAct && NvramUsage(m) > NVRAM_LIMIT && DramUsage(m) < DRAM_TARGET then Promotion
    else NoMove
  }

  function DemotionPages(m: Tiers): nat
    requires Sized(m) && DramUsage(m) > DRAM_LIMIT && NvramUsage(m) < NVRAM_TARGET
  {
    Excess(m.dramUsed, m.dramSize, DRAM_TARGET);
    Excess(m.nvramUsed, m.nvramSize, NVRAM_TARGET);
    PageCount(RealMin(BytesAbove(m.dramUsed, m.dramSize, DRAM_TARGET),
                      BytesBelow(m.nvramUsed, m.nvramSize, NVRAM_TARGET)), m.pageSize)
  }

  function PromotionPages(m: Tiers): nat
    requires Sized(m) && NvramUsage(m) > NVRAM_LIMIT && DramUsage(m) < DRAM_TARGET
  {
    Excess(m.dramUsed, m.dramSize, DRAM_TARGET);
    Excess(m.nvramUsed, m.nvramSize, NVRAM_TARGET);
    PageCount(RealMin(BytesAbove(m.nvramUsed, m.nvramSize, NVRAM_TARGET),
                      BytesBelow(m.dramUsed, m.dramSize, DRAM_TARGET)), m.pageSize)
  }

  /** The tiers after the bandwidth component. */
  function AfterBandwidth(m: Tiers, r: Round): Tiers
    requires Sized(m)
  {
    if TakesIntensive(m, r) then Promote(m, r.intensive)
    else if TakesSwitch(m, r) then Demote(Promote(m, r.toDram), r.toNvram)
    else m
  }

  /** What the threshold component knows of them: the usages are read again after an INTENSIVE, but not after a
      SWITCH. */
  function Reading(m: Tiers, r: Round): Tiers
    requires Sized(m)
  {
    if TakesIntensive(m, r) then Promote(m, r.intensive) else m
  }

  /** The tiers after the whole round. */
  function AfterRound(m: Tiers, r: Round): Tiers
    requires Sized(m)
  {
    match ThresholdBranch(Reading(m, r), r.switchAct, r.threshAct)
    case Demotion => Demote(AfterBandwidth(m, r), r.moved)
    case Promotion => Promote(AfterBandwidth(m, r), r.moved)
    case NoMove => AfterBandwidth(m, r)
  }

  /** The round may take pages to DRAM for good. */
  predicate Promotes(m: Tiers, r: Round)
    requires Sized(m)
  {
    TakesIntensive(m, r) || ThresholdBranch(Reading(m, r), r.switchAct, r.threshAct).Promotion?
  }

  /** The round may take pages to NVRAM for good. */
  predicate Demotes(m: Tiers, r: Round)
    requires Sized(m)
  {
    ThresholdBranch(Reading(m, r), r.switchAct, r.threshAct).Demotion?
  }

  /** No component moved more pages than it asked for. */
  predicate Admissible(m: Tiers, r: Round)
    requires Sized(m)
  {
    && (TakesIntensive(m, r) ==> r.intensive <= IntensivePages(m))
    && (TakesSwitch(m, r) ==> r.toDram <= MAX_N_SWITCH && r.toNvram <= MAX_N_SWITCH)
    && var read := Reading(m, r);
       && (Demotes(m, r) ==> r.moved <= DemotionPages(read))
       && (ThresholdBranch(read, r.switchAct, r.threshAct).Promotion? ==> r.moved <= PromotionPages(read))
  }

  /** A DRAM usage at or below its limit stays there, and one at or above its target stays there: the first rules
      out demotion, the second promotion. */
  predicate KeepsSides(m: Tiers, after: Tiers)
    requires Sized(m) && Sized(after)
  {
    && (DramUsage(m) <= DRAM_LIMIT ==> DramUsage(after) <= DRAM_LIMIT)
    && (DramUsage(m) >= DRAM_TARGET ==> DramUsage(after) >= DRAM_TARGET)
  }

  /** What a SWITCH must leave alone: it takes no more bytes out of DRAM, on balance and together with a demotion
      in the same round, than DRAM holds above its target; and when DRAM is within its limit, it brings no more
      bytes than are missing to the limit. A round without a SWITCH is harmless. */
  predicate Harmless(m: Tiers, r: Round)
    requires Sized(m)
  {
    TakesSwitch(m, r) ==>
      && (r.toNvram * m.pageSize - r.toDram * m.pageSize + if Demotes(m, r) then r.moved * m.pageSize else 0) as real
         <= BytesAbove(m.dramUsed, m.dramSize, DRAM_TARGET)
      && (DramUsage(m) <= DRAM_LIMIT ==>
            (r.toDram * m.pageSize - r.toNvram * m.pageSize) as real
            <= BytesBelow(m.dramUsed, m.dramSize, DRAM_LIMIT))
  }

  /** One pass of the thread's loop, after the usages were read: `share` says how many of the pages that a
      component asks for really move, `toDram` and `toNvram` how many pages a SWITCH moves. It conserves what is
      used, brings each tier no further than its threshold, and keeps DRAM on its side of target and limit exactly
      when its SWITCH, if there is one, is harmless. */
  method MemcheckRound(m: Tiers, switchAct: bool, threshAct: bool, busy: bool, share: nat -> nat, toDram: nat,
                       toNvram: nat)
    returns (r: Round, after: Tiers)
    requires Sized(m) && forall n :: share(n) <= n
    requires toDram <= MAX_N_SWITCH && toNvram <= MAX_N_SWITCH
    ensures r == Round(switchAct, threshAct, busy, r.intensive, toDram, toNvram, r.moved)
    ensures Admissible(m, r) && after == AfterRound(m, r)
    ensures Sized(after) && after.dramUsed + after.nvramUsed == m.dramUsed + m.nvramUsed
    ensures KeepsSides(m, after) <==> Harmless(m, r)
    ensures r.intensive == if switchAct && busy && DramUsage(m) < DRAM_TARGET then share(IntensivePages(m)) else 0
    ensures var read := Promote(m, r.intensive);
            r.moved ==
            if !threshAct then 0
            else if DramUsage(read) > DRAM_LIMIT && NvramUsage(read) < NVRAM_TARGET then share(DemotionPages(read))
            else if !switchAct && NvramUsage(read) > NVRAM_LIMIT && DramUsage(read) < DRAM_TARGET
            then share(PromotionPages(read))
            else 0
    ensures var read := Promote(m, r.intensive);
            var banded := if switchAct && busy && DramUsage(m) >= DRAM_TARGET then Demote(Promote(m, toDram), toNvram)
                          else read;
            after == if DramUsage(read) > DRAM_LIMIT then Demote(banded, r.moved) else Promote(banded, r.moved)
    ensures !threshAct && !(switchAct && busy) ==> after == m
    ensures switchAct && busy && DramUsage(m) < DRAM_TARGET ==> DramUsage(m) <= DramUsage(after) <= DRAM_LIMIT
    ensures threshAct && !(switchAct && busy) && DramUsage(m) > DRAM_LIMIT && NvramUsage(m) < NVRAM_TARGET ==>
              DRAM_TARGET <= DramUsage(after) <= DramUsage(m) && NvramUsage(after) <= NVRAM_TARGET
    ensures threshAct && !switchAct && NvramUsage(m) > NVRAM_LIMIT && DramUsage(m) < DRAM_TARGET ==>
              DramUsage(m) <= DramUsage(after) <= DRAM_TARGET && NVRAM_TARGET <= NvramUsage(after)
  {
    hide DramUsage, NvramUsage, BytesAbove, BytesBelow, PageCount, IntensivePages, DemotionPages, PromotionPages,
      KeepsSides, Harmless;
    var intensive, moved := 0, 0;
    var read := m;
    after := m;
    if switchAct && busy {
      if DramUsage(m) >= DRAM_TARGET {
        after := Demote(Promote(m, toDram), toNvram);
      } else {
        intensive := share(IntensivePages(m));
        IntensiveStops(m, intensive);
        UsageGrows(m, intensive);
        after := Promote(m, intensive);
        read := after;
      }
    }
    if threshAct {
      if DramUsage(read) > DRAM_LIMIT && NvramUsage(read) < NVRAM_TARGET {
        moved := share(DemotionPages(read));
        DemotionStops(read, moved);
        UsageGrows(read, moved);
        after := Demote(after, moved);
      } else if !switchAct && NvramUsage(read) > NVRAM_LIMIT && DramUsage(read) < DRAM_TARGET {
        moved := share(PromotionPages(read));
        PromotionStops(read, moved);
        UsageGrows(read, moved);
        after := Promote(after, moved);
      }
    }
    r := Round(switchAct, threshAct, busy, intensive, toDram, toNvram, moved);
    RoundKeepsSides(m, r);
  }

  // ---- Page counts -------------------------------------------------------------------------------

  /** A page count is the largest number of pages that fit, up to what one request may ask for. */
  lemma PageCountBound(bytes: real, pageSize: nat, k: nat)
    requires bytes >= 0.0 && pageSize > 0
    ensures k <= PageCount(bytes, pageSize) <==> k <= MAX_N_FIND && (k * pageSize) as real <= bytes
  {
    var n := bytes.Floor;
    ProductAgainst(n, pageSize, k);
    var m := k * pageSize;
    assert m <= n <==> m as real <= bytes;
  }

  lemma ProductAgainst(n: nat, d: nat, k: nat)
    requires d > 0
    ensures k * d <= n <==> k <= n / d
  {
    var q := n / d;
    assert q * d <= n < q * d + d;
    if k <= q {
      assert k * d <= q * d;
    } else {
      assert k * d >= (q + 1) * d == q * d + d;
    }
  }

  lemma UsageTimesSize(used: int, size: nat)
    requires size > 0
    ensures (used as real / size as real) * size as real == used as real
  {
  }

  /** Comparing a usage with a threshold is comparing bytes. */
  lemma UsageAgainst(used: int, size: nat, t: real)
    requires size > 0
    ensures used as real / size as real < t <==> (used as real) < t * size as real
    ensures used as real / size as real > t <==> used as real > t * size as real
    ensures (used as real / size as real - t) * size as real == used as real - t * size as real
    ensures (t - used as real / size as real) * size as real == t * size as real - used as real
  {
    UsageTimesSize(used, size);
  }

  /** Taking away no more than the excess over a threshold is what does not fall below it. */
  lemma StaysAbove(used: int, size: nat, taken: int, t: real)
    requires size > 0
    ensures taken as real <= BytesAbove(used, size, t) <==> (used - taken) as real / size as real >= t
  {
    UsageAgainst(used, size, t);
    UsageAgainst(used - taken, size, t);
  }

  /** Adding no more than the room below a threshold is what does not exceed it. */
  lemma StaysBelow(used: int, size: nat, added: int, t: real)
    requires size > 0
    ensures added as real <= BytesBelow(used, size, t) <==> (used + added) as real / size as real <= t
  {
    UsageAgainst(used, size, t);
    UsageAgainst(used + added, size, t);
  }

  lemma Excess(used: int, size: nat, t: real)
    requires size > 0
    ensures used as real / size as real >= t ==> BytesAbove(used, size, t) >= 0.0
    ensures used as real / size as real <= t ==> BytesBelow(used, size, t) >= 0.0
  {
    UsageAgainst(used, size, t);
  }

  /** A demotion asks for the largest number of pages that leaves DRAM at or above its target and NVRAM at or below
      its, up to what one request may ask for. */
  lemma DemotionStops(m: Tiers, k: nat)
    requires Sized(m) && DramUsage(m) > DRAM_LIMIT && NvramUsage(m) < NVRAM_TARGET
    ensures k <= DemotionPages(m) <==>
            && k <= MAX_N_FIND
            && DramUsage(Demote(m, k)) >= DRAM_TARGET && NvramUsage(Demote(m, k)) <= NVRAM_TARGET
  {
    hide BytesAbove, BytesBelow, PageCount;
    var over, room := BytesAbove(m.dramUsed, m.dramSize, DRAM_TARGET),
        BytesBelow(m.nvramUsed, m.nvramSize, NVRAM_TARGET);
    Excess(m.dramUsed, m.dramSize, DRAM_TARGET);
    Excess(m.nvramUsed, m.nvramSize, NVRAM_TARGET);
    PageCountBound(RealMin(over, room), m.pageSize, k);
    StaysAbove(m.dramUsed, m.dramSize, k * m.pageSize, DRAM_TARGET);
    StaysBelow(m.nvramUsed, m.nvramSize, k * m.pageSize, NVRAM_TARGET);
  }

  /** A promotion asks for the largest number of pages that leaves NVRAM at or above its target and DRAM at or below
      its, up to what one request may ask for. */
  lemma PromotionStops(m: Tiers, k: nat)
    requires Sized(m) && NvramUsage(m) > NVRAM_LIMIT && DramUsage(m) < DRAM_TARGET
    ensures k <= PromotionPages(m) <==>
            && k <= MAX_N_FIND
            && NvramUsage(Promote(m, k)) >= NVRAM_TARGET && DramUsage(Promote(m, k)) <= DRAM_TARGET
  {
    hide BytesAbove, BytesBelow, PageCount;
    var over, room := BytesAbove(m.nvramUsed, m.nvramSize, NVRAM_TARGET),
        BytesBelow(m.dramUsed, m.dramSize, DRAM_TARGET);
    Excess(m.dramUsed, m.dramSize, DRAM_TARGET);
    Excess(m.nvramUsed, m.nvramSize, NVRAM_TARGET);
    PageCountBound(RealMin(over, room), m.pageSize, k);
    StaysAbove(m.nvramUsed, m.nvramSize, k * m.pageSize, NVRAM_TARGET);
    StaysBelow(m.dramUsed, m.dramSize, k * m.pageSize, DRAM_TARGET);
  }

  /** INTENSIVE asks for the largest number of pages that leaves DRAM at or below its limit, up to what one request
      may ask for; so the same round cannot demote. */
  lemma IntensiveStops(m: Tiers, k: nat)
    requires Sized(m) && DramUsage(m) < DRAM_TARGET
    ensures k <= IntensivePages(m) <==> k <= MAX_N_FIND && DramUsage(Promote(m, k)) <= DRAM_LIMIT
  {
    hide BytesAbove, BytesBelow, PageCount;
    Excess(m.dramUsed, m.dramSize, DRAM_LIMIT);
    PageCountBound(BytesBelow(m.dramUsed, m.dramSize, DRAM_LIMIT), m.pageSize, k);
    StaysBelow(m.dramUsed, m.dramSize, k * m.pageSize, DRAM_LIMIT);
  }

  lemma UsageGrows(m: Tiers, k: nat)
    requires Sized(m)
    ensures DramUsage(Promote(m, k)) >= DramUsage(m) && DramUsage(Demote(m, k)) <= DramUsage(m)
  {
    assert k * m.pageSize >= 0;
    QuotientMonotone(m.dramUsed, m.dramUsed + k * m.pageSize, m.dramSize);
    QuotientMonotone(m.dramUsed - k * m.pageSize, m.dramUsed, m.dramSize);
  }

  lemma QuotientMonotone(a: int, b: int, size: nat)
    requires size > 0 && a <= b
    ensures a as real / size as real <= b as real / size as real
  {
    UsageAgainst(a, size, b as real / size as real);
    UsageTimesSize(b, size);
  }

  // ---- No ping-pong --------------------------------------------------------------------------------

  lemma StaySized(m: Tiers, k: nat)
    requires Sized(m)
    ensures Sized(Demote(m, k)) && Sized(Promote(m, k))
  {
  }

  /** A SWITCH, with the demotion that may follow it in the same round, keeps the sides exactly when it is
      harmless. */
  lemma SwitchKeepsSides(m: Tiers, r: Round)
    requires Sized(m) && TakesSwitch(m, r)
    ensures Sized(AfterRound(m, r)) && !Promotes(m, r)
    ensures KeepsSides(m, AfterRound(m, r)) <==> Harmless(m, r)
  {
    var demoted := if Demotes(m, r) then r.moved * m.pageSize else 0;
    var taken := r.toNvram * m.pageSize - r.toDram * m.pageSize + demoted;
    var after := AfterRound(m, r);
    SwitchBytes(m, r, taken);
    StaysAbove(m.dramUsed, m.dramSize, taken, DRAM_TARGET);
    StaysBelow(m.dramUsed, m.dramSize, -taken, DRAM_LIMIT);
  }

  lemma SwitchBytes(m: Tiers, r: Round, taken: int)
    requires Sized(m) && TakesSwitch(m, r)
    requires taken == r.toNvram * m.pageSize - r.toDram * m.pageSize + if Demotes(m, r) then r.moved * m.pageSize else 0
    ensures AfterRound(m, r).dramUsed == m.dramUsed - taken && AfterRound(m, r).dramSize == m.dramSize
    ensures Sized(AfterRound(m, r)) && !Promotes(m, r)
  {
    hide DramUsage, NvramUsage;
  }

  /** A round keeps DRAM on its side of target and limit if and only if its SWITCH, if there is one, is harmless.
      Only below its target does DRAM receive pages for good, only above its limit does it lose them. */
  lemma RoundKeepsSides(m: Tiers, r: Round)
    requires Sized(m) && Admissible(m, r)
    ensures Sized(AfterRound(m, r))
    ensures KeepsSides(m, AfterRound(m, r)) <==> Harmless(m, r)
    ensures Promotes(m, r) ==> DramUsage(m) < DRAM_TARGET && DramUsage(AfterRound(m, r)) <= DRAM_LIMIT
    ensures Demotes(m, r) ==> DramUsage(m) > DRAM_LIMIT
  {
    hide DramUsage, NvramUsage, IntensivePages, DemotionPages, PromotionPages, Demote, Promote;
    StaySized(m, r.intensive);
    var read := Reading(m, r);
    StaySized(read, r.moved);
    if TakesSwitch(m, r) {
      SwitchKeepsSides(m, r);
    } else {
      UsageGrows(m, r.intensive);
      if TakesIntensive(m, r) {
        IntensiveStops(m, r.intensive);
      }
      match ThresholdBranch(read, r.switchAct, r.threshAct) {
        case Demotion => DemotionStops(read, r.moved);
        case Promotion => PromotionStops(read, r.moved);
        case NoMove =>
      }
    }
  }

  /** A harmful SWITCH opens the direction that was ruled out before it: it lifts DRAM above its limit, so that the
      next threshold round demotes as soon as NVRAM has room, or lowers it below its target, so that the next busy
      round promotes. */
  lemma HarmfulSwitchOpens(m: Tiers, r: Round, next: Round)
    requires Sized(m) && Admissible(m, r) && TakesSwitch(m, r) && !Harmless(m, r)
    ensures var after := AfterRound(m, r);
            && Sized(after)
            && (|| (&& DramUsage(m) <= DRAM_LIMIT < DramUsage(after)
                    && (next.threshAct && NvramUsage(after) < NVRAM_TARGET ==> Demotes(after, next)))
                || (&& DramUsage(after) < DRAM_TARGET <= DramUsage(m)
                    && (next.switchAct && next.busy ==> Promotes(after, next))))
  {
    hide DramUsage, NvramUsage, Harmless, Admissible, Demote, Promote;
    RoundKeepsSides(m, r);
  }

  /** A SWITCH that does not make DRAM emptier is harmless, whatever the same round demotes, exactly when what it
      brings fits below the limit of a DRAM that was within its limit. */
  lemma FillingSwitch(m: Tiers, r: Round)
    requires Sized(m) && Admissible(m, r) && TakesSwitch(m, r) && r.toDram >= r.toNvram
    ensures Harmless(m, r) <==>
            (DramUsage(m) <= DRAM_LIMIT ==>
               (r.toDram * m.pageSize - r.toNvram * m.pageSize) as real
               <= BytesBelow(m.dramUsed, m.dramSize, DRAM_LIMIT))
  {
    hide PageCount, BytesAbove, BytesBelow;
    Excess(m.dramUsed, m.dramSize, DRAM_TARGET);
    assert r.toNvram * m.pageSize <= r.toDram * m.pageSize;
    if Demotes(m, r) {
      Excess(m.nvramUsed, m.nvramSize, NVRAM_TARGET);
      PageCountBound(RealMin(BytesAbove(m.dramUsed, m.dramSize, DRAM_TARGET),
                             BytesBelow(m.nvramUsed, m.nvramSize, NVRAM_TARGET)), m.pageSize, r.moved);
    }
  }

  /** A SWITCH that moves as many pages each way is harmless, whatever the same round demotes. */
  lemma EvenSwitchIsHarmless(m: Tiers, r: Round)
    requires Sized(m) && Admissible(m, r) && r.toDram == r.toNvram
    ensures Harmless(m, r)
  {
    hide BytesAbove, BytesBelow;
    Excess(m.dramUsed, m.dramSize, DRAM_LIMIT);
    if TakesSwitch(m, r) {
      FillingSwitch(m, r);
    }
  }

  /** A run of the thread without outside allocation; the components may be switched on and off between rounds,
      the bandwidth may be anything, and any part of the requested pages may have moved. */
  ghost predicate IsRun(tiers: seq<Tiers>, rounds: seq<Round>) {
    && |tiers| == |rounds| + 1
    && (forall i :: 0 <= i < |tiers| ==> Sized(tiers[i]))
    && (forall i :: 0 <= i < |rounds| ==> Follows(tiers, rounds, i))
  }

  ghost predicate Follows(tiers: seq<Tiers>, rounds: seq<Round>, i: nat)
    requires i < |rounds| && |tiers| == |rounds| + 1 && Sized(tiers[i])
  {
    Admissible(tiers[i], rounds[i]) && tiers[i + 1] == AfterRound(tiers[i], rounds[i])
  }

  /** From round `i` up to round `j`, every SWITCH is harmless. */
  ghost predicate HarmlessBetween(tiers: seq<Tiers>, rounds: seq<Round>, i: nat, j: nat)
    requires IsRun(tiers, rounds) && j <= |rounds|
  {
    forall k :: i <= k < j ==> Harmless(tiers[k], rounds[k])
  }

  lemma {:induction false} SidesOverRun(tiers: seq<Tiers>, rounds: seq<Round>, i: nat, j: nat)
    requires IsRun(tiers, rounds) && i <= j < |tiers| && HarmlessBetween(tiers, rounds, i, j)
    ensures KeepsSides(tiers[i], tiers[j])
    decreases j
  {
    hide DramUsage, AfterRound, Admissible, Harmless;
    if i < j {
      SidesOverRun(tiers, rounds, i, j - 1);
      assert Follows(tiers, rounds, j - 1) && Harmless(tiers[j - 1], rounds[j - 1]);
      RoundKeepsSides(tiers[j - 1], rounds[j - 1]);
    }
  }

  /** DRAM stays on its sides throughout a run if and only if every SWITCH of the run is harmless. */
  lemma {:induction false} RunKeepsSides(tiers: seq<Tiers>, rounds: seq<Round>)
    requires IsRun(tiers, rounds)
    ensures (forall i, j :: 0 <= i <= j < |tiers| ==> KeepsSides(tiers[i], tiers[j])) <==>
            HarmlessBetween(tiers, rounds, 0, |rounds|)
  {
    hide AfterRound, Admissible, Harmless, KeepsSides;
    if HarmlessBetween(tiers, rounds, 0, |rounds|) {
      forall i, j | 0 <= i <= j < |tiers| ensures KeepsSides(tiers[i], tiers[j]) {
        SidesOverRun(tiers, rounds, i, j);
      }
    } else {
      var k :| 0 <= k < |rounds| && !Harmless(tiers[k], rounds[k]);
      assert Follows(tiers, rounds, k);
      RoundKeepsSides(tiers[k], rounds[k]);
      assert !KeepsSides(tiers[k], tiers[k + 1]);
    }
  }

  /** No run takes pages to DRAM for good in one round and to NVRAM for good in another, unless a SWITCH in
      between is harmful. */
  lemma {:induction false} NoPingPong(tiers: seq<Tiers>, rounds: seq<Round>, i: nat, j: nat)
    requires IsRun(tiers, rounds) && i < |rounds| && j < |rounds|
    requires if i <= j then HarmlessBetween(tiers, rounds, i, j) else HarmlessBetween(tiers, rounds, j, i)
    ensures !(Promotes(tiers[i], rounds[i]) && Demotes(tiers[j], rounds[j]))
  {
    hide AfterRound, Admissible, Promotes, Demotes, Harmless, Reading;
    assert Follows(tiers, rounds, i) && Follows(tiers, rounds, j);
    RoundKeepsSides(tiers[i], rounds[i]);
    RoundKeepsSides(tiers[j], rounds[j]);
    if i < j {
      SidesOverRun(tiers, rounds, i + 1, j);
    } else if j < i {
      SidesOverRun(tiers, rounds, j, i);
    }
  }
}
