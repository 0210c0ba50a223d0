/** What requests for pages are answered with, in terms of page bits and counts alone. */
module Requests {
  import opened Ambix
  import opened PageTable
  import opened PageTableLemmas
  import opened Selection
  import opened ClockOrder
  import opened Ring
  import opened TaskTable
  import opened SwitchSpec
  import opened PlacementModule
  import F = Fairness
  import opened AnswerTheorems

  // ---- Page classes ------------------------------------------------------------------------------

  predicate OnDram(p: Pte) {
    p.present && p.write && p.node in DRAM_NODES
  }

  predicate OnNvram(p: Pte) {
    p.present && p.write && p.node in NVRAM_NODES
  }

  predicate IdleDram(p: Pte) {
    OnDram(p) && !p.young
  }

  predicate YoungCleanDram(p: Pte) {
    OnDram(p) && p.young && !p.dirty
  }

  predicate YoungDirtyDram(p: Pte) {
    OnDram(p) && p.young && p.dirty
  }

  predicate YoungDirtyNvram(p: Pte) {
    OnNvram(p) && p.young && p.dirty
  }

  predicate YoungCleanNvram(p: Pte) {
    OnNvram(p) && p.young && !p.dirty
  }

  predicate OldDirtyNvram(p: Pte) {
    OnNvram(p) && !p.young && p.dirty
  }

  predicate NotBothNvram(p: Pte) {
    OnNvram(p) && !(p.young && p.dirty)
  }

  predicate YoungDram(p: Pte) {
    OnDram(p) && p.young
  }

  predicate NotYoungCleanNvram(p: Pte) {
    OnNvram(p) && !(p.young && !p.dirty)
  }

  predicate NoPage(p: Pte) {
    false
  }

  // ---- The pages that are met --------------------------------------------------------------------

  function AroundUpTo(tasks: seq<int>, mem: Memory, h: Hand, j: nat): seq<Visit>
    requires h.slot < |tasks| && j <= |tasks|
  {
    if j == 0 then []
    else
      AroundUpTo(tasks, mem, h, j - 1) +
      if j == 1 then Segment(mem, tasks[h.slot], h.addr, MAX_ADDRESS)
      else Segment(mem, tasks[SlotAfter(h.slot, j - 1, |tasks|)], 0, MAX_ADDRESS)
  }

  /** Every page of every task once, as it is in the page tables, from the hand on and round to it again. */
  function Around(tasks: seq<int>, mem: Memory, h: Hand): seq<Visit>
    requires h.slot < |tasks|
  {
    AroundUpTo(tasks, mem, h, |tasks|) + Segment(mem, tasks[h.slot], 0, h.addr)
  }

  /** What a walk from the hand meets if nothing stops it: every page once, and the page at the hand a second time,
      perhaps clean by then. */
  ghost predicate Met(tasks: seq<int>, mem: Memory, h: Hand, vs: seq<Visit>)
    requires h.slot < |tasks|
  {
    var around, at := Around(tasks, mem, h), Segment(mem, tasks[h.slot], h.addr, h.addr + 1);
    && |vs| == |around| + |at| && vs[..|around|] == around
    && forall x :: 0 <= x < |at| ==>
         var v := vs[|around| + x];
         v == at[x] || v == Visit(at[x].pid, at[x].pte.(dirty := false))
  }

  lemma {:induction false} RangeSame(pid: int, t1: seq<Pte>, t2: seq<Pte>, lo: nat, hi: nat)
    requires |t1| == |t2| && forall i :: 0 <= i < |t1| ==> t1[i].addr == t2[i].addr
    requires forall i :: 0 <= i < |t1| && lo <= t1[i].addr < hi ==> t1[i] == t2[i]
    ensures Range(pid, t1, lo, hi) == Range(pid, t2, lo, hi)
  {
    if |t1| > 0 {
      RangeSame(pid, t1[..|t1| - 1], t2[..|t2| - 1], lo, hi);
    }
  }

  /** What touching the pages from the hand on does to the pages before it, and to the page at it. */
  lemma {:induction false} HandTouched(cb: Callback, mem: Memory, pid: int, addr: nat)
    requires WellFormed(mem) && addr < MAX_ADDRESS
    ensures var now := TouchAll(cb, mem, Segment(mem, pid, addr, MAX_ADDRESS));
            && WellFormed(now)
            && Segment(now, pid, 0, addr) == Segment(mem, pid, 0, addr)
            && F.VisitsTouched(cb, Segment(mem, pid, addr, addr + 1), Segment(now, pid, addr, addr + 1))
  {
    hide Touch, Range;
    var first := Segment(mem, pid, addr, MAX_ADDRESS);
    var now := TouchAll(cb, mem, first);
    TouchAllPointwise(cb, mem, first);
    YoungSurvives(cb, mem, first);
    WellFormedPreserved(mem, now);
    if pid in mem {
      forall i | 0 <= i < |mem[pid]|
        ensures now[pid][i].addr == mem[pid][i].addr
        ensures mem[pid][i].addr < addr ==> now[pid][i] == mem[pid][i]
      {
        F.AddressTouched(cb, mem[pid][i]);
        if mem[pid][i].addr < addr && Touched(first, pid, mem[pid][i].addr) {
          var k :| 0 <= k < |first| && first[k].pid == pid && first[k].pte.addr == mem[pid][i].addr;
          RangeMember(pid, mem[pid], addr, MAX_ADDRESS, k);
        }
      }
      RangeSame(pid, now[pid], mem[pid], 0, addr);
      F.RangeTouched(cb, pid, mem[pid], now[pid], addr, addr + 1);
    }
  }

  lemma {:induction false} StretchesAreAround(cb: Callback, tasks: seq<int>, mem: Memory, h: Hand, j: nat)
    requires h.slot < |tasks| && j <= |tasks|
    ensures Stretches(cb, tasks, mem, h.slot, h.addr, j) == AroundUpTo(tasks, mem, h, j)
  {
    hide Segment;
    if j > 0 {
      StretchesAreAround(cb, tasks, mem, h, j - 1);
    }
  }

  lemma {:induction false} CycleIsMet(cb: Callback, tasks: seq<int>, mem: Memory, h: Hand)
    requires h.slot < |tasks| && h.addr < MAX_ADDRESS && WellFormed(mem)
    ensures Met(tasks, mem, h, Cycle(cb, tasks, mem, h.slot, h.addr))
  {
    hide Segment, TouchAll, WellFormed, AroundUpTo, Touch, F.VisitsTouched, Met, Stretches;
    var n, pid := |tasks|, tasks[h.slot];
    var first := Segment(mem, pid, h.addr, MAX_ADDRESS);
    var now := TouchAll(cb, mem, first);
    var up, low := AroundUpTo(tasks, mem, h, n), Segment(now, pid, 0, h.addr);
    var at := Segment(now, pid, h.addr, h.addr + 1);
    StretchesAreAround(cb, tasks, mem, h, n);
    StretchesNext(cb, tasks, mem, h.slot, h.addr, n);
    HandTouched(cb, mem, pid, h.addr);
    SegmentSplit(now, pid, 0, h.addr, h.addr + 1);
    Assoc(up, low, at);
    assert Cycle(cb, tasks, mem, h.slot, h.addr) == Around(tasks, mem, h) + at;
    MetAgain(cb, tasks, mem, h, at);
  }

  lemma MetAgain(cb: Callback, tasks: seq<int>, mem: Memory, h: Hand, at: seq<Visit>)
    requires h.slot < |tasks| && F.VisitsTouched(cb, Segment(mem, tasks[h.slot], h.addr, h.addr + 1), at)
    ensures Met(tasks, mem, h, Around(tasks, mem, h) + at)
  {
    hide Segment, Around, Touch;
    var was := Segment(mem, tasks[h.slot], h.addr, h.addr + 1);
    forall x | 0 <= x < |at|
      ensures at[x] == was[x] || at[x] == Visit(was[x].pid, was[x].pte.(dirty := false))
    {
      OnlyCleaned(cb, was[x].pte);
    }
  }

  lemma OnlyCleaned(cb: Callback, p: Pte)
    ensures Touch(cb, p) == p || Touch(cb, p) == p.(dirty := false)
  {
  }

  // ---- Two passes over what is met ---------------------------------------------------------------

  function Pick(vs: seq<Visit>, want: Pte -> bool): seq<AddrInfo> {
    if |vs| == 0 then []
    else
      var v := vs[|vs| - 1];
      Pick(vs[..|vs| - 1], want) + if want(v.pte) then [AddrInfo(v.pte.addr, v.pid)] else []
  }

  function CountOf(vs: seq<Visit>, want: Pte -> bool): nat {
    if |vs| == 0 then 0 else CountOf(vs[..|vs| - 1], want) + if want(vs[|vs| - 1].pte) then 1 else 0
  }

  ghost predicate IsMet(e: AddrInfo, vs: seq<Visit>, want: Pte -> bool) {
    exists v :: v in vs && v.pte.addr == e.addr && v.pid == e.pidRetval && want(v.pte)
  }

  /** The list holds pages of the two classes, those of the first class first; as many as were asked for, or all that
      were met; and a page is left out only when the list is full, for a page of the first class only when it is
      full of such pages. */
  ghost predicate TwoPasses(list: seq<AddrInfo>, n: nat, vs: seq<Visit>, first: Pte -> bool, second: Pte -> bool) {
    && list == Take(n, Pick(vs, first) + Pick(vs, second))
    && |list| == IntMin(n, CountOf(vs, first) + CountOf(vs, second))
    && (forall e :: e in list ==> IsMet(e, vs, first) || IsMet(e, vs, second))
    && (forall e :: e !in list && IsMet(e, vs, first) ==>
          |list| == n && forall other :: other in list ==> IsMet(other, vs, first))
    && (forall e :: e !in list && IsMet(e, vs, second) ==> |list| == n)
  }

  lemma {:induction false} PickCounts(vs: seq<Visit>, want: Pte -> bool)
    ensures |Pick(vs, want)| == CountOf(vs, want)
  {
    if |vs| > 0 {
      PickCounts(vs[..|vs| - 1], want);
    }
  }

  lemma {:induction false} PickMembers(vs: seq<Visit>, want: Pte -> bool, e: AddrInfo)
    ensures e in Pick(vs, want) <==> IsMet(e, vs, want)
  {
    if |vs| > 0 {
      var us, v := vs[..|vs| - 1], vs[|vs| - 1];
      assert vs == us + [v];
      PickMembers(us, want, e);
    }
  }

  lemma {:induction false} PicksAre(cb: Callback, vs: seq<Visit>, first: Pte -> bool, second: Pte -> bool)
    requires forall p :: first(p) <==> Classify(cb, p).Primary?
    requires forall p :: second(p) <==> Classify(cb, p).Backup?
    ensures Primaries(cb, vs) == Pick(vs, first) && Backups(cb, vs) == Pick(vs, second)
  {
    if |vs| > 0 {
      hide Classify;
      PicksAre(cb, vs[..|vs| - 1], first, second);
    }
  }

  lemma {:induction false} SelectedInTwoPasses(cb: Callback, n: nat, vs: seq<Visit>, first: Pte -> bool,
                                               second: Pte -> bool)
    requires forall p :: first(p) <==> Classify(cb, p).Primary?
    requires forall p :: second(p) <==> Classify(cb, p).Backup?
    ensures TwoPasses(Selected(cb, n, vs), n, vs, first, second)
    ensures |Primaries(cb, vs)| == CountOf(vs, first) && |Backups(cb, vs)| == CountOf(vs, second)
  {
    hide Classify, Primaries, Backups, Pick, CountOf, IsMet;
    PicksAre(cb, vs, first, second);
    PickCounts(vs, first);
    PickCounts(vs, second);
    var a, b := Pick(vs, first), Pick(vs, second);
    var all, list := a + b, Selected(cb, n, vs);
    forall e
      ensures e in a <==> IsMet(e, vs, first)
      ensures e in b <==> IsMet(e, vs, second)
    {
      PickMembers(vs, first, e);
      PickMembers(vs, second, e);
    }
    TakenInOrder(n, a, b);
  }

  lemma TakenInOrder<E>(n: nat, a: seq<E>, b: seq<E>)
    ensures var list := Take(n, a + b);
            && |list| == IntMin(n, |a| + |b|)
            && (forall e :: e in list ==> e in a || e in b)
            && (forall e :: e in a && e !in list ==> |list| == n && forall other :: other in list ==> other in a)
            && (forall e :: e in b && e !in list ==> |list| == n)
  {
    var list := Take(n, a + b);
    if n < |a| {
      assert list == a[..n];
    } else {
      assert forall i :: 0 <= i < |a| ==> list[i] == a[i];
    }
  }

  // ---- Answers to list requests ------------------------------------------------------------------

  /** For each mode of a list request: which hand the pages are met from, and which two classes are listed. */
  lemma {:induction false} ListAnswer(kernel: Placement, req: Request, alive: set<int>, v0: Table, mem0: Memory,
                                      list: seq<AddrInfo>, ret: int, t: Table, mid: Memory)
    returns (n: nat, vs: seq<Visit>)
    requires kernel.Valid() && WellFormed(mem0) && req.opCode == FIND_OP
    requires req.mode in {DRAM_MODE, NVRAM_MODE, NVRAM_INTENSIVE_MODE, NVRAM_WRITE_MODE}
    requires kernel.Answers(req, alive, v0, mem0, list, ret, t, mid) && t.tasks != []
    ensures HandIn(t.dram, t.tasks) && HandIn(t.nvram, t.tasks)
    ensures forall pid :: pid in t.tasks <==> pid in v0.tasks && pid in alive
    ensures n == IntMin(req.pidN, MAX_N_FIND) && ret == if |list| == n then 0 else -1
    ensures req.mode == DRAM_MODE ==>
              && Met(t.tasks, mem0, t.dram, vs) && kernel.NvramHand() == t.nvram
              && TwoPasses(list, n, vs, IdleDram,
                           if kernel.build.Hyb? then YoungCleanDram else YoungDirtyDram)
    ensures req.mode != DRAM_MODE ==> Met(t.tasks, mem0, t.nvram, vs) && kernel.DramHand() == t.dram
    ensures req.mode == NVRAM_MODE ==>
              TwoPasses(list, n, vs, YoungDirtyNvram, NotBothNvram)
    ensures req.mode == NVRAM_WRITE_MODE ==>
              TwoPasses(list, n, vs, YoungDirtyNvram, OldDirtyNvram)
    ensures req.mode == NVRAM_INTENSIVE_MODE && kernel.build.Hyb? ==>
              TwoPasses(list, n, vs, YoungDirtyNvram, YoungCleanNvram)
    ensures req.mode == NVRAM_INTENSIVE_MODE && kernel.build.MixM? ==>
              TwoPasses(list, n, vs, YoungCleanNvram, YoungDirtyNvram)
  {
    hide WalkLeaves, Cycle, Selected, Primaries, Backups, WellFormed, Distinct, HandRefreshed, Live, Met, TwoPasses;
    HandsInRange(kernel, v0, alive, t);
    n := IntMin(req.pidN, MAX_N_FIND);
    var kind := Placement.KindOf(req.mode);
    var cb := Callback(kernel.build, kind);
    var h := if kind.Mem? then t.dram else t.nvram;
    vs := Cycle(cb, t.tasks, mem0, h.slot, h.addr);
    CycleIsMet(cb, t.tasks, mem0, h);
    if req.mode == DRAM_MODE {
      SelectedInTwoPasses(cb, n, vs, IdleDram, if kernel.build.Hyb? then YoungCleanDram else YoungDirtyDram);
    } else if req.mode == NVRAM_MODE {
      SelectedInTwoPasses(cb, n, vs, YoungDirtyNvram, NotBothNvram);
    } else if req.mode == NVRAM_WRITE_MODE {
      SelectedInTwoPasses(cb, n, vs, YoungDirtyNvram, OldDirtyNvram);
    } else if kernel.build.Hyb? {
      SelectedInTwoPasses(cb, n, vs, YoungDirtyNvram, YoungCleanNvram);
    } else {
      SelectedInTwoPasses(cb, n, vs, YoungCleanNvram, YoungDirtyNvram);
    }
  }

  // ---- Answers to SWITCH requests ----------------------------------------------------------------

  /** The size of the exchange, by cases: `pn` and `bn` pages of the first and second class were met on NVRAM, `pd` and
      `bd` on DRAM. In the first case everything found is dropped. */
  predicate IsSwitchOfSize(k: nat, n: nat, pn: nat, bn: nat, pd: nat, bd: nat) {
    if 0 < pd < IntMin(n, pn) && bd == 0 then k == 0
    else if IntMin(n, pn) <= pd < IntMin(n, pn + bn) && bd > 0 then k == pd
    else if pd < pn < IntMin(n, pd + bd) && bn > 0 then k == pn
    else k == IntMin(n, IntMin(pn + bn, pd + bd))
  }

  lemma SizeByCases(n: nat, pn: nat, bn: nat, pd: nat, bd: nat)
    ensures IsSwitchOfSize(SwitchSize(n, pn, bn, pd, bd), n, pn, bn, pd, bd)
  {
  }

  /** A SWITCH is answered with as many NVRAM pages as DRAM pages around a separator, of two classes each. */
  lemma {:induction false} SwitchAnswer(kernel: Placement, req: Request, alive: set<int>, v0: Table, mem0: Memory,
                                        list: seq<AddrInfo>, ret: int, t: Table, mid: Memory)
    returns (n: nat, k: nat, vn: seq<Visit>, vd: seq<Visit>)
    requires kernel.Valid() && WellFormed(mem0) && req.opCode == FIND_OP && req.mode == SWITCH_MODE
    requires kernel.Answers(req, alive, v0, mem0, list, ret, t, mid) && t.tasks != []
    ensures HandIn(t.dram, t.tasks) && HandIn(t.nvram, t.tasks) && n == IntMin(req.pidN, MAX_N_SWITCH)
    ensures SamePages(mem0, mid) && Met(t.tasks, mem0, t.nvram, vn) && Met(t.tasks, mid, t.dram, vd)
    ensures |list| == 2 * k + 1 && list[k].pidRetval == 0
    ensures var dirtyFirst := kernel.build.Hyb?;
            var first := if dirtyFirst then YoungDirtyNvram else YoungCleanNvram;
            var second := if dirtyFirst then YoungCleanNvram else YoungDirtyNvram;
            var spare := if dirtyFirst then YoungCleanDram else YoungDirtyDram;
            && TwoPasses(list[..k], k, vn, first, second)
            && TwoPasses(list[k + 1..], k, vd, IdleDram, spare)
            && IsSwitchOfSize(k, n, CountOf(vn, first), CountOf(vn, second),
                              CountOf(vd, IdleDram), CountOf(vd, spare))
            && ret == if IntMin(n, CountOf(vn, first) + CountOf(vn, second)) == 0 then -1 else 0
  {
    hide WalkLeaves, Cycle, Selected, Primaries, Backups, WellFormed, Distinct, HandRefreshed, Live, Met, TwoPasses,
      SwitchSize, IsSwitchOfSize, SamePages;
    HandsInRange(kernel, v0, alive, t);
    n := IntMin(req.pidN, MAX_N_SWITCH);
    var cn, cd := Callback(kernel.build, NvramSwitch), Callback(kernel.build, Mem);
    var first := if kernel.build.Hyb? then YoungDirtyNvram else YoungCleanNvram;
    var second := if kernel.build.Hyb? then YoungCleanNvram else YoungDirtyNvram;
    var spare := if kernel.build.Hyb? then YoungCleanDram else YoungDirtyDram;
    vn := Cycle(cn, t.tasks, mem0, t.nvram.slot, t.nvram.addr);
    vd := Cycle(cd, t.tasks, mid, t.dram.slot, t.dram.addr);
    WalkKeepsPages(cn, t.tasks, mem0, t.nvram, n, mid, kernel.NvramHand());
    WellFormedPreserved(mem0, mid);
    CycleIsMet(cn, t.tasks, mem0, t.nvram);
    CycleIsMet(cd, t.tasks, mid, t.dram);
    k := SwitchSize(n, |Primaries(cn, vn)|, |Backups(cn, vn)|, |Primaries(cd, vd)|, |Backups(cd, vd)|);
    SwitchClasses(cn, cd, k, vn, vd, first, second, spare);
    SizeByCases(n, |Primaries(cn, vn)|, |Backups(cn, vn)|, |Primaries(cd, vd)|, |Backups(cd, vd)|);
  }

  lemma {:induction false} SwitchClasses(cn: Callback, cd: Callback, k: nat, vn: seq<Visit>, vd: seq<Visit>,
                                         first: Pte -> bool, second: Pte -> bool, spare: Pte -> bool)
    requires cn.kind.NvramSwitch? && cd == Callback(cn.build, Mem)
    requires first == if cn.build.Hyb? then YoungDirtyNvram else YoungCleanNvram
    requires second == if cn.build.Hyb? then YoungCleanNvram else YoungDirtyNvram
    requires spare == if cn.build.Hyb? then YoungCleanDram else YoungDirtyDram
    ensures TwoPasses(Selected(cn, k, vn), k, vn, first, second)
    ensures TwoPasses(Selected(cd, k, vd), k, vd, IdleDram, spare)
    ensures |Primaries(cn, vn)| == CountOf(vn, first) && |Backups(cn, vn)| == CountOf(vn, second)
    ensures |Primaries(cd, vd)| == CountOf(vd, IdleDram) && |Backups(cd, vd)| == CountOf(vd, spare)
  {
    hide Selected, Primaries, Backups, TwoPasses, CountOf;
    SelectedInTwoPasses(cn, k, vn, first, second);
    SelectedInTwoPasses(cd, k, vd, IdleDram, spare);
  }

  // ---- Where the listed pages were ---------------------------------------------------------------

  /** Every page that is listed was on the tier that was asked about. */
  lemma {:induction false} ListedPages(kernel: Placement, req: Request, alive: set<int>, v0: Table, mem0: Memory,
                                       list: seq<AddrInfo>, ret: int, t: Table, mid: Memory, e: AddrInfo)
    requires kernel.Valid() && req.opCode == FIND_OP && e in list
    requires req.mode in {DRAM_MODE, NVRAM_MODE, NVRAM_INTENSIVE_MODE, NVRAM_WRITE_MODE}
    requires kernel.Answers(req, alive, v0, mem0, list, ret, t, mid)
    ensures PageOn(mem0, if req.mode == DRAM_MODE then DRAM_NODES else NVRAM_NODES, e.pidRetval, e.addr)
  {
    hide WalkLeaves, Cycle, Selected, WellFormed, Distinct, HandRefreshed, Live, PageOn;
    HandsInRange(kernel, v0, alive, t);
    var kind := Placement.KindOf(req.mode);
    var h := if kind.Mem? then t.dram else t.nvram;
    F.DeliveredFromTier(Callback(kernel.build, kind), IntMin(req.pidN, MAX_N_FIND), t.tasks, mem0, h.slot, h.addr, e);
  }

  /** The pages in front of the separator of a SWITCH were on NVRAM, those behind it on DRAM. */
  lemma {:induction false} SwitchedPages(kernel: Placement, req: Request, alive: set<int>, v0: Table, mem0: Memory,
                                         list: seq<AddrInfo>, ret: int, t: Table, mid: Memory, k: nat)
    requires kernel.Valid() && WellFormed(mem0) && req.opCode == FIND_OP && req.mode == SWITCH_MODE
    requires kernel.Answers(req, alive, v0, mem0, list, ret, t, mid) && |list| == 2 * k + 1
    ensures forall e :: e in list[..k] ==> PageOn(mem0, NVRAM_NODES, e.pidRetval, e.addr)
    ensures forall e :: e in list[k + 1..] ==> PageOn(mem0, DRAM_NODES, e.pidRetval, e.addr)
  {
    hide WalkLeaves, Cycle, Selected, Primaries, Backups, WellFormed, Distinct, HandRefreshed, Live, PageOn, SamePages,
      SwitchSize;
    HandsInRange(kernel, v0, alive, t);
    var cn, cd := Callback(kernel.build, NvramSwitch), Callback(kernel.build, Mem);
    WalkKeepsPages(cn, t.tasks, mem0, t.nvram, IntMin(req.pidN, MAX_N_SWITCH), mid, kernel.NvramHand());
    forall e | e in list[..k] ensures PageOn(mem0, NVRAM_NODES, e.pidRetval, e.addr) {
      F.DeliveredFromTier(cn, k, t.tasks, mem0, t.nvram.slot, t.nvram.addr, e);
    }
    forall e | e in list[k + 1..] ensures PageOn(mem0, DRAM_NODES, e.pidRetval, e.addr) {
      F.DeliveredFromTier(cd, k, t.tasks, mid, t.dram.slot, t.dram.addr, e);
      F.PageOnSame(mem0, mid, DRAM_NODES, e.pidRetval, e.addr);
    }
  }

  // ---- What is cleaned on the way ----------------------------------------------------------------

  /** A walk goes on up to the page with which it has met `n` pages of the first class, or to the end. */
  ghost predicate UpToQuota(k: nat, n: nat, vs: seq<Visit>, first: Pte -> bool) {
    && k <= |vs| && CountOf(vs[..k], first) <= n
    && (k < |vs| ==> CountOf(vs[..k], first) == n)
    && (k > 0 ==> CountOf(vs[..k - 1], first) < n)
  }

  /** The pages met so far that are to be cleaned are clean; nothing else has changed. */
  ghost predicate CleanedAmong(mem: Memory, mem': Memory, vs: seq<Visit>, cleans: Pte -> bool) {
    && mem'.Keys == mem.Keys && (forall pid :: pid in mem ==> |mem'[pid]| == |mem[pid]|)
    && forall pid, i :: pid in mem && 0 <= i < |mem[pid]| ==>
         var p := mem[pid][i];
         mem'[pid][i] == if cleans(p) && Touched(vs, pid, p.addr) then p.(dirty := false) else p
  }

  /** A walk over `vs` for `n` pages of the first class, and what it does to the page tables. */
  ghost predicate Walked(n: nat, vs: seq<Visit>, mem: Memory, mem': Memory, first: Pte -> bool, cleans: Pte -> bool) {
    exists k: nat :: k <= |vs| && UpToQuota(k, n, vs, first) && CleanedAmong(mem, mem', vs[..k], cleans)
  }

  lemma {:induction false} PrimariesCount(cb: Callback, vs: seq<Visit>, first: Pte -> bool)
    requires forall p :: first(p) <==> Classify(cb, p).Primary?
    ensures |Primaries(cb, vs)| == CountOf(vs, first)
  {
    if |vs| > 0 {
      hide Classify;
      PrimariesCount(cb, vs[..|vs| - 1], first);
    }
  }

  lemma {:induction false} WalkCleans(cb: Callback, tasks: seq<int>, mem: Memory, h: Hand, n: nat, mem': Memory,
                                      h': Hand, first: Pte -> bool, cleans: Pte -> bool)
    returns (vs: seq<Visit>)
    requires h.slot < |tasks| && h.addr < MAX_ADDRESS && WellFormed(mem)
    requires WalkLeaves(cb, tasks, mem, h, n, mem', h')
    requires forall p :: first(p) <==> Classify(cb, p).Primary?
    requires forall p :: cleans(p) <==> Cleans(cb, p)
    ensures Met(tasks, mem, h, vs) && vs == Cycle(cb, tasks, mem, h.slot, h.addr)
    ensures Walked(n, vs, mem, mem', first, cleans)
  {
    hide Cycle, Stretch, Stretches, Classify, Cleans, Met, CountOf, WellFormed, Primaries, HandAfter, TouchAll, Touched;
    vs := Cycle(cb, tasks, mem, h.slot, h.addr);
    CycleIsMet(cb, tasks, mem, h);
    var j, o :| StopsIn(cb, tasks, mem, h.slot, h.addr, n, j, o) &&
      mem' == TouchAll(cb, mem, Processed(cb, tasks, mem, h.slot, h.addr, j, o)) &&
      h' == HandAfter(cb, tasks, mem, h.slot, h.addr, j, o);
    var d := Processed(cb, tasks, mem, h.slot, h.addr, j, o);
    var k := |d|;
    PrimariesCount(cb, vs[..k], first);
    if k > 0 {
      PrimariesCount(cb, vs[..k - 1], first);
    }
    TouchAllPointwise(cb, mem, d);
    assert UpToQuota(k, n, vs, first) && CleanedAmong(mem, mem', vs[..k], cleans);
  }

  /** What a list request does to the page tables: the pages that it meets before it stops lose their dirty bit, in
      NVRAM mode those that are not both young and dirty, in DRAM mode the young ones, and otherwise none in the
      hybrid build; nothing else changes. */
  lemma {:induction false} ListCleans(kernel: Placement, req: Request, alive: set<int>, v0: Table, mem0: Memory,
                                      list: seq<AddrInfo>, ret: int, t: Table, mid: Memory)
    returns (n: nat, vs: seq<Visit>)
    requires kernel.Valid() && WellFormed(mem0) && req.opCode == FIND_OP
    requires req.mode in {DRAM_MODE, NVRAM_MODE, NVRAM_INTENSIVE_MODE, NVRAM_WRITE_MODE}
    requires kernel.Answers(req, alive, v0, mem0, list, ret, t, mid) && t.tasks != []
    ensures n == IntMin(req.pidN, MAX_N_FIND) && HandIn(t.dram, t.tasks) && HandIn(t.nvram, t.tasks)
    ensures req.mode == DRAM_MODE ==>
              Met(t.tasks, mem0, t.dram, vs) && Walked(n, vs, mem0, kernel.mem, IdleDram, YoungDram)
    ensures req.mode != DRAM_MODE ==> Met(t.tasks, mem0, t.nvram, vs)
    ensures req.mode == NVRAM_MODE ==> Walked(n, vs, mem0, kernel.mem, YoungDirtyNvram, NotBothNvram)
    ensures req.mode == NVRAM_WRITE_MODE ==> Walked(n, vs, mem0, kernel.mem, YoungDirtyNvram, NoPage)
    ensures req.mode == NVRAM_INTENSIVE_MODE && kernel.build.Hyb? ==>
              Walked(n, vs, mem0, kernel.mem, YoungDirtyNvram, NoPage)
    ensures req.mode == NVRAM_INTENSIVE_MODE && kernel.build.MixM? ==>
              Walked(n, vs, mem0, kernel.mem, YoungCleanNvram, NotYoungCleanNvram)
  {
    hide WalkLeaves, Cycle, Selected, WellFormed, Distinct, HandRefreshed, Live, Met, Walked;
    HandsInRange(kernel, v0, alive, t);
    n := IntMin(req.pidN, MAX_N_FIND);
    var kind := Placement.KindOf(req.mode);
    var cb := Callback(kernel.build, kind);
    var h := if kind.Mem? then t.dram else t.nvram;
    var first := if req.mode == DRAM_MODE then IdleDram
                 else if req.mode == NVRAM_INTENSIVE_MODE && kernel.build.MixM? then YoungCleanNvram
                 else YoungDirtyNvram;
    var cleans := if req.mode == DRAM_MODE then YoungDram
                  else if req.mode == NVRAM_MODE then NotBothNvram
                  else if req.mode == NVRAM_INTENSIVE_MODE && kernel.build.MixM? then NotYoungCleanNvram
                  else NoPage;
    ListWalkClasses(cb, req.mode, first, cleans);
    vs := WalkCleans(cb, t.tasks, mem0, h, n, kernel.mem, kernel.HandOf(kind), first, cleans);
  }

  lemma ListWalkClasses(cb: Callback, mode: int, first: Pte -> bool, cleans: Pte -> bool)
    requires mode in {DRAM_MODE, NVRAM_MODE, NVRAM_INTENSIVE_MODE, NVRAM_WRITE_MODE}
    requires cb.kind == Placement.KindOf(mode)
    requires first == if mode == DRAM_MODE then IdleDram
                      else if mode == NVRAM_INTENSIVE_MODE && cb.build.MixM? then YoungCleanNvram
                      else YoungDirtyNvram
    requires cleans == if mode == DRAM_MODE then YoungDram
                       else if mode == NVRAM_MODE then NotBothNvram
                       else if mode == NVRAM_INTENSIVE_MODE && cb.build.MixM? then NotYoungCleanNvram
                       else NoPage
    ensures forall p :: first(p) <==> Classify(cb, p).Primary?
    ensures forall p :: cleans(p) <==> Cleans(cb, p)
  {
  }

  /** The two walks of a SWITCH of up to `n` pages; the second takes place unless the first offers nothing, and goes on
      until it has met as many idle pages as that offers. */
  ghost predicate SwitchWalked(n: nat, vn: seq<Visit>, vd: seq<Visit>, mem0: Memory, mid: Memory, mem: Memory,
                               first: Pte -> bool, second: Pte -> bool, cleans: Pte -> bool) {
    var offered: nat := IntMin(n, CountOf(vn, first) + CountOf(vn, second));
    && Walked(n, vn, mem0, mid, first, cleans)
    && if offered == 0 then mem == mid else Walked(offered, vd, mid, mem, IdleDram, YoungDram)
  }

  /** What a SWITCH does to the page tables: its NVRAM walk cleans nothing in the hybrid build, its DRAM walk, which
      takes place unless NVRAM offers nothing, cleans the young pages that it meets before it stops. */
  lemma {:induction false} SwitchCleans(kernel: Placement, req: Request, alive: set<int>, v0: Table, mem0: Memory,
                                        list: seq<AddrInfo>, ret: int, t: Table, mid: Memory)
    returns (n: nat, vn: seq<Visit>, vd: seq<Visit>)
    requires kernel.Valid() && WellFormed(mem0) && req.opCode == FIND_OP && req.mode == SWITCH_MODE
    requires kernel.Answers(req, alive, v0, mem0, list, ret, t, mid) && t.tasks != []
    ensures HandIn(t.dram, t.tasks) && HandIn(t.nvram, t.tasks) && n == IntMin(req.pidN, MAX_N_SWITCH)
    ensures Met(t.tasks, mem0, t.nvram, vn) && Met(t.tasks, mid, t.dram, vd)
    ensures kernel.build.Hyb? ==>
              SwitchWalked(n, vn, vd, mem0, mid, kernel.mem, YoungDirtyNvram, YoungCleanNvram, NoPage)
    ensures kernel.build.MixM? ==>
              SwitchWalked(n, vn, vd, mem0, mid, kernel.mem, YoungCleanNvram, YoungDirtyNvram, OnNvram)
  {
    hide WalkLeaves, Cycle, Selected, Primaries, Backups, WellFormed, Distinct, HandRefreshed, Live, Met, Walked,
      SwitchSize, SamePages, CountOf, Halves;
    HandsInRange(kernel, v0, alive, t);
    n := IntMin(req.pidN, MAX_N_SWITCH);
    var cn, cd := Callback(kernel.build, NvramSwitch), Callback(kernel.build, Mem);
    var first := if kernel.build.Hyb? then YoungDirtyNvram else YoungCleanNvram;
    var second := if kernel.build.Hyb? then YoungCleanNvram else YoungDirtyNvram;
    vn := WalkCleans(cn, t.tasks, mem0, t.nvram, n, mid, kernel.NvramHand(), first,
                         if kernel.build.Hyb? then NoPage else OnNvram);
    PrimariesCount(cn, vn, first);
    SelectedInTwoPasses(cn, n, vn, first, second);
    WalkKeepsPages(cn, t.tasks, mem0, t.nvram, n, mid, kernel.NvramHand());
    WellFormedPreserved(mem0, mid);
    vd := Cycle(cd, t.tasks, mid, t.dram.slot, t.dram.addr);
    var offered: nat := IntMin(n, CountOf(vn, first) + CountOf(vn, second));
    if offered == 0 {
      CycleIsMet(cd, t.tasks, mid, t.dram);
    } else {
      vd := WalkCleans(cd, t.tasks, mid, t.dram, offered, kernel.mem, kernel.DramHand(), IdleDram, YoungDram);
    }
  }

  // ---- Answers to CLEAR requests -----------------------------------------------------------------

  /** A CLEAR request cleans every present, writable NVRAM page of every managed task that is alive, and changes no
      other page and no other bit. */
  lemma {:induction false} ClearAnswer(kernel: Placement, req: Request, alive: set<int>, v0: Table, mem0: Memory,
                                       list: seq<AddrInfo>, ret: int, t: Table, mid: Memory)
    requires kernel.Valid() && req.opCode == FIND_OP && req.mode == NVRAM_CLEAR
    requires kernel.Answers(req, alive, v0, mem0, list, ret, t, mid)
    ensures list == [] && ret == -1 && kernel.View() == t
    ensures kernel.mem.Keys == mem0.Keys && forall pid :: pid in mem0 ==> |kernel.mem[pid]| == |mem0[pid]|
    ensures forall pid, i :: pid in mem0 && 0 <= i < |mem0[pid]| ==>
              var p := mem0[pid][i];
              kernel.mem[pid][i] ==
              if pid in v0.tasks && pid in alive && p.present && p.write && p.node in NVRAM_NODES
              then p.(dirty := false) else p
  {
    hide HandRefreshed, WalkLeaves, Distinct, WellFormed;
    if t.tasks == [] {
      assert forall pid :: pid in v0.tasks && pid in alive ==> pid in t.tasks;
    }
  }
}
