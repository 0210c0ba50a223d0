/** Resuming, fairness, uniqueness and starvation of walks over whole runs of requests. */
module Fairness {
  import opened Ambix
  import opened PageTable
  import opened PageTableLemmas
  import opened Selection
  import opened ClockOrder
  import opened Ring

  // ---- Where a walk leaves its hand on the ring ----------------------------------------------

  /** How many pages a walk that ended with `o` pages of its j-th stretch will meet again: none when a
      callback stopped it; but when the stretch had no further page, the hand keeps its old address, and the
      pages of that slot from there on are still ahead of it. */
  function Leftover(cb: Callback, tasks: seq<int>, mem: Memory, h: Hand, j: nat, o: nat): nat
    requires h.slot < |tasks| && j <= |tasks|
  {
    if o < |Stretch(cb, tasks, mem, h.slot, h.addr, j)| then 0
    else if j < |tasks| then |Segment(mem, tasks[SlotAfter(h.slot, j, |tasks|)], h.addr, MAX_ADDRESS)|
    else |Segment(mem, tasks[h.slot], h.addr, h.addr + 1)|
  }

  lemma StretchPlace(cb: Callback, tasks: seq<int>, mem: Memory, h: Hand, j: nat)
    requires h.slot < |tasks| && h.addr < MAX_ADDRESS && WellFormed(mem) && j <= |tasks|
    ensures var q := SlotAfter(h.slot, j, |tasks|);
            var turn := if h.slot + j < |tasks| then 0 else |RingOf(tasks, mem)|;
            var reached := Place(tasks, mem, h) + |Stretches(cb, tasks, mem, h.slot, h.addr, j)|;
            reached == turn + |RingUpTo(tasks, mem, q)| + if j == 0 then |Segment(mem, tasks[q], 0, h.addr)| else 0
  {
    hide Segment, PagesOf, Stretch;
    if j == 0 {
      assert Stretches(cb, tasks, mem, h.slot, h.addr, 0) == [];
    } else if h.slot + j <= |tasks| {
      StretchesToEnd(cb, tasks, mem, h, j);
      assert |PagesOf(Stretches(cb, tasks, mem, h.slot, h.addr, j))| == |Stretches(cb, tasks, mem, h.slot, h.addr, j)|;
      assert |RingUpTo(tasks, mem, 0)| == 0;
    } else {
      StretchesWrap(cb, tasks, mem, h, j);
    }
  }

  /** The pages of the j-th stretch in terms of the page tables at the start. */
  lemma StretchSegment(cb: Callback, tasks: seq<int>, mem: Memory, h: Hand, j: nat)
    requires h.slot < |tasks| && j <= |tasks|
    ensures var lo := if j == 0 then h.addr else 0;
            var hi := if j == |tasks| then h.addr + 1 else MAX_ADDRESS;
            PagesOf(Stretch(cb, tasks, mem, h.slot, h.addr, j)) ==
            PagesOf(Segment(mem, tasks[SlotAfter(h.slot, j, |tasks|)], lo, hi))
  {
    if j == |tasks| {
      var first := Stretch(cb, tasks, mem, h.slot, h.addr, 0);
      TouchedLayout(cb, mem, first);
      SegmentLayout(mem, TouchAll(cb, mem, first), tasks[h.slot], 0, h.addr + 1);
    }
  }

  /** A walk that processed `k` pages leaves its hand `k` places further on the ring, less the pages it will
      meet again. */
  lemma {:induction false} WalkAdvances(cb: Callback, tasks: seq<int>, mem: Memory, h: Hand, j: nat, o: nat)
    requires h.slot < |tasks| && h.addr < MAX_ADDRESS && WellFormed(mem) && j <= |tasks|
    requires o <= |Stretch(cb, tasks, mem, h.slot, h.addr, j)|
    ensures var h' := HandAfter(cb, tasks, mem, h.slot, h.addr, j, o);
            var k := |Stretches(cb, tasks, mem, h.slot, h.addr, j)| + o;
            var left := Leftover(cb, tasks, mem, h, j, o);
            && h'.slot < |tasks| && h'.addr < MAX_ADDRESS && left <= o
            && Place(tasks, mem, h) + k ==
               Place(tasks, mem, h') + left + if h.slot + j < |tasks| then 0 else |RingOf(tasks, mem)|
  {
    hide RingUpTo, Segment, PagesOf, Stretch, Stretches;
    var n := |tasks|;
    var q := SlotAfter(h.slot, j, n);
    var s := Stretch(cb, tasks, mem, h.slot, h.addr, j);
    var lo := if j == 0 then h.addr else 0;
    var hi := if j == n then h.addr + 1 else MAX_ADDRESS;
    StretchPlace(cb, tasks, mem, h, j);
    StretchSegment(cb, tasks, mem, h, j);
    var seg := Segment(mem, tasks[q], lo, hi);
    assert |s| == |PagesOf(s)| == |PagesOf(seg)| == |seg|;
    if o < |s| {
      SegmentIndex(mem, tasks[q], lo, hi, o);
      var a := seg[o].pte.addr;
      assert PagesOf(s)[o] == PagesOf(seg)[o];
      SegmentSplit(mem, tasks[q], 0, lo, a);
      assert |Segment(mem, tasks[q], 0, 0)| == 0 by { NoPages(mem, tasks[q]); }
    } else {
      SegmentSplit(mem, tasks[q], 0, h.addr, hi);
      NoPages(mem, tasks[q]);
    }
  }

  lemma {:induction false} NoPagesInTable(pid: int, table: seq<Pte>)
    ensures Range(pid, table, 0, 0) == []
  {
    if |table| > 0 {
      NoPagesInTable(pid, table[..|table| - 1]);
    }
  }

  lemma NoPages(mem: Memory, pid: int)
    ensures Segment(mem, pid, 0, 0) == []
  {
    if pid in mem {
      NoPagesInTable(pid, mem[pid]);
    }
  }

  // ---- Distinct pages ------------------------------------------------------------------------

  ghost predicate NoRepeats(ring: seq<Page>) {
    forall a, b :: 0 <= a < b < |ring| ==> ring[a] != ring[b]
  }

  lemma {:induction false} RingMembers(tasks: seq<int>, mem: Memory, i: nat, x: nat)
    requires i <= |tasks| && x < |RingUpTo(tasks, mem, i)|
    ensures RingUpTo(tasks, mem, i)[x].pid in tasks[..i]
  {
    var before := RingUpTo(tasks, mem, i - 1);
    if x < |before| {
      RingMembers(tasks, mem, i - 1, x);
      assert tasks[..i - 1] <= tasks[..i];
    } else {
      SegmentPids(mem, tasks[i - 1], 0, MAX_ADDRESS);
      assert tasks[..i][i - 1] == tasks[i - 1];
    }
  }

  /** No page is on the ring twice. */
  lemma {:induction false} RingDistinct(tasks: seq<int>, mem: Memory, i: nat)
    requires i <= |tasks| && Distinct(tasks) && WellFormed(mem)
    ensures NoRepeats(RingUpTo(tasks, mem, i))
  {
    if i > 0 {
      var pid := tasks[i - 1];
      var before, seg := RingUpTo(tasks, mem, i - 1), Segment(mem, pid, 0, MAX_ADDRESS);
      var ring := RingUpTo(tasks, mem, i);
      RingDistinct(tasks, mem, i - 1);
      SegmentPids(mem, pid, 0, MAX_ADDRESS);
      if pid in mem {
        assert Ascending(mem[pid]);
        RangeAscending(pid, mem[pid], 0, MAX_ADDRESS);
      }
      var pages := PagesOf(seg);
      assert ring == before + pages;
      forall a, b | 0 <= a < b < |ring| ensures ring[a] != ring[b] {
        if b >= |before| {
          assert ring[b] == pages[b - |before|];
          if a < |before| {
            RingMembers(tasks, mem, i - 1, a);
            assert ring[a] == before[a];
          } else {
            assert ring[a] == pages[a - |before|];
            assert seg[a - |before|].pte.addr < seg[b - |before|].pte.addr;
          }
        }
      }
    }
  }

  /** On a ring without repetitions, two unrolled positions less than two turns apart show the same page
      exactly when they are nothing or one turn apart. */
  lemma {:induction false} UnrolledEqual(ring: seq<Page>, i: nat, d: nat)
    requires |ring| > 0 && d <= |ring|
    requires NoRepeats(ring)
    ensures Unrolled(ring, i) == Unrolled(ring, i + d) <==> d == 0 || d == |ring|
    decreases i
  {
    if i >= |ring| {
      UnrolledEqual(ring, i - |ring|, d);
    }
  }

  /** After a walk, the hand designates the first page the walk did not process exactly when it has no page
      to meet again, or all of them. */
  lemma {:induction false} ResumesExactly(cb: Callback, tasks: seq<int>, mem: Memory, h: Hand, j: nat, o: nat)
    requires h.slot < |tasks| && h.addr < MAX_ADDRESS && WellFormed(mem) && Distinct(tasks) && j <= |tasks|
    requires o <= |Stretch(cb, tasks, mem, h.slot, h.addr, j)|
    requires |RingOf(tasks, mem)| > 0
    ensures var ring := RingOf(tasks, mem);
            var h' := HandAfter(cb, tasks, mem, h.slot, h.addr, j, o);
            var k := |Stretches(cb, tasks, mem, h.slot, h.addr, j)| + o;
            var left := Leftover(cb, tasks, mem, h, j, o);
            && h'.slot < |tasks|
            && (Unrolled(ring, Place(tasks, mem, h')) == Unrolled(ring, Place(tasks, mem, h) + k) <==>
                left == 0 || left == |ring|)
  {
    hide RingUpTo, Segment, Stretch, Stretches, Leftover, Place, HandAfter;
    var ring := RingOf(tasks, mem);
    var left := Leftover(cb, tasks, mem, h, j, o);
    var h' := HandAfter(cb, tasks, mem, h.slot, h.addr, j, o);
    WalkAdvances(cb, tasks, mem, h, j, o);
    LeftoverBound(cb, tasks, mem, h, j, o);
    RingDistinct(tasks, mem, |tasks|);
    UnrolledEqual(ring, Place(tasks, mem, h'), left);
  }

  /** A walk whose quota is never met has visited every page of its cycle and leaves the hand where it was. */
  lemma {:induction false} UnfilledWalk(cb: Callback, tasks: seq<int>, mem: Memory, h: Hand, need: nat, j: nat, o: nat)
    requires h.slot < |tasks| && StopsIn(cb, tasks, mem, h.slot, h.addr, need, j, o)
    requires |Primaries(cb, Processed(cb, tasks, mem, h.slot, h.addr, j, o))| < need
    ensures Processed(cb, tasks, mem, h.slot, h.addr, j, o) == Cycle(cb, tasks, mem, h.slot, h.addr)
    ensures HandAfter(cb, tasks, mem, h.slot, h.addr, j, o) == h
  {
    hide Primaries, Stretch;
    CyclePrefix(cb, tasks, mem, h.slot, h.addr, j, o);
  }

  lemma LeftoverBound(cb: Callback, tasks: seq<int>, mem: Memory, h: Hand, j: nat, o: nat)
    requires h.slot < |tasks| && h.addr < MAX_ADDRESS && WellFormed(mem) && j <= |tasks|
    ensures Leftover(cb, tasks, mem, h, j, o) <= |RingOf(tasks, mem)|
  {
    hide Segment, PagesOf, Stretch;
    var q := SlotAfter(h.slot, j, |tasks|);
    RingPrefix(tasks, mem, q + 1, |tasks|);
    SegmentSplit(mem, tasks[q], 0, h.addr, MAX_ADDRESS);
    SegmentSplit(mem, tasks[q], h.addr, h.addr + 1, MAX_ADDRESS);
    var seg := Segment(mem, tasks[q], 0, MAX_ADDRESS);
    assert RingUpTo(tasks, mem, q + 1) == RingUpTo(tasks, mem, q) + PagesOf(seg);
  }

  /** A cycle meets no page twice, except the page at the hand, which it meets first and last. */
  lemma CycleDistinct(cb: Callback, tasks: seq<int>, mem: Memory, h: Hand, i: nat, j: nat)
    requires h.slot < |tasks| && h.addr < MAX_ADDRESS && WellFormed(mem) && Distinct(tasks)
    requires i < j < |Cycle(cb, tasks, mem, h.slot, h.addr)|
    requires var pages := PagesOf(Cycle(cb, tasks, mem, h.slot, h.addr)); pages[i] == pages[j]
    ensures i == 0 && j == |Cycle(cb, tasks, mem, h.slot, h.addr)| - 1
    ensures PagesOf(Cycle(cb, tasks, mem, h.slot, h.addr))[i] == Page(tasks[h.slot], h.addr)
  {
    hide Cycle, RingUpTo, Segment;
    var ring := RingOf(tasks, mem);
    var pages := PagesOf(Cycle(cb, tasks, mem, h.slot, h.addr));
    var place := Place(tasks, mem, h);
    CycleIsUnrolledRing(cb, tasks, mem, h);
    RingDistinct(tasks, mem, |tasks|);
    UnrolledEqual(ring, place + i, j - i);
    HandPage(tasks, mem, h);
    AtHandIs(tasks, mem, h);
    assert pages[j] == pages[0] == Unrolled(ring, place) == ring[place] ==
            (Before(tasks, mem, h) + AtHand(tasks, mem, h))[place];
  }

  lemma AtHandIs(tasks: seq<int>, mem: Memory, h: Hand)
    requires h.slot < |tasks|
    ensures forall x :: 0 <= x < |AtHand(tasks, mem, h)| ==> AtHand(tasks, mem, h)[x] == Page(tasks[h.slot], h.addr)
  {
    var pid := tasks[h.slot];
    var seg := Segment(mem, pid, h.addr, h.addr + 1);
    forall x | 0 <= x < |seg| ensures AtHand(tasks, mem, h)[x] == Page(pid, h.addr) {
      RangeMember(pid, mem[pid], h.addr, h.addr + 1, x);
    }
  }

  // ---- Uniqueness and class of what is delivered -------------------------------------------------

  lemma {:induction false} CountUnique(s: seq<AddrInfo>, e: AddrInfo)
    requires forall i, j :: 0 <= i < j < |s| && s[i] == e ==> s[j] != e
    ensures multiset(s)[e] <= 1
  {
    if |s| > 0 {
      var t, x := s[..|s| - 1], s[|s| - 1];
      assert s == t + [x];
      SnocCount(t, x, e);
      CountUnique(t, e);
      if x == e {
        CountNone(t, e);
      }
    }
  }

  lemma {:induction false} CountNone(s: seq<AddrInfo>, e: AddrInfo)
    requires forall i :: 0 <= i < |s| ==> s[i] != e
    ensures multiset(s)[e] == 0
  {
    if |s| > 0 {
      var t, x := s[..|s| - 1], s[|s| - 1];
      assert s == t + [x];
      SnocCount(t, x, e);
      CountNone(t, e);
    }
  }

  /** In one cycle each page is met once, the page at the hand at most twice. */
  lemma {:induction false} CycleCounts(cb: Callback, tasks: seq<int>, mem: Memory, h: Hand, e: AddrInfo)
    requires h.slot < |tasks| && h.addr < MAX_ADDRESS && WellFormed(mem) && Distinct(tasks)
    ensures multiset(Entries(Cycle(cb, tasks, mem, h.slot, h.addr)))[e] <=
            if e == AddrInfo(h.addr, tasks[h.slot]) then 2 else 1
  {
    hide Cycle;
    var vs := Cycle(cb, tasks, mem, h.slot, h.addr);
    var es := Entries(vs);
    if |vs| > 0 {
      var t, x := es[..|es| - 1], es[|es| - 1];
      assert es == t + [x];
      SnocCount(t, x, e);
      forall i, j | 0 <= i < j < |es| && es[i] == e && es[j] == e
        ensures i == 0 && j == |es| - 1 && e == AddrInfo(h.addr, tasks[h.slot])
      {
        assert PagesOf(vs)[i] == PagesOf(vs)[j];
        CycleDistinct(cb, tasks, mem, h, i, j);
      }
      CountUnique(t, e);
      if e != AddrInfo(h.addr, tasks[h.slot]) {
        CountUnique(es, e);
      }
    }
  }

  /** No (pid, address) is delivered twice, except that of the page at the hand, at most twice. */
  lemma {:induction false} DeliveredOnce(cb: Callback, need: nat, tasks: seq<int>, mem: Memory, h: Hand, e: AddrInfo)
    requires h.slot < |tasks| && h.addr < MAX_ADDRESS && WellFormed(mem) && Distinct(tasks)
    ensures multiset(Selected(cb, need, Cycle(cb, tasks, mem, h.slot, h.addr)))[e] <=
            if e == AddrInfo(h.addr, tasks[h.slot]) then 2 else 1
  {
    hide Cycle, Primaries, Backups, Entries;
    var vs := Cycle(cb, tasks, mem, h.slot, h.addr);
    CycleCounts(cb, tasks, mem, h, e);
    ListsAreDisjointParts(cb, vs, e);
    TakeIsSubmultiset(need, Primaries(cb, vs) + Backups(cb, vs));
    assert multiset(Primaries(cb, vs) + Backups(cb, vs)) == multiset(Primaries(cb, vs)) + multiset(Backups(cb, vs));
  }

  /** What a delivered page was like when it was met: present, writable, on the tier that was scanned, and of
      a class the callback takes. */
  lemma DeliveredClass(cb: Callback, need: nat, vs: seq<Visit>, e: AddrInfo)
    requires e in Selected(cb, need, vs)
    ensures exists v :: v in vs && Entry(v) == e && Eligible(cb, v.pte) && !Classify(cb, v.pte).Ignore?
  {
    PrimaryProvenance(cb, vs, e);
    BackupProvenance(cb, vs, e);
    assert e in Primaries(cb, vs) + Backups(cb, vs);
  }

  /** The hybrid build never offers a page for demotion that was both young and dirty when it was met. */
  lemma DemotionSparesWrittenPages(need: nat, vs: seq<Visit>, e: AddrInfo)
    requires e in Selected(Callback(Hyb, Mem), need, vs)
    ensures exists v :: v in vs && Entry(v) == e && v.pte.present && v.pte.write && v.pte.node in DRAM_NODES &&
                        !(v.pte.young && v.pte.dirty)
  {
    DeliveredClass(Callback(Hyb, Mem), need, vs, e);
  }

  /** A visit is one of a page of the page tables; only its dirty bit may have been another then. */
  ghost predicate IsVisitOf(mem: Memory, v: Visit) {
    v.pid in mem && exists i :: 0 <= i < |mem[v.pid]| && mem[v.pid][i].(dirty := v.pte.dirty) == v.pte
  }

  /** A visit in a cycle is a visit of a page of the page tables the walk started with. */
  lemma {:induction false} VisitOfPage(cb: Callback, tasks: seq<int>, mem: Memory, p: nat, addr: nat, j: nat, v: Visit)
    requires p < |tasks| && j <= |tasks| + 1 && v in Stretches(cb, tasks, mem, p, addr, j)
    ensures IsVisitOf(mem, v)
    decreases j
  {
    if v in Stretches(cb, tasks, mem, p, addr, j - 1) {
      VisitOfPage(cb, tasks, mem, p, addr, j - 1, v);
    } else {
      var s := Stretch(cb, tasks, mem, p, addr, j - 1);
      var k :| 0 <= k < |s| && s[k] == v;
      if j - 1 == 0 {
        VisitOfTable(mem, tasks[p], addr, MAX_ADDRESS, k);
      } else if j - 1 < |tasks| {
        VisitOfTable(mem, tasks[SlotAfter(p, j - 1, |tasks|)], 0, MAX_ADDRESS, k);
      } else {
        var now := TouchAll(cb, mem, Stretch(cb, tasks, mem, p, addr, 0));
        YoungSurvives(cb, mem, Stretch(cb, tasks, mem, p, addr, 0));
        VisitOfTable(now, tasks[p], 0, addr + 1, k);
        SamePagesVisited(mem, now, v);
      }
    }
  }

  lemma SamePagesVisited(m1: Memory, m2: Memory, v: Visit)
    requires SamePages(m1, m2)
    ensures IsVisitOf(m1, v) <==> IsVisitOf(m2, v)
  {
    if v.pid in m1 {
      assert forall i :: 0 <= i < |m1[v.pid]| ==>
                           m1[v.pid][i].(dirty := v.pte.dirty) == m2[v.pid][i].(dirty := v.pte.dirty);
    }
  }

  lemma VisitOfTable(mem: Memory, pid: int, lo: nat, hi: nat, k: nat)
    requires k < |Segment(mem, pid, lo, hi)|
    ensures IsVisitOf(mem, Segment(mem, pid, lo, hi)[k])
  {
    var v := Segment(mem, pid, lo, hi)[k];
    RangeMember(pid, mem[pid], lo, hi, k);
    var i :| 0 <= i < |mem[pid]| && mem[pid][i] == v.pte;
    assert mem[pid][i].(dirty := v.pte.dirty) == v.pte;
  }

  /** What a walk delivers were pages of the tier it scanned, in the page tables it started with. */
  lemma DeliveredFromTier(cb: Callback, need: nat, tasks: seq<int>, mem: Memory, p: nat, addr: nat, e: AddrInfo)
    requires p < |tasks| && e in Selected(cb, need, Cycle(cb, tasks, mem, p, addr))
    ensures PageOn(mem, Nodes(TierMode(cb)), e.pidRetval, e.addr)
  {
    hide Cycle, Selected, Classify;
    var vs := Cycle(cb, tasks, mem, p, addr);
    DeliveredClass(cb, need, vs, e);
    var v :| v in vs && Entry(v) == e && Eligible(cb, v.pte);
    CycleVisitOfPage(cb, tasks, mem, p, addr, v);
    var i :| 0 <= i < |mem[v.pid]| && mem[v.pid][i].(dirty := v.pte.dirty) == v.pte;
    assert mem[v.pid][i].addr == e.addr && mem[v.pid][i].node == v.pte.node;
  }

  lemma PageOnSame(m1: Memory, m2: Memory, nodes: seq<int>, pid: int, addr: nat)
    requires SamePages(m1, m2)
    ensures PageOn(m1, nodes, pid, addr) <==> PageOn(m2, nodes, pid, addr)
  {
  }

  lemma OnOneTier(mem: Memory, pid: int, addr: nat)
    requires WellFormed(mem)
    ensures !(PageOn(mem, DRAM_NODES, pid, addr) && PageOn(mem, NVRAM_NODES, pid, addr))
  {
    assert pid in mem ==> Ascending(mem[pid]);
  }

  /** A SWITCH never names one page in both of its halves: what it takes from NVRAM was on an NVRAM node, what it
      takes from DRAM on a DRAM node, and no node is both. */
  lemma SwitchHalvesDisjoint(build: Build, tasks: seq<int>, mem0: Memory, hn: Hand, mid: Memory, hd: Hand, k: nat,
                             e1: AddrInfo, e2: AddrInfo)
    requires hn.slot < |tasks| && hd.slot < |tasks| && WellFormed(mem0) && SamePages(mem0, mid)
    requires e1 in Selected(Callback(build, NvramSwitch), k,
                            Cycle(Callback(build, NvramSwitch), tasks, mem0, hn.slot, hn.addr))
    requires e2 in Selected(Callback(build, Mem), k, Cycle(Callback(build, Mem), tasks, mid, hd.slot, hd.addr))
    ensures PageOn(mem0, NVRAM_NODES, e1.pidRetval, e1.addr) && PageOn(mem0, DRAM_NODES, e2.pidRetval, e2.addr)
    ensures e1 != e2
  {
    hide Cycle, Selected, Classify, PageOn, SamePages, WellFormed;
    DeliveredFromTier(Callback(build, NvramSwitch), k, tasks, mem0, hn.slot, hn.addr, e1);
    DeliveredFromTier(Callback(build, Mem), k, tasks, mid, hd.slot, hd.addr, e2);
    PageOnSame(mem0, mid, DRAM_NODES, e2.pidRetval, e2.addr);
    OnOneTier(mem0, e1.pidRetval, e1.addr);
  }

  lemma CycleVisitOfPage(cb: Callback, tasks: seq<int>, mem: Memory, p: nat, addr: nat, v: Visit)
    requires p < |tasks| && v in Cycle(cb, tasks, mem, p, addr)
    ensures IsVisitOf(mem, v)
  {
    VisitOfPage(cb, tasks, mem, p, addr, |tasks| + 1, v);
  }

  // ---- Runs of requests ------------------------------------------------------------------------

  /** One walk of a run: the page tables and the hand it started with, what it wanted, where it ended. */
  datatype Walk = Walk(cb: Callback, mem: Memory, h: Hand, need: nat, j: nat, o: nat)

  /** Successive walks of one hand over a fixed task table; between and during walks any bit of any page may
      change, only the pages stay where they are. */
  ghost predicate IsRun(tasks: seq<int>, mem0: Memory, h0: Hand, run: seq<Walk>) {
    && h0.slot < |tasks| && h0.addr < MAX_ADDRESS && Distinct(tasks) && WellFormed(mem0)
    && (forall i :: 0 <= i < |run| ==>
          && SameLayout(mem0, run[i].mem) && WellFormed(run[i].mem) && run[i].h.slot < |tasks|
          && StopsIn(run[i].cb, tasks, run[i].mem, run[i].h.slot, run[i].h.addr, run[i].need, run[i].j, run[i].o))
    && (forall i :: 0 <= i < |run| ==> Continues(tasks, h0, run, i))
  }

  /** The i-th walk starts with the hand that the previous one left. */
  ghost predicate Continues(tasks: seq<int>, h0: Hand, run: seq<Walk>, i: nat)
    requires i < |run|
  {
    run[i].h == HandAt(tasks, h0, run, i)
  }

  /** The hand before the i-th walk. */
  ghost function HandAt(tasks: seq<int>, h0: Hand, run: seq<Walk>, i: nat): Hand
    requires i <= |run|
  {
    if i == 0 then h0
    else
      var w := run[i - 1];
      if w.h.slot < |tasks| && w.j <= |tasks| then HandAfter(w.cb, tasks, w.mem, w.h.slot, w.h.addr, w.j, w.o) else h0
  }

  /** Every walk that a request makes on an unchanged table, wherever the previous walk left the hand, makes a
      run one walk longer and leaves the hand where the run says. */
  lemma {:induction false} RunGrows(tasks: seq<int>, mem0: Memory, h0: Hand, run: seq<Walk>, cb: Callback, mem: Memory,
                                    need: nat, mem': Memory, h': Hand) returns (w: Walk)
    requires IsRun(tasks, mem0, h0, run)
    requires SameLayout(mem0, mem) && WellFormed(mem)
    requires HandAt(tasks, h0, run, |run|).slot < |tasks|
    requires WalkLeaves(cb, tasks, mem, HandAt(tasks, h0, run, |run|), need, mem', h')
    ensures IsRun(tasks, mem0, h0, run + [w]) && HandAt(tasks, h0, run + [w], |run| + 1) == h'
    ensures h'.slot < |tasks| && SameLayout(mem0, mem')
    ensures w.h.slot < |tasks| && w.j <= |tasks| && w.o <= |Stretch(w.cb, tasks, w.mem, w.h.slot, w.h.addr, w.j)|
    ensures mem' == TouchAll(cb, mem, Processed(w.cb, tasks, w.mem, w.h.slot, w.h.addr, w.j, w.o))
  {
    hide Stretch, Stretches, Processed, StopsAt, TouchAll, SameLayout, WellFormed, HandAfter, IsRun, HandAt;
    var h := HandAt(tasks, h0, run, |run|);
    var j, o :| StopsIn(cb, tasks, mem, h.slot, h.addr, need, j, o) &&
                mem' == TouchAll(cb, mem, Processed(cb, tasks, mem, h.slot, h.addr, j, o)) &&
                h' == HandAfter(cb, tasks, mem, h.slot, h.addr, j, o);
    w := Walk(cb, mem, h, need, j, o);
    StopsInBounds(cb, tasks, mem, h, need, j, o);
    RunSnoc(tasks, mem0, h0, run, w);
    TouchedLayout(cb, mem, Processed(cb, tasks, mem, h.slot, h.addr, j, o));
    SameLayoutTransitive(mem0, mem, mem');
  }

  lemma {:induction false} RunSnoc(tasks: seq<int>, mem0: Memory, h0: Hand, run: seq<Walk>, w: Walk)
    requires IsRun(tasks, mem0, h0, run)
    requires SameLayout(mem0, w.mem) && WellFormed(w.mem) && w.h == HandAt(tasks, h0, run, |run|)
    requires w.h.slot < |tasks| && StopsIn(w.cb, tasks, w.mem, w.h.slot, w.h.addr, w.need, w.j, w.o)
    requires w.j <= |tasks|
    ensures IsRun(tasks, mem0, h0, run + [w])
    ensures var h' := HandAt(tasks, h0, run + [w], |run| + 1);
            h' == HandAfter(w.cb, tasks, w.mem, w.h.slot, w.h.addr, w.j, w.o) && h'.slot < |tasks|
  {
    hide StopsIn, SameLayout, WellFormed, Distinct, Stretch, HandAt;
    HandsOfLonger(tasks, h0, run, w);
    forall i | 0 <= i <= |run| ensures Continues(tasks, h0, run + [w], i) {
      assert i < |run| ==> Continues(tasks, h0, run, i);
    }
  }

  lemma HandsOfLonger(tasks: seq<int>, h0: Hand, run: seq<Walk>, w: Walk)
    requires w.h.slot < |tasks| && w.j <= |tasks|
    ensures forall i :: 0 <= i <= |run| ==> HandAt(tasks, h0, run + [w], i) == HandAt(tasks, h0, run, i)
    ensures HandAt(tasks, h0, run + [w], |run| + 1) == HandAfter(w.cb, tasks, w.mem, w.h.slot, w.h.addr, w.j, w.o)
  {
    hide HandAfter;
    var longer := run + [w];
    forall i | 0 <= i <= |run| ensures HandAt(tasks, h0, longer, i) == HandAt(tasks, h0, run, i) {
      assert i > 0 ==> longer[i - 1] == run[i - 1];
    }
  }

  lemma SameLayoutTransitive(m1: Memory, m2: Memory, m3: Memory)
    requires SameLayout(m1, m2) && SameLayout(m2, m3)
    ensures SameLayout(m1, m3)
  {
  }

  /** How many pages a walk processed, and how many of them the next walk will meet again. */
  ghost function Length(tasks: seq<int>, w: Walk): nat
    requires w.h.slot < |tasks| && w.j <= |tasks|
  {
    |Stretches(w.cb, tasks, w.mem, w.h.slot, w.h.addr, w.j)| + w.o
  }

  ghost function Again(tasks: seq<int>, w: Walk): nat
    requires w.h.slot < |tasks| && w.j <= |tasks|
  {
    Leftover(w.cb, tasks, w.mem, w.h, w.j, w.o)
  }

  /** The pages a walk of a run processed, in order. */
  ghost function PagesOfWalk(tasks: seq<int>, w: Walk): seq<Page>
    requires w.h.slot < |tasks| && w.j <= |tasks| && w.o <= |Stretch(w.cb, tasks, w.mem, w.h.slot, w.h.addr, w.j)|
  {
    PagesOf(Processed(w.cb, tasks, w.mem, w.h.slot, w.h.addr, w.j, w.o))
  }

  /** The position on the unrolled ring at which the i-th walk starts. */
  ghost function Position(tasks: seq<int>, mem0: Memory, h0: Hand, run: seq<Walk>, i: nat): int
    requires IsRun(tasks, mem0, h0, run) && i <= |run|
  {
    if i == 0 then Place(tasks, mem0, h0)
    else
      Position(tasks, mem0, h0, run, i - 1) + Length(tasks, run[i - 1]) - Again(tasks, run[i - 1])
  }

  /** `pos` shows on the unrolled ring what `place` shows: it is `place` plus whole turns. */
  ghost predicate Turns(pos: int, place: nat, round: nat)
    decreases pos
  {
    pos == place || (round > 0 && pos >= round && Turns(pos - round, place, round))
  }

  lemma {:induction false} TurnsShowTheSame(ring: seq<Page>, pos: int, place: nat, x: nat)
    requires |ring| > 0 && Turns(pos, place, |ring|)
    ensures pos >= 0 && Unrolled(ring, pos + x) == Unrolled(ring, place + x)
    decreases pos
  {
    if pos != place {
      TurnsShowTheSame(ring, pos - |ring|, place, x);
    }
  }

  lemma {:induction false} TurnsAdd(pos: int, place: nat, round: nat, d: nat)
    requires Turns(pos, place, round)
    ensures Turns(pos + d, place + d, round)
    decreases pos
  {
    if pos != place {
      TurnsAdd(pos - round, place, round, d);
    }
  }

  lemma {:induction false} TurnsBack(pos: int, place: nat, round: nat)
    requires Turns(pos, place + round, round)
    ensures Turns(pos, place, round)
    decreases pos
  {
    if pos == place + round {
      if round > 0 {
        assert Turns(pos - round, place, round);
      }
    } else {
      TurnsBack(pos - round, place, round);
    }
  }

  /** Every hand of a run is where its position says, and positions never go back. */
  lemma {:induction false} RunPlaces(tasks: seq<int>, mem0: Memory, h0: Hand, run: seq<Walk>, i: nat)
    requires IsRun(tasks, mem0, h0, run) && i <= |run|
    ensures var h := HandAt(tasks, h0, run, i);
            && h.slot < |tasks| && h.addr < MAX_ADDRESS
            && Turns(Position(tasks, mem0, h0, run, i), Place(tasks, mem0, h), |RingOf(tasks, mem0)|)
    ensures i > 0 ==> Position(tasks, mem0, h0, run, i - 1) <= Position(tasks, mem0, h0, run, i)
                      <= Position(tasks, mem0, h0, run, i - 1) + Length(tasks, run[i - 1])
  {
    hide RingOf, RingUpTo, Place, HandAfter, Leftover, Stretch, Stretches, StopsIn;
    if i > 0 {
      RunPlaces(tasks, mem0, h0, run, i - 1);
      assert Continues(tasks, h0, run, i - 1);
      RunStep(tasks, mem0, run[i - 1], Position(tasks, mem0, h0, run, i - 1));
    }
  }

  lemma StopsInBounds(cb: Callback, tasks: seq<int>, mem: Memory, h: Hand, need: nat, j: nat, o: nat)
    requires h.slot < |tasks| && StopsIn(cb, tasks, mem, h.slot, h.addr, need, j, o)
    ensures j <= |tasks| && o <= |Stretch(cb, tasks, mem, h.slot, h.addr, j)|
    ensures |Stretches(cb, tasks, mem, h.slot, h.addr, j)| + o <= |Cycle(cb, tasks, mem, h.slot, h.addr)|
    ensures Processed(cb, tasks, mem, h.slot, h.addr, j, o) <= Cycle(cb, tasks, mem, h.slot, h.addr)
  {
    CyclePrefix(cb, tasks, mem, h.slot, h.addr, j, o);
  }

  lemma RunStep(tasks: seq<int>, mem0: Memory, w: Walk, pos: int)
    requires w.h.slot < |tasks| && w.h.addr < MAX_ADDRESS && WellFormed(w.mem) && SameLayout(mem0, w.mem)
    requires StopsIn(w.cb, tasks, w.mem, w.h.slot, w.h.addr, w.need, w.j, w.o)
    requires Turns(pos, Place(tasks, mem0, w.h), |RingOf(tasks, mem0)|)
    ensures w.j <= |tasks| && w.o <= |Stretch(w.cb, tasks, w.mem, w.h.slot, w.h.addr, w.j)|
    ensures var h' := HandAfter(w.cb, tasks, w.mem, w.h.slot, w.h.addr, w.j, w.o);
            && h'.slot < |tasks| && h'.addr < MAX_ADDRESS && Again(tasks, w) <= Length(tasks, w)
            && Turns(pos + Length(tasks, w) - Again(tasks, w), Place(tasks, mem0, h'), |RingOf(tasks, mem0)|)
  {
    hide RingOf, RingUpTo, Place, HandAfter, Leftover, Stretch, Stretches;
    var h' := HandAfter(w.cb, tasks, w.mem, w.h.slot, w.h.addr, w.j, w.o);
    var place, round, step := Place(tasks, mem0, w.h), |RingOf(tasks, mem0)|, Length(tasks, w) - Again(tasks, w);
    WalkAdvances(w.cb, tasks, w.mem, w.h, w.j, w.o);
    SamePlaces(tasks, mem0, w.mem, w.h);
    SamePlaces(tasks, mem0, w.mem, h');
    TurnsAdd(pos, place, round, step);
    if w.h.slot + w.j >= |tasks| {
      TurnsBack(pos + step, Place(tasks, mem0, h'), round);
    }
  }

  lemma SamePlaces(tasks: seq<int>, m1: Memory, m2: Memory, h: Hand)
    requires h.slot < |tasks| && SameLayout(m1, m2)
    ensures Place(tasks, m1, h) == Place(tasks, m2, h) && RingOf(tasks, m1) == RingOf(tasks, m2)
  {
    RingLayout(tasks, m1, m2, h.slot);
    RingLayout(tasks, m1, m2, |tasks|);
    SegmentLayout(m1, m2, tasks[h.slot], 0, h.addr);
  }

  /** The x-th page of the i-th walk is the one that the unrolled ring shows at its position. */
  lemma {:induction false} RunFollowsRing(tasks: seq<int>, mem0: Memory, h0: Hand, run: seq<Walk>, i: nat, x: nat)
    requires IsRun(tasks, mem0, h0, run) && i < |run| && x < |PagesOfWalk(tasks, run[i])|
    ensures |RingOf(tasks, mem0)| > 0 && Position(tasks, mem0, h0, run, i) >= 0
    ensures PagesOfWalk(tasks, run[i])[x] ==
            Unrolled(RingOf(tasks, mem0), Position(tasks, mem0, h0, run, i) + x)
    ensures |PagesOfWalk(tasks, run[i])| == Length(tasks, run[i])
  {
    hide RingOf, RingUpTo, Place, HandAfter, Leftover, Stretch, Stretches, Cycle, StopsIn, Turns, Unrolled;
    var w := run[i];
    RunPlaces(tasks, mem0, h0, run, i);
    assert Continues(tasks, h0, run, i);
    StopsInBounds(w.cb, tasks, w.mem, w.h, w.need, w.j, w.o);
    CycleIsUnrolledRing(w.cb, tasks, w.mem, w.h);
    SamePlaces(tasks, mem0, w.mem, w.h);
    var vs, d := Cycle(w.cb, tasks, w.mem, w.h.slot, w.h.addr),
        Processed(w.cb, tasks, w.mem, w.h.slot, w.h.addr, w.j, w.o);
    assert d[x] == vs[x];
    assert PagesOf(d)[x] == PagesOf(vs)[x];
    TurnsShowTheSame(RingOf(tasks, mem0), Position(tasks, mem0, h0, run, i), Place(tasks, mem0, w.h), x);
  }

  /** No page is ever skipped: in any run, every position of the unrolled ring between the start and the
      furthest point that a walk reached was visited by then. */
  lemma {:induction false} NothingSkipped(tasks: seq<int>, mem0: Memory, h0: Hand, run: seq<Walk>, m: nat, pos: int)
    requires IsRun(tasks, mem0, h0, run) && m < |run|
    requires Place(tasks, mem0, h0) <= pos < Position(tasks, mem0, h0, run, m) + Length(tasks, run[m])
    ensures exists i, x :: 0 <= i <= m && 0 <= x < |PagesOfWalk(tasks, run[i])|
                           && pos == Position(tasks, mem0, h0, run, i) + x
                           && |RingOf(tasks, mem0)| > 0
                           && PagesOfWalk(tasks, run[i])[x] == Unrolled(RingOf(tasks, mem0), pos)
    decreases m
  {
    hide RingOf, RingUpTo, Place, HandAfter, Leftover, Stretch, Stretches, StopsIn, Unrolled, PagesOf, Again, HandAt,
      SameLayout, WellFormed, Distinct;
    var start := Position(tasks, mem0, h0, run, m);
    if pos >= start {
      var x := pos - start;
      var w := run[m];
      StopsInBounds(w.cb, tasks, w.mem, w.h, w.need, w.j, w.o);
      assert |PagesOfWalk(tasks, w)| == Length(tasks, w);
      RunFollowsRing(tasks, mem0, h0, run, m, x);
    } else {
      RunPlaces(tasks, mem0, h0, run, m);
      NothingSkipped(tasks, mem0, h0, run, m - 1, pos);
    }
  }

  /** Once a run has gone round the ring, every page of every task was visited. */
  lemma {:induction false} EveryPageIsVisited(tasks: seq<int>, mem0: Memory, h0: Hand, run: seq<Walk>, m: nat,
                                              page: Page)
    requires IsRun(tasks, mem0, h0, run) && m < |run| && page in RingOf(tasks, mem0)
    requires Position(tasks, mem0, h0, run, m) + Length(tasks, run[m]) >= Place(tasks, mem0, h0) + |RingOf(tasks, mem0)|
    ensures exists i :: 0 <= i <= m && page in PagesOfWalk(tasks, run[i])
  {
    hide RingOf, Place, Length, PagesOfWalk, Position, Stretch, Stretches, StopsAt, Cycle, SameLayout, WellFormed,
      HandAt, Distinct;
    var ring, place := RingOf(tasks, mem0), Place(tasks, mem0, h0);
    var q :| 0 <= q < |ring| && ring[q] == page;
    PlaceOnRing(tasks, mem0, h0);
    var pos := if q < place then q + |ring| else q;
    NothingSkipped(tasks, mem0, h0, run, m, pos);
    var i, x :| 0 <= i <= m && 0 <= x < |PagesOfWalk(tasks, run[i])| && pos == Position(tasks, mem0, h0, run, i) + x
                && PagesOfWalk(tasks, run[i])[x] == Unrolled(ring, pos);
    assert PagesOfWalk(tasks, run[i])[x] == page;
  }

  lemma PlaceOnRing(tasks: seq<int>, mem: Memory, h: Hand)
    requires h.slot < |tasks| && h.addr < MAX_ADDRESS && WellFormed(mem)
    ensures Place(tasks, mem, h) <= |RingOf(tasks, mem)|
  {
    hide RingOf, AtHand;
    HandPage(tasks, mem, h);
  }

  /** All pages processed by the first `m` walks, in order. */
  ghost function Visited(tasks: seq<int>, mem0: Memory, h0: Hand, run: seq<Walk>, m: nat): seq<Page>
    requires IsRun(tasks, mem0, h0, run) && m <= |run|
  {
    if m == 0 then []
    else Visited(tasks, mem0, h0, run, m - 1) + PagesOfWalk(tasks, run[m - 1])
  }

  /** `pages` are what the unrolled ring shows from `place` on. */
  ghost predicate Follows(ring: seq<Page>, place: nat, pages: seq<Page>) {
    (pages != [] ==> |ring| > 0) && forall x :: 0 <= x < |pages| ==> pages[x] == Unrolled(ring, place + x)
  }

  /** The walk ended because a callback returned nonzero: its stretch has a page left. */
  ghost predicate StoppedByCallback(tasks: seq<int>, w: Walk)
    requires w.h.slot < |tasks| && w.j <= |tasks|
  {
    w.o < |Stretch(w.cb, tasks, w.mem, w.h.slot, w.h.addr, w.j)|
  }

  /** Fair scanning: when every walk was stopped by its callback, what the walks visit is, walk after walk and
      without gap or repetition, the unrolled ring from the place of the first hand. */
  lemma {:induction false} FairScanning(tasks: seq<int>, mem0: Memory, h0: Hand, run: seq<Walk>, m: nat)
    requires IsRun(tasks, mem0, h0, run) && m <= |run|
    requires forall i :: 0 <= i < |run| ==> StoppedByCallback(tasks, run[i])
    ensures Position(tasks, mem0, h0, run, m) == Place(tasks, mem0, h0) + |Visited(tasks, mem0, h0, run, m)|
    ensures Follows(RingOf(tasks, mem0), Place(tasks, mem0, h0), Visited(tasks, mem0, h0, run, m))
  {
    hide RingOf, RingUpTo, Place, HandAfter, Stretch, Stretches, StopsIn, Unrolled, PagesOf, HandAt, SameLayout,
      WellFormed, Distinct, PagesOfWalk, Follows;
    NothingFollows(RingOf(tasks, mem0), Place(tasks, mem0, h0));
    if m > 0 {
      FairScanning(tasks, mem0, h0, run, m - 1);
      var w := run[m - 1];
      StopsInBounds(w.cb, tasks, w.mem, w.h, w.need, w.j, w.o);
      NextPages(tasks, mem0, h0, run, m - 1, Visited(tasks, mem0, h0, run, m - 1));
    }
  }

  lemma NothingFollows(ring: seq<Page>, place: nat)
    ensures Follows(ring, place, [])
  {
  }

  lemma {:induction false} NextPages(tasks: seq<int>, mem0: Memory, h0: Hand, run: seq<Walk>, i: nat, before: seq<Page>)
    requires IsRun(tasks, mem0, h0, run) && i < |run|
    requires Position(tasks, mem0, h0, run, i) == Place(tasks, mem0, h0) + |before|
    requires Follows(RingOf(tasks, mem0), Place(tasks, mem0, h0), before)
    ensures |PagesOfWalk(tasks, run[i])| == Length(tasks, run[i])
    ensures Follows(RingOf(tasks, mem0), Place(tasks, mem0, h0), before + PagesOfWalk(tasks, run[i]))
  {
    hide RingOf, Place, HandAfter, Stretch, Stretches, StopsIn, PagesOf, Position, HandAt, SameLayout,
      WellFormed, Distinct;
    var w := run[i];
    var ring, place := RingOf(tasks, mem0), Place(tasks, mem0, h0);
    StopsInBounds(w.cb, tasks, w.mem, w.h, w.need, w.j, w.o);
    var last := PagesOfWalk(tasks, w);
    assert |last| == Length(tasks, w);
    var at := place + |before|;
    if last != [] {
      RunFollowsRing(tasks, mem0, h0, run, i, 0);
      forall x | 0 <= x < |last| ensures last[x] == Unrolled(ring, at + x) {
        RunFollowsRing(tasks, mem0, h0, run, i, x);
      }
    }
    assert Follows(ring, at, last);
    FollowsOn(ring, place, before, last);
  }

  lemma FollowsOn(ring: seq<Page>, place: nat, before: seq<Page>, last: seq<Page>)
    requires Follows(ring, place, before) && Follows(ring, place + |before|, last)
    ensures Follows(ring, place, before + last)
  {
    var v := before + last;
    if v == [] {
      return;
    }
    forall x | 0 <= x < |v| ensures v[x] == Unrolled(ring, place + x) {
      if x < |before| {
        assert v[x] == before[x];
      } else {
        var y := x - |before|;
        assert v[x] == last[y] == Unrolled(ring, place + |before| + y);
        assert place + |before| + y == place + x;
      }
    }
    assert Follows(ring, place, v);
  }

  /** A stopped walk processes at least as many pages as it wanted, and meets none of them again next time. */
  lemma {:induction false} StoppedWalkAdvances(tasks: seq<int>, w: Walk)
    requires w.h.slot < |tasks| && StopsIn(w.cb, tasks, w.mem, w.h.slot, w.h.addr, w.need, w.j, w.o)
    requires StoppedByCallback(tasks, w)
    ensures Length(tasks, w) >= w.need && Again(tasks, w) == 0
  {
    hide Primaries, Stretch, Stretches, Cycle;
    var vs, k := Cycle(w.cb, tasks, w.mem, w.h.slot, w.h.addr), Length(tasks, w);
    CyclePrefix(w.cb, tasks, w.mem, w.h.slot, w.h.addr, w.j, w.o + 1);
    assert |Primaries(w.cb, vs[..k])| <= |vs[..k]| == k;
  }

  lemma {:induction false} PositionAdvances(tasks: seq<int>, mem0: Memory, h0: Hand, run: seq<Walk>, m: nat, q: nat)
    requires IsRun(tasks, mem0, h0, run) && m <= |run|
    requires forall i :: 0 <= i < |run| ==> StoppedByCallback(tasks, run[i]) && run[i].need >= q
    ensures Position(tasks, mem0, h0, run, m) >= Place(tasks, mem0, h0) + m * q
  {
    hide Place, Length, Again, Stretch, Stretches, StopsAt, Cycle, SameLayout, WellFormed, HandAt, Distinct,
      StoppedByCallback;
    if m > 0 {
      PositionAdvances(tasks, mem0, h0, run, m - 1, q);
      StoppedWalkAdvances(tasks, run[m - 1]);
      assert m * q == (m - 1) * q + q;
    }
  }

  /** Walks that a callback stops and that want at least `q` pages each go round the ring: as soon as there were
      enough of them for all pages, every page of every task was visited. */
  lemma {:induction false} StoppedWalksGoRound(tasks: seq<int>, mem0: Memory, h0: Hand, run: seq<Walk>, m: nat, q: nat,
                                               page: Page)
    requires IsRun(tasks, mem0, h0, run) && 0 < m <= |run| && m * q >= |RingOf(tasks, mem0)|
    requires forall i :: 0 <= i < |run| ==> StoppedByCallback(tasks, run[i]) && run[i].need >= q
    requires page in RingOf(tasks, mem0)
    ensures exists i :: 0 <= i < m && page in PagesOfWalk(tasks, run[i])
  {
    hide RingOf, Place, Length, Again, PagesOfWalk, Stretch, Stretches, StopsAt, Cycle, SameLayout, WellFormed, HandAt,
      Distinct, StoppedByCallback;
    PositionAdvances(tasks, mem0, h0, run, m, q);
    StoppedWalkAdvances(tasks, run[m - 1]);
    EveryPageIsVisited(tasks, mem0, h0, run, m - 1, page);
  }

  // ---- Starvation --------------------------------------------------------------------------------

  /** The callback never makes or unmakes a wanted page by cleaning one: all callbacks of the hybrid build, and
      those of the other build that do not want clean pages. */
  predicate Steady(cb: Callback) {
    cb.build.Hyb? || !(cb.kind.NvramIntensive? || cb.kind.NvramSwitch?)
  }

  /** The rest of the hand's own task holds exactly `need` wanted pages, the last page being one of them. */
  ghost predicate Stuck(cb: Callback, tasks: seq<int>, mem: Memory, h: Hand, need: nat)
    requires h.slot < |tasks|
  {
    var s := Segment(mem, tasks[h.slot], h.addr, MAX_ADDRESS);
    && need > 0 && |s| > 0
    && |Primaries(cb, s)| == need
    && Classify(cb, s[|s| - 1].pte).Primary?
  }

  /** The fairness of scanning needs the callback stop: when the quota is met on the last page of the hand's
      own task, only pages of that task are visited, the hand does not move, and after the walk everything is
      as before: the next request of the same size is answered with the same pages. */
  lemma {:induction false} Starvation(cb: Callback, tasks: seq<int>, mem: Memory, h: Hand, need: nat)
    requires h.slot < |tasks| && Steady(cb) && Stuck(cb, tasks, mem, h, need)
    ensures var o := |Stretch(cb, tasks, mem, h.slot, h.addr, 0)|;
            var visits := Processed(cb, tasks, mem, h.slot, h.addr, 0, o);
            var next := TouchAll(cb, mem, visits);
            && StopsIn(cb, tasks, mem, h.slot, h.addr, need, 0, o)
            && HandAfter(cb, tasks, mem, h.slot, h.addr, 0, o) == h
            && visits == Segment(mem, tasks[h.slot], h.addr, MAX_ADDRESS)
            && Stuck(cb, tasks, next, h, need)
            && Selected(cb, need, Cycle(cb, tasks, next, h.slot, h.addr)) ==
               Selected(cb, need, Cycle(cb, tasks, mem, h.slot, h.addr))
  {
    hide Classify, Touch, Primaries, Range, TouchAll, StopsIn, Cycle, Selected, Steady;
    var s := Segment(mem, tasks[h.slot], h.addr, MAX_ADDRESS);
    StuckStops(cb, tasks, mem, h, need);
    StuckAgain(cb, tasks, mem, h, need);
    StuckStops(cb, tasks, TouchAll(cb, mem, s), h, need);
    assert Stretches(cb, tasks, mem, h.slot, h.addr, 0) + s[..|s|] == s;
  }

  /** Where such a walk stops, and what it is answered with. */
  lemma {:induction false} StuckStops(cb: Callback, tasks: seq<int>, mem: Memory, h: Hand, need: nat)
    requires h.slot < |tasks| && Stuck(cb, tasks, mem, h, need)
    ensures var s := Segment(mem, tasks[h.slot], h.addr, MAX_ADDRESS);
            && StopsIn(cb, tasks, mem, h.slot, h.addr, need, 0, |s|)
            && Processed(cb, tasks, mem, h.slot, h.addr, 0, |s|) == s
            && Selected(cb, need, Cycle(cb, tasks, mem, h.slot, h.addr)) == Primaries(cb, s)
  {
    hide Classify, Primaries, Reserve, Range, StopsIn, Cycle, Selected;
    var s := Segment(mem, tasks[h.slot], h.addr, MAX_ADDRESS);
    assert Stretches(cb, tasks, mem, h.slot, h.addr, 0) + s[..|s|] == s;
    ButLastPrimaries(cb, s);
    StopHere(cb, tasks, mem, h.slot, h.addr, need, 0, |s|);
    WalkDelivers(cb, tasks, mem, h, need, 0, |s|);
    assert Take(0, Reserve(cb, need, s)) == [];
    assert Primaries(cb, s) + [] == Primaries(cb, s);
  }

  /** The page tables after `m` such walks. */
  ghost function AfterWalks(cb: Callback, tasks: seq<int>, mem: Memory, h: Hand, m: nat): Memory
    requires h.slot < |tasks|
  {
    if m == 0 then mem
    else
      var before := AfterWalks(cb, tasks, mem, h, m - 1);
      TouchAll(cb, before, Segment(before, tasks[h.slot], h.addr, MAX_ADDRESS))
  }

  /** However many requests follow, each ends where it began, is answered with the same pages, and visits no other
      task, wherever it could stop. */
  lemma {:induction false} StarvesForever(cb: Callback, tasks: seq<int>, mem: Memory, h: Hand, need: nat, m: nat)
    requires h.slot < |tasks| && Steady(cb) && Stuck(cb, tasks, mem, h, need)
    ensures var before := AfterWalks(cb, tasks, mem, h, m);
            && Stuck(cb, tasks, before, h, need)
            && WalkLeaves(cb, tasks, before, h, need, AfterWalks(cb, tasks, mem, h, m + 1), h)
            && Selected(cb, need, Cycle(cb, tasks, before, h.slot, h.addr)) ==
               Selected(cb, need, Cycle(cb, tasks, mem, h.slot, h.addr))
            && (forall j, o :: StopsIn(cb, tasks, before, h.slot, h.addr, need, j, o) ==>
                  forall v :: v in Processed(cb, tasks, before, h.slot, h.addr, j, o) ==> v.pid == tasks[h.slot])
    decreases m
  {
    hide Stuck, Processed, Stretch, Stretches, StopsAt, HandAfter, TouchAll, Segment, Cycle, Selected, Steady;
    if m > 0 {
      StarvesForever(cb, tasks, mem, h, need, m - 1);
      Starvation(cb, tasks, AfterWalks(cb, tasks, mem, h, m - 1), h, need);
    }
    var before := AfterWalks(cb, tasks, mem, h, m);
    Starvation(cb, tasks, before, h, need);
    forall j, o | StopsIn(cb, tasks, before, h.slot, h.addr, need, j, o)
      ensures forall v :: v in Processed(cb, tasks, before, h.slot, h.addr, j, o) ==> v.pid == tasks[h.slot]
    {
      OneTaskVisited(cb, tasks, before, h, need, j, o);
    }
  }

  lemma {:induction false} OneTaskVisited(cb: Callback, tasks: seq<int>, mem: Memory, h: Hand, need: nat, j: nat,
                                          o: nat)
    requires h.slot < |tasks| && Stuck(cb, tasks, mem, h, need)
    requires StopsIn(cb, tasks, mem, h.slot, h.addr, need, j, o)
    ensures forall v :: v in Processed(cb, tasks, mem, h.slot, h.addr, j, o) ==> v.pid == tasks[h.slot]
  {
    hide Primaries, Reserve, Range, Stretch, Stretches, Cycle, Classify, Processed, StopsAt;
    var s := Segment(mem, tasks[h.slot], h.addr, MAX_ADDRESS);
    StuckStops(cb, tasks, mem, h, need);
    WalkDelivers(cb, tasks, mem, h, need, 0, |s|);
    WalkDelivers(cb, tasks, mem, h, need, j, o);
    StopUnique(cb, need, Cycle(cb, tasks, mem, h.slot, h.addr), |s|,
               |Processed(cb, tasks, mem, h.slot, h.addr, j, o)|);
    SegmentPids(mem, tasks[h.slot], h.addr, MAX_ADDRESS);
  }

  lemma {:induction false} StuckAgain(cb: Callback, tasks: seq<int>, mem: Memory, h: Hand, need: nat)
    requires h.slot < |tasks| && Steady(cb) && Stuck(cb, tasks, mem, h, need)
    ensures var s := Segment(mem, tasks[h.slot], h.addr, MAX_ADDRESS);
            var next := TouchAll(cb, mem, s);
            && Stuck(cb, tasks, next, h, need)
            && Primaries(cb, Segment(next, tasks[h.slot], h.addr, MAX_ADDRESS)) == Primaries(cb, s)
  {
    hide Classify, Touch, Primaries, Range, TouchAll, Steady;
    var pid := tasks[h.slot];
    var s := Segment(mem, pid, h.addr, MAX_ADDRESS);
    TouchAllPointwise(cb, mem, s);
    var s2 := Segment(TouchAll(cb, mem, s), pid, h.addr, MAX_ADDRESS);
    RangeTouched(cb, pid, mem[pid], TouchAll(cb, mem, s)[pid], h.addr, MAX_ADDRESS);
    PrimariesStay(cb, s, s2);
    PrimaryTouched(cb, s[|s| - 1].pte);
  }

  lemma ButLastPrimaries(cb: Callback, s: seq<Visit>)
    requires |s| > 0 && Classify(cb, s[|s| - 1].pte).Primary?
    ensures |Primaries(cb, ButLast(s))| < |Primaries(cb, s)|
  {
  }

  /** The visits of touched tables are the visits of the tables, touched. */
  ghost predicate VisitsTouched(cb: Callback, r1: seq<Visit>, r2: seq<Visit>) {
    |r1| == |r2| &&
    forall i :: 0 <= i < |r1| ==> r2[i] == r1[i] || r2[i] == Visit(r1[i].pid, Touch(cb, r1[i].pte))
  }

  lemma {:induction false} RangeTouched(cb: Callback, pid: int, t1: seq<Pte>, t2: seq<Pte>, lo: nat, hi: nat)
    requires |t1| == |t2|
    requires forall i :: 0 <= i < |t1| ==> t2[i] == t1[i] || t2[i] == Touch(cb, t1[i])
    ensures VisitsTouched(cb, Range(pid, t1, lo, hi), Range(pid, t2, lo, hi))
  {
    if |t1| > 0 {
      hide Classify, Touch, Range;
      var n := |t1| - 1;
      RangeTouched(cb, pid, t1[..n], t2[..n], lo, hi);
      AddressTouched(cb, t1[n]);
      RangeSnoc(pid, t1, lo, hi);
      RangeSnoc(pid, t2, lo, hi);
    }
  }

  /** Touching pages does not change which of them are wanted. */
  lemma {:induction false} PrimariesStay(cb: Callback, r1: seq<Visit>, r2: seq<Visit>)
    requires Steady(cb) && VisitsTouched(cb, r1, r2)
    ensures Primaries(cb, r1) == Primaries(cb, r2)
  {
    if |r1| > 0 {
      hide Classify, Touch, Steady;
      var n := |r1| - 1;
      PrimariesStay(cb, r1[..n], r2[..n]);
      PrimaryTouched(cb, r1[n].pte);
      AddressTouched(cb, r1[n].pte);
    }
  }

  lemma AddressTouched(cb: Callback, p: Pte)
    ensures Touch(cb, p).addr == p.addr
  {
  }

  lemma PrimaryTouched(cb: Callback, p: Pte)
    requires Steady(cb)
    ensures Classify(cb, Touch(cb, p)).Primary? <==> Classify(cb, p).Primary?
  {
  }

  /** Two tasks with one idle DRAM page each: requests for one page are answered with the page of the first task
      for ever, and the page of the second, which is on the ring, is never visited. */
  lemma {:induction false} SecondTaskStarves(m: nat, j: nat, o: nat)
    ensures var cb, tasks, mem, h := Callback(Hyb, Mem), [1, 2], TwoTasks(), Hand(0, 0);
            var before := AfterWalks(cb, tasks, mem, h, m);
            && WellFormed(mem) && Distinct(tasks) && Page(2, 4096) in RingOf(tasks, mem)
            && Stuck(cb, tasks, mem, h, 1)
            && Selected(cb, 1, Cycle(cb, tasks, before, h.slot, h.addr)) == [AddrInfo(4096, 1)]
            && (StopsIn(cb, tasks, before, h.slot, h.addr, 1, j, o) ==>
                  Page(2, 4096) !in PagesOf(Processed(cb, tasks, before, h.slot, h.addr, j, o)))
  {
    hide Stuck, StopsAt, Cycle, Selected, Primaries, Segment, Processed, RingOf, TouchAll, Stretch, Stretches, PagesOf,
      TwoTasks, Classify, WellFormed, AfterWalks, WalkLeaves;
    var cb, tasks, mem, h := Callback(Hyb, Mem), [1, 2], TwoTasks(), Hand(0, 0);
    IdlePageIsStuck();
    StarvesForever(cb, tasks, mem, h, 1, m);
    StuckStops(cb, tasks, mem, h, 1);
    var before := AfterWalks(cb, tasks, mem, h, m);
    if StopsIn(cb, tasks, before, h.slot, h.addr, 1, j, o) {
      NotVisited(Processed(cb, tasks, before, h.slot, h.addr, j, o), 1, Page(2, 4096));
    }
  }

  lemma NotVisited(vs: seq<Visit>, pid: int, page: Page)
    requires page.pid != pid && forall v :: v in vs ==> v.pid == pid
    ensures page !in PagesOf(vs)
  {
    forall i | 0 <= i < |vs| ensures PagesOf(vs)[i] != page {
      assert vs[i] in vs;
    }
  }

  function TwoTasks(): Memory {
    map[1 := [Pte(4096, true, true, false, false, 0)], 2 := [Pte(4096, true, true, false, false, 0)]]
  }

  lemma IdlePageIsStuck()
    ensures var cb, tasks, mem, h := Callback(Hyb, Mem), [1, 2], TwoTasks(), Hand(0, 0);
            && WellFormed(mem) && Page(2, 4096) in RingOf(tasks, mem)
            && Stuck(cb, tasks, mem, h, 1)
            && Primaries(cb, Segment(mem, 1, 0, MAX_ADDRESS)) == [AddrInfo(4096, 1)]
  {
    var cb, tasks, mem := Callback(Hyb, Mem), [1, 2], TwoTasks();
    var page := Pte(4096, true, true, false, false, 0);
    OnePage(1, page);
    OnePage(2, page);
    var first, second := Segment(mem, 1, 0, MAX_ADDRESS), Segment(mem, 2, 0, MAX_ADDRESS);
    assert first == [Visit(1, page)] && second == [Visit(2, page)];
    assert first[..0] == [] && Primaries(cb, []) == [];
    assert Entry(first[0]) == AddrInfo(4096, 1);
    assert RingUpTo(tasks, mem, 2) == RingUpTo(tasks, mem, 1) + PagesOf(second);
    assert PagesOf(second)[0] == Page(2, 4096);
    assert RingOf(tasks, mem)[|RingUpTo(tasks, mem, 1)|] == Page(2, 4096);
  }

  lemma OnePage(pid: int, page: Pte)
    requires page.addr < MAX_ADDRESS
    ensures Range(pid, [page], 0, MAX_ADDRESS) == [Visit(pid, page)]
  {
    assert [page][..0] == [];
  }
}
