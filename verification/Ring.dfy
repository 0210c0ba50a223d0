/** The ring of pages that a clock hand goes round, and how walks advance on it. */
module Ring {
  import opened Ambix
  import opened PageTable
  import opened PageTableLemmas
  import opened ClockOrder

  datatype Page = Page(pid: int, addr: nat)

  function PagesOf(vs: seq<Visit>): (r: seq<Page>)
    ensures |r| == |vs|
    ensures forall i :: 0 <= i < |vs| ==> r[i] == Page(vs[i].pid, vs[i].pte.addr)
  {
    seq(|vs|, i requires 0 <= i < |vs| => Page(vs[i].pid, vs[i].pte.addr))
  }

  /** The same processes with pages at the same addresses, whatever the bits. */
  ghost predicate SameLayout(m1: Memory, m2: Memory) {
    && m1.Keys == m2.Keys
    && forall pid :: pid in m1 ==>
         && |m1[pid]| == |m2[pid]|
         && forall i :: 0 <= i < |m1[pid]| ==> m1[pid][i].addr == m2[pid][i].addr
  }

  /** The pages of the first `i` tasks, in table order and address order. */
  function RingUpTo(tasks: seq<int>, mem: Memory, i: nat): seq<Page>
    requires i <= |tasks|
  {
    if i == 0 then []
    else RingUpTo(tasks, mem, i - 1) + PagesOf(Segment(mem, tasks[i - 1], 0, MAX_ADDRESS))
  }

  /** All pages of all tasks: the ring a hand goes round. */
  function RingOf(tasks: seq<int>, mem: Memory): seq<Page> {
    RingUpTo(tasks, mem, |tasks|)
  }

  /** The place of a hand on the ring: how many pages are before it. */
  function Place(tasks: seq<int>, mem: Memory, h: Hand): nat
    requires h.slot < |tasks|
  {
    |RingUpTo(tasks, mem, h.slot)| + |Segment(mem, tasks[h.slot], 0, h.addr)|
  }

  /** The ring unrolled without end. */
  function Unrolled(ring: seq<Page>, i: nat): Page
    requires |ring| > 0
    decreases i
  {
    if i < |ring| then ring[i] else Unrolled(ring, i - |ring|)
  }

  // ---- Layout --------------------------------------------------------------------------------

  lemma {:induction false} RangeLayout(pid: int, t1: seq<Pte>, t2: seq<Pte>, lo: nat, hi: nat)
    requires |t1| == |t2| && forall i :: 0 <= i < |t1| ==> t1[i].addr == t2[i].addr
    ensures PagesOf(Range(pid, t1, lo, hi)) == PagesOf(Range(pid, t2, lo, hi))
  {
    if |t1| > 0 {
      RangeLayout(pid, t1[..|t1| - 1], t2[..|t2| - 1], lo, hi);
    }
  }

  lemma SegmentLayout(m1: Memory, m2: Memory, pid: int, lo: nat, hi: nat)
    requires SameLayout(m1, m2)
    ensures PagesOf(Segment(m1, pid, lo, hi)) == PagesOf(Segment(m2, pid, lo, hi))
    ensures |Segment(m1, pid, lo, hi)| == |Segment(m2, pid, lo, hi)|
  {
    if pid in m1 {
      RangeLayout(pid, m1[pid], m2[pid], lo, hi);
    }
    assert |PagesOf(Segment(m1, pid, lo, hi))| == |Segment(m1, pid, lo, hi)|;
  }

  lemma {:induction false} RingLayout(tasks: seq<int>, m1: Memory, m2: Memory, i: nat)
    requires i <= |tasks| && SameLayout(m1, m2)
    ensures RingUpTo(tasks, m1, i) == RingUpTo(tasks, m2, i)
  {
    if i > 0 {
      RingLayout(tasks, m1, m2, i - 1);
      SegmentLayout(m1, m2, tasks[i - 1], 0, MAX_ADDRESS);
    }
  }

  lemma TouchedLayout(cb: Callback, mem: Memory, vs: seq<Visit>)
    ensures SameLayout(mem, TouchAll(cb, mem, vs))
  {
    TouchAllPointwise(cb, mem, vs);
  }

  lemma SegmentSplit(mem: Memory, pid: int, lo: nat, mid: nat, hi: nat)
    requires WellFormed(mem) && lo <= mid <= hi
    ensures Segment(mem, pid, lo, hi) == Segment(mem, pid, lo, mid) + Segment(mem, pid, mid, hi)
  {
    if pid in mem {
      assert Ascending(mem[pid]);
      RangeSplit(pid, mem[pid], lo, mid, hi);
    }
  }

  /** The o-th page of a segment has o pages of the segment before its address. */
  lemma SegmentIndex(mem: Memory, pid: int, lo: nat, hi: nat, o: nat)
    requires WellFormed(mem) && o < |Segment(mem, pid, lo, hi)|
    ensures var a := Segment(mem, pid, lo, hi)[o].pte.addr;
            lo <= a < hi && |Segment(mem, pid, lo, a)| == o
  {
    var s := Segment(mem, pid, lo, hi);
    RangeMember(pid, mem[pid], lo, hi, o);
    var a := s[o].pte.addr;
    SegmentSplit(mem, pid, lo, a, hi);
    var before, after := Segment(mem, pid, lo, a), Segment(mem, pid, a, hi);
    assert Ascending(mem[pid]);
    RangeAscending(pid, mem[pid], lo, hi);
    if o < |before| {
      assert before[o] == s[o];
      RangeMember(pid, mem[pid], lo, a, o);
    } else if o > |before| {
      assert after[0] == s[|before|];
      RangeMember(pid, mem[pid], a, hi, 0);
    }
  }

  // ---- The cycle is the unrolled ring ------------------------------------------------------------

  lemma PagesOfConcat(a: seq<Visit>, b: seq<Visit>)
    ensures PagesOf(a + b) == PagesOf(a) + PagesOf(b)
  {
  }

  lemma {:induction false} RingPrefix(tasks: seq<int>, mem: Memory, i: nat, j: nat)
    requires i <= j <= |tasks|
    ensures RingUpTo(tasks, mem, i) <= RingUpTo(tasks, mem, j)
    decreases j
  {
    if i < j {
      RingPrefix(tasks, mem, i, j - 1);
    }
  }

  /** What is before the hand on the ring. */
  function Before(tasks: seq<int>, mem: Memory, h: Hand): (r: seq<Page>)
    requires h.slot < |tasks|
    ensures |r| == Place(tasks, mem, h)
  {
    RingUpTo(tasks, mem, h.slot) + PagesOf(Segment(mem, tasks[h.slot], 0, h.addr))
  }

  /** What is before the hand, followed by the first `j` stretches, is the ring up to the next slot. */
  lemma {:induction false} StretchesToEnd(cb: Callback, tasks: seq<int>, mem: Memory, h: Hand, j: nat)
    requires h.slot < |tasks| && h.addr <= MAX_ADDRESS && WellFormed(mem) && 1 <= j && h.slot + j <= |tasks|
    ensures Before(tasks, mem, h) + PagesOf(Stretches(cb, tasks, mem, h.slot, h.addr, j)) ==
              RingUpTo(tasks, mem, h.slot + j)
    decreases j
  {
    hide Segment, PagesOf;
    var p := h.slot;
    var done, next := Stretches(cb, tasks, mem, p, h.addr, j - 1), Stretch(cb, tasks, mem, p, h.addr, j - 1);
    PagesOfConcat(done, next);
    Assoc(Before(tasks, mem, h), PagesOf(done), PagesOf(next));
    if j == 1 {
      var low := Segment(mem, tasks[p], 0, h.addr);
      SegmentSplit(mem, tasks[p], 0, h.addr, MAX_ADDRESS);
      PagesOfConcat(low, next);
      Assoc(RingUpTo(tasks, mem, p), PagesOf(low), PagesOf(next));
      assert done == [] && PagesOf(done) == [];
      assert Before(tasks, mem, h) + [] == Before(tasks, mem, h);
    } else {
      StretchesToEnd(cb, tasks, mem, h, j - 1);
    }
  }

  /** Behind the last slot, the stretches go on at the beginning of the ring. */
  lemma {:induction false} StretchesWrap(cb: Callback, tasks: seq<int>, mem: Memory, h: Hand, j: nat)
    requires h.slot < |tasks| && h.addr <= MAX_ADDRESS && WellFormed(mem) && j <= |tasks| <= h.slot + j
    ensures Before(tasks, mem, h) + PagesOf(Stretches(cb, tasks, mem, h.slot, h.addr, j)) ==
            RingOf(tasks, mem) + RingUpTo(tasks, mem, h.slot + j - |tasks|)
    decreases j
  {
    hide Segment, PagesOf, Before;
    var n, p := |tasks|, h.slot;
    if p + j == n {
      StretchesToEnd(cb, tasks, mem, h, j);
      assert RingOf(tasks, mem) + [] == RingOf(tasks, mem);
    } else {
      var done, next := Stretches(cb, tasks, mem, p, h.addr, j - 1), Stretch(cb, tasks, mem, p, h.addr, j - 1);
      StretchesWrap(cb, tasks, mem, h, j - 1);
      PagesOfConcat(done, next);
      Assoc(Before(tasks, mem, h), PagesOf(done), PagesOf(next));
      Assoc(RingOf(tasks, mem), RingUpTo(tasks, mem, p + j - 1 - n), PagesOf(next));
    }
  }

  /** The pages at the hand itself: the page that is met first and last, if there is one. */
  function AtHand(tasks: seq<int>, mem: Memory, h: Hand): seq<Page>
    requires h.slot < |tasks|
  {
    PagesOf(Segment(mem, tasks[h.slot], h.addr, h.addr + 1))
  }

  /** What is before the hand, followed by a whole cycle, is once round the ring and back to the hand, with
      the page at the hand met again. */
  lemma CycleGoesRound(cb: Callback, tasks: seq<int>, mem: Memory, h: Hand)
    requires h.slot < |tasks| && h.addr < MAX_ADDRESS && WellFormed(mem)
    ensures Before(tasks, mem, h) + PagesOf(Cycle(cb, tasks, mem, h.slot, h.addr)) ==
            RingOf(tasks, mem) + (Before(tasks, mem, h) + AtHand(tasks, mem, h))
  {
    hide Segment, PagesOf, Before, AtHand, Stretch, RingOf, RingUpTo;
    var n, p := |tasks|, h.slot;
    var done, last := Stretches(cb, tasks, mem, p, h.addr, n), Stretch(cb, tasks, mem, p, h.addr, n);
    StretchesWrap(cb, tasks, mem, h, n);
    PagesOfConcat(done, last);
    LastStretch(cb, tasks, mem, h);
    Assoc(Before(tasks, mem, h), PagesOf(done), PagesOf(last));
    Assoc(RingOf(tasks, mem), RingUpTo(tasks, mem, p), PagesOf(last));
  }

  lemma LastStretch(cb: Callback, tasks: seq<int>, mem: Memory, h: Hand)
    requires h.slot < |tasks| && h.addr < MAX_ADDRESS && WellFormed(mem)
    ensures var last := PagesOf(Stretch(cb, tasks, mem, h.slot, h.addr, |tasks|));
            RingUpTo(tasks, mem, h.slot) + last == Before(tasks, mem, h) + AtHand(tasks, mem, h)
  {
    hide Segment, PagesOf, TouchAll, RingUpTo;
    var p := h.slot;
    var first := Stretch(cb, tasks, mem, p, h.addr, 0);
    var low, at := Segment(mem, tasks[p], 0, h.addr), Segment(mem, tasks[p], h.addr, h.addr + 1);
    TouchedLayout(cb, mem, first);
    SegmentLayout(mem, TouchAll(cb, mem, first), tasks[p], 0, h.addr + 1);
    SegmentSplit(mem, tasks[p], 0, h.addr, h.addr + 1);
    PagesOfConcat(low, at);
    Assoc(RingUpTo(tasks, mem, p), PagesOf(low), PagesOf(at));
  }

  /** At most one page is at the hand, and it is the one at its place on the ring. */
  lemma HandPage(tasks: seq<int>, mem: Memory, h: Hand)
    requires h.slot < |tasks| && h.addr < MAX_ADDRESS && WellFormed(mem)
    ensures Before(tasks, mem, h) + AtHand(tasks, mem, h) <= RingOf(tasks, mem)
    ensures |AtHand(tasks, mem, h)| <= 1
  {
    hide Segment, PagesOf;
    var p, pid := h.slot, tasks[h.slot];
    var low, at, high := Segment(mem, pid, 0, h.addr), Segment(mem, pid, h.addr, h.addr + 1),
        Segment(mem, pid, h.addr + 1, MAX_ADDRESS);
    SegmentSplit(mem, pid, 0, h.addr, MAX_ADDRESS);
    SegmentSplit(mem, pid, h.addr, h.addr + 1, MAX_ADDRESS);
    PagesOfConcat(low, at + high);
    PagesOfConcat(at, high);
    RingPrefix(tasks, mem, p + 1, |tasks|);
    Assoc(RingUpTo(tasks, mem, p), PagesOf(low), PagesOf(at) + PagesOf(high));
    Assoc(Before(tasks, mem, h), PagesOf(at), PagesOf(high));
    OnePageAt(mem, pid, h.addr);
  }

  lemma OnePageAt(mem: Memory, pid: int, addr: nat)
    requires WellFormed(mem)
    ensures |Segment(mem, pid, addr, addr + 1)| <= 1
  {
    var at := Segment(mem, pid, addr, addr + 1);
    if |at| > 1 {
      RangeMember(pid, mem[pid], addr, addr + 1, 0);
      RangeMember(pid, mem[pid], addr, addr + 1, 1);
      assert Ascending(mem[pid]);
      RangeAscending(pid, mem[pid], addr, addr + 1);
    }
  }

  /** A cycle visits the ring in unrolled order from the place of the hand: all of it once, and only the
      page at the hand a second time, at the end. */
  lemma CycleIsUnrolledRing(cb: Callback, tasks: seq<int>, mem: Memory, h: Hand)
    requires h.slot < |tasks| && h.addr < MAX_ADDRESS && WellFormed(mem)
    ensures var ring := RingOf(tasks, mem);
            var pages := PagesOf(Cycle(cb, tasks, mem, h.slot, h.addr));
            && |pages| == |ring| + |AtHand(tasks, mem, h)| && |AtHand(tasks, mem, h)| <= 1
            && Place(tasks, mem, h) <= |ring|
            && forall i :: 0 <= i < |pages| ==> |ring| > 0 && pages[i] == Unrolled(ring, Place(tasks, mem, h) + i)
  {
    hide Before, AtHand, RingOf, Cycle, Unrolled, PagesOf;
    var ring, before, at := RingOf(tasks, mem), Before(tasks, mem, h), AtHand(tasks, mem, h);
    var pages := PagesOf(Cycle(cb, tasks, mem, h.slot, h.addr));
    CycleGoesRound(cb, tasks, mem, h);
    HandPage(tasks, mem, h);
    forall i | 0 <= i < |pages| ensures |ring| > 0 && pages[i] == Unrolled(ring, |before| + i) {
      assert pages[i] == (before + pages)[|before| + i];
      RoundAndOn(ring, before + at, |before| + i);
    }
  }

  /** Walking on at the beginning of the ring is walking the unrolled ring. */
  lemma RoundAndOn(ring: seq<Page>, more: seq<Page>, i: nat)
    requires more <= ring && i < |ring| + |more|
    ensures |ring| > 0 && (ring + more)[i] == Unrolled(ring, i)
  {
  }
}
