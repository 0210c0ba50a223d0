/** The cyclic order in which a walk meets pages, and where a walk leaves its clock hand. */
module ClockOrder {
  import opened Ambix
  import opened PageTable
  import opened PageTableLemmas
  import opened Selection

  /** A clock hand: a table slot and an address in that task's address space. */
  datatype Hand = Hand(slot: nat, addr: nat)

  /** The table slot `j` places after slot `p`, cyclically. */
  function SlotAfter(p: nat, j: nat, n: nat): (s: nat)
    requires p < n && j <= n
    ensures s < n
  {
    if p + j < n then p + j else p + j - n
  }

  /** The j-th stretch of a walk that starts at address `addr` of slot `p`: the rest of that process,
      every other process in cyclic order, then the start of the first process up to and including
      `addr`. A page that is exactly at `addr` is met first and last, the second time as the first
      visit left it. */
  function Stretch(cb: Callback, tasks: seq<int>, mem: Memory, p: nat, addr: nat, j: nat): seq<Visit>
    requires p < |tasks| && j <= |tasks|
  {
    if j == 0 then Segment(mem, tasks[p], addr, MAX_ADDRESS)
    else if j < |tasks| then Segment(mem, tasks[SlotAfter(p, j, |tasks|)], 0, MAX_ADDRESS)
    else Segment(TouchAll(cb, mem, Stretch(cb, tasks, mem, p, addr, 0)), tasks[p], 0, addr + 1)
  }

  /** The first `j` stretches, joined. */
  function Stretches(cb: Callback, tasks: seq<int>, mem: Memory, p: nat, addr: nat, j: nat): seq<Visit>
    requires p < |tasks| && j <= |tasks| + 1
  {
    if j == 0 then []
    else Stretches(cb, tasks, mem, p, addr, j - 1) + Stretch(cb, tasks, mem, p, addr, j - 1)
  }

  /** Everything a walk that nothing stops would visit. */
  function Cycle(cb: Callback, tasks: seq<int>, mem: Memory, p: nat, addr: nat): seq<Visit>
    requires p < |tasks|
  {
    Stretches(cb, tasks, mem, p, addr, |tasks| + 1)
  }

  ghost predicate Distinct(s: seq<int>) {
    forall i, j :: 0 <= i < j < |s| ==> s[i] != s[j]
  }

  lemma {:induction false} StretchesPrefix(cb: Callback, tasks: seq<int>, mem: Memory, p: nat, addr: nat, i: nat,
                                           j: nat)
    requires p < |tasks| && i <= j <= |tasks| + 1
    ensures Stretches(cb, tasks, mem, p, addr, i) <= Stretches(cb, tasks, mem, p, addr, j)
    decreases j
  {
    if i < j {
      StretchesPrefix(cb, tasks, mem, p, addr, i, j - 1);
    }
  }

  lemma StretchesNext(cb: Callback, tasks: seq<int>, mem: Memory, p: nat, addr: nat, j: nat)
    requires p < |tasks| && j <= |tasks|
    ensures Stretches(cb, tasks, mem, p, addr, j + 1) ==
            Stretches(cb, tasks, mem, p, addr, j) + Stretch(cb, tasks, mem, p, addr, j)
  {
  }

  lemma SegmentPids(mem: Memory, pid: int, lo: nat, hi: nat)
    ensures forall k :: 0 <= k < |Segment(mem, pid, lo, hi)| ==> Segment(mem, pid, lo, hi)[k].pid == pid
  {
    if pid in mem {
      forall k | 0 <= k < |Segment(mem, pid, lo, hi)| ensures Segment(mem, pid, lo, hi)[k].pid == pid {
        RangeMember(pid, mem[pid], lo, hi, k);
      }
    }
  }

  /** The stretches after the first, up to the j-th, only touch the processes they belong to. */
  lemma {:induction false} LaterStretchesPids(cb: Callback, tasks: seq<int>, mem: Memory, p: nat, addr: nat, j: nat,
                                              pid: int)
    requires p < |tasks| && j <= |tasks|
    requires Distinct(tasks)
    requires j > 0 && (if j < |tasks| then pid == tasks[SlotAfter(p, j, |tasks|)] else pid == tasks[p])
    ensures var d := Stretches(cb, tasks, mem, p, addr, j);
            var first := |Stretch(cb, tasks, mem, p, addr, 0)|;
            |d| >= first && d[..first] == Stretch(cb, tasks, mem, p, addr, 0) &&
            forall k :: first <= k < |d| ==> d[k].pid != pid
  {
    LaterStretchesPidsUpTo(cb, tasks, mem, p, addr, j, j, pid);
  }

  lemma {:induction false} LaterStretchesPidsUpTo(cb: Callback, tasks: seq<int>, mem: Memory, p: nat, addr: nat,
                                                  i: nat, j: nat, pid: int)
    requires p < |tasks| && 1 <= i <= j <= |tasks|
    requires Distinct(tasks)
    requires if j < |tasks| then pid == tasks[SlotAfter(p, j, |tasks|)] else pid == tasks[p]
    ensures var d := Stretches(cb, tasks, mem, p, addr, i);
            var first := |Stretch(cb, tasks, mem, p, addr, 0)|;
            |d| >= first && d[..first] == Stretch(cb, tasks, mem, p, addr, 0) &&
            forall k :: first <= k < |d| ==> d[k].pid != pid
    decreases i
  {
    var first := Stretch(cb, tasks, mem, p, addr, 0);
    if i == 1 {
      assert Stretches(cb, tasks, mem, p, addr, 0) == [];
      assert Stretches(cb, tasks, mem, p, addr, 1) == first;
    } else {
      LaterStretchesPidsUpTo(cb, tasks, mem, p, addr, i - 1, j, pid);
      var s := SlotAfter(p, i - 1, |tasks|);
      SegmentPids(mem, tasks[s], 0, MAX_ADDRESS);
      assert tasks[s] != pid;
    }
  }

  /** When the walk reaches its j-th stretch, what it finds there is what the definition says. */
  lemma StretchIsCurrent(cb: Callback, tasks: seq<int>, mem: Memory, p: nat, addr: nat, j: nat)
    requires p < |tasks| && j <= |tasks| && Distinct(tasks)
    ensures var now := TouchAll(cb, mem, Stretches(cb, tasks, mem, p, addr, j));
            Stretch(cb, tasks, mem, p, addr, j) ==
            if j == 0 then Segment(now, tasks[p], addr, MAX_ADDRESS)
            else if j < |tasks| then Segment(now, tasks[SlotAfter(p, j, |tasks|)], 0, MAX_ADDRESS)
            else Segment(now, tasks[p], 0, addr + 1)
  {
    if j > 0 {
      var d := Stretches(cb, tasks, mem, p, addr, j);
      var first := Stretch(cb, tasks, mem, p, addr, 0);
      var pid := if j < |tasks| then tasks[SlotAfter(p, j, |tasks|)] else tasks[p];
      LaterStretchesPids(cb, tasks, mem, p, addr, j, pid);
      var rest := d[|first|..];
      assert d == first + rest;
      TouchAllConcat(cb, mem, first, rest);
      TouchAllFrame(cb, TouchAll(cb, mem, first), rest, pid);
      if j < |tasks| {
        SegmentPids(mem, tasks[p], addr, MAX_ADDRESS);
        assert pid != tasks[p];
        TouchAllFrame(cb, mem, first, pid);
      }
    }
  }

  /** What comes before the o-th page of the j-th stretch. */
  lemma CyclePrefix(cb: Callback, tasks: seq<int>, mem: Memory, p: nat, addr: nat, j: nat, o: nat)
    requires p < |tasks| && j <= |tasks|
    requires o <= |Stretch(cb, tasks, mem, p, addr, j)|
    ensures var ss := Stretches(cb, tasks, mem, p, addr, j);
            var s := Stretch(cb, tasks, mem, p, addr, j);
            var vs := Cycle(cb, tasks, mem, p, addr);
            && |ss| + o <= |vs| && vs[..|ss| + o] == ss + s[..o]
            && (j == 0 ==> ss == [])
            && (j == |tasks| ==> |vs| == |ss| + |s|)
  {
    hide Stretch;
    StretchesPrefix(cb, tasks, mem, p, addr, j + 1, |tasks| + 1);
    var ss := Stretches(cb, tasks, mem, p, addr, j);
    var s := Stretch(cb, tasks, mem, p, addr, j);
    assert ss + s <= Cycle(cb, tasks, mem, p, addr);
    assert (ss + s)[..|ss| + o] == ss + s[..o];
  }

  // ---- Stopping ----------------------------------------------------------------------------

  /** A walk that wants `need` primaries ends with `o` pages of its j-th stretch processed: that is
      where the quota is met, or the very end when it never is. */
  ghost predicate StopsIn(cb: Callback, tasks: seq<int>, mem: Memory, p: nat, addr: nat, need: nat, j: nat, o: nat)
    requires p < |tasks|
  {
    && j <= |tasks|
    && o <= |Stretch(cb, tasks, mem, p, addr, j)|
    && var k := |Stretches(cb, tasks, mem, p, addr, j)| + o;
       var vs := Cycle(cb, tasks, mem, p, addr);
       && StopsAt(cb, need, vs, k)
       && vs[..k] == Stretches(cb, tasks, mem, p, addr, j) + Stretch(cb, tasks, mem, p, addr, j)[..o]
       && (|Primaries(cb, vs[..k])| < need ==> j == |tasks| && o == |Stretch(cb, tasks, mem, p, addr, j)|)
       && (|Primaries(cb, vs[..k])| == need && o == 0 ==> j == 0)
  }

  /** Where the walk leaves its hand: in the slot of that stretch, on the next page of the stretch,
      or on the old address when the stretch has no next page. */
  function HandAfter(cb: Callback, tasks: seq<int>, mem: Memory, p: nat, addr: nat, j: nat, o: nat): Hand
    requires p < |tasks| && j <= |tasks|
  {
    var s := Stretch(cb, tasks, mem, p, addr, j);
    Hand(SlotAfter(p, j, |tasks|), if o < |s| then s[o].pte.addr else addr)
  }

  /** A hand stays inside the address space. */
  lemma HandAfterBound(cb: Callback, tasks: seq<int>, mem: Memory, p: nat, addr: nat, j: nat, o: nat)
    requires p < |tasks| && j <= |tasks| && addr < MAX_ADDRESS
    ensures HandAfter(cb, tasks, mem, p, addr, j, o).addr < MAX_ADDRESS
  {
    var s := Stretch(cb, tasks, mem, p, addr, j);
    if o < |s| {
      if j == 0 {
        RangeMember(tasks[p], mem[tasks[p]], addr, MAX_ADDRESS, o);
      } else if j < |tasks| {
        var pid := tasks[SlotAfter(p, j, |tasks|)];
        RangeMember(pid, mem[pid], 0, MAX_ADDRESS, o);
      } else {
        var now := TouchAll(cb, mem, Stretch(cb, tasks, mem, p, addr, 0));
        RangeMember(tasks[p], now[tasks[p]], 0, addr + 1, o);
      }
    }
  }

  /** The pages that a walk which ends there has processed. */
  function Processed(cb: Callback, tasks: seq<int>, mem: Memory, p: nat, addr: nat, j: nat, o: nat): seq<Visit>
    requires p < |tasks| && j <= |tasks|
    requires o <= |Stretch(cb, tasks, mem, p, addr, j)|
  {
    Stretches(cb, tasks, mem, p, addr, j) + Stretch(cb, tasks, mem, p, addr, j)[..o]
  }

  /** A walk for `need` primaries from hand `h` leaves page tables `mem'` and hand `h'`. */
  ghost predicate WalkLeaves(cb: Callback, tasks: seq<int>, mem: Memory, h: Hand, need: nat, mem': Memory, h': Hand)
    requires h.slot < |tasks|
  {
    exists j, o :: StopsIn(cb, tasks, mem, h.slot, h.addr, need, j, o) &&
      mem' == TouchAll(cb, mem, Processed(cb, tasks, mem, h.slot, h.addr, j, o)) &&
      h' == HandAfter(cb, tasks, mem, h.slot, h.addr, j, o)
  }

  /** What a stopped walk has in its two lists is what two full passes over the cycle would select. */
  lemma {:induction false} WalkDelivers(cb: Callback, tasks: seq<int>, mem: Memory, h: Hand, need: nat, j: nat, o: nat)
    requires h.slot < |tasks|
    requires StopsIn(cb, tasks, mem, h.slot, h.addr, need, j, o)
    ensures var d := Processed(cb, tasks, mem, h.slot, h.addr, j, o);
            var vs := Cycle(cb, tasks, mem, h.slot, h.addr);
            && StopsAt(cb, need, vs, |d|) && vs[..|d|] == d
            && |Primaries(cb, d)| <= need
            && Delivered(need, Primaries(cb, d), Reserve(cb, need, d)) == Selected(cb, need, vs)
            && WalkLeaves(cb, tasks, mem, h, need, TouchAll(cb, mem, d),
                          HandAfter(cb, tasks, mem, h.slot, h.addr, j, o))
  {
    hide Primaries, Reserve, Stretch, Stretches;
    var d := Processed(cb, tasks, mem, h.slot, h.addr, j, o);
    OnePassIsTwoPass(cb, need, Cycle(cb, tasks, mem, h.slot, h.addr), |d|);
  }

  lemma {:induction false} StopHere(cb: Callback, tasks: seq<int>, mem: Memory, p: nat, addr: nat, need: nat, j: nat,
                                    o: nat)
    requires p < |tasks| && j <= |tasks|
    requires o <= |Stretch(cb, tasks, mem, p, addr, j)|
    requires var d := Stretches(cb, tasks, mem, p, addr, j) + Stretch(cb, tasks, mem, p, addr, j)[..o];
             && (j > 0 ==> |Primaries(cb, Stretches(cb, tasks, mem, p, addr, j))| < need)
             && |Primaries(cb, d)| <= need
             && (o > 0 ==> |Primaries(cb, ButLast(d))| < need)
             && (|Primaries(cb, d)| == need || (j == |tasks| && o == |Stretch(cb, tasks, mem, p, addr, j)|))
    ensures StopsIn(cb, tasks, mem, p, addr, need, j, o)
  {
    hide Primaries, Stretch, Stretches, Cycle;
    var s := Stretch(cb, tasks, mem, p, addr, j);
    var ss := Stretches(cb, tasks, mem, p, addr, j);
    var vs, d := Cycle(cb, tasks, mem, p, addr), ss + s[..o];
    CyclePrefix(cb, tasks, mem, p, addr, j, o);
    PrefixOf(vs, d);
    if o == 0 {
      assert d == ss;
      FewerBefore(cb, ss);
    }
  }

  lemma PrefixOf(vs: seq<Visit>, d: seq<Visit>)
    requires |d| <= |vs| && vs[..|d|] == d
    ensures |d| > 0 ==> vs[..|d| - 1] == ButLast(d)
  {
  }

  lemma FewerBefore(cb: Callback, d: seq<Visit>)
    ensures |Primaries(cb, ButLast(d))| <= |Primaries(cb, d)|
  {
  }
}
