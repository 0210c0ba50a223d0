/** Facts about page ranges and about what a walk may change in the page tables. */
module PageTableLemmas {
  import opened Ambix
  import opened PageTable

  // ---- Ranges ------------------------------------------------------------------------------

  lemma {:induction false} RangeMember(pid: int, table: seq<Pte>, lo: nat, hi: nat, k: nat)
    requires k < |Range(pid, table, lo, hi)|
    ensures Range(pid, table, lo, hi)[k].pid == pid
    ensures Range(pid, table, lo, hi)[k].pte in table
    ensures lo <= Range(pid, table, lo, hi)[k].pte.addr < hi
  {
    var n := |table| - 1;
    if k < |Range(pid, table[..n], lo, hi)| {
      RangeMember(pid, table[..n], lo, hi, k);
      assert Range(pid, table, lo, hi)[k] == Range(pid, table[..n], lo, hi)[k];
    }
  }

  /** The range of a prefix is a prefix, and the next entry in range is the next visit. */
  lemma {:induction false} RangePrefix(pid: int, table: seq<Pte>, i: nat, lo: nat, hi: nat)
    requires i <= |table|
    ensures Range(pid, table[..i], lo, hi) <= Range(pid, table, lo, hi)
    ensures i < |table| && lo <= table[i].addr < hi ==>
              var d := |Range(pid, table[..i], lo, hi)|;
              d < |Range(pid, table, lo, hi)| && Range(pid, table, lo, hi)[d] == Visit(pid, table[i])
  {
    if i == |table| {
      assert table[..i] == table;
    } else {
      var n := |table| - 1;
      assert table[..n][..i] == table[..i];
      RangePrefix(pid, table[..n], i, lo, hi);
    }
  }

  lemma RangeEmpty(pid: int, table: seq<Pte>, lo: nat, hi: nat)
    ensures Range(pid, table[..0], lo, hi) == []
  {
  }

  /** One more table entry: the visits of a range, as a loop over the table meets them. */
  lemma RangeStep(pid: int, table: seq<Pte>, i: nat, lo: nat, hi: nat, k: nat)
    requires i < |table| && k <= |Range(pid, table, lo, hi)|
    requires Range(pid, table[..i], lo, hi) == Range(pid, table, lo, hi)[..k]
    ensures var seg := Range(pid, table, lo, hi);
            if lo <= table[i].addr < hi
            then k < |seg| && seg[k] == Visit(pid, table[i]) && Range(pid, table[..i + 1], lo, hi) == seg[..k + 1]
            else Range(pid, table[..i + 1], lo, hi) == seg[..k]
  {
    RangePrefix(pid, table, i, lo, hi);
    assert table[..i + 1][..i] == table[..i];
  }

  lemma {:induction false} RangeAscending(pid: int, table: seq<Pte>, lo: nat, hi: nat)
    requires Ascending(table)
    ensures forall a, b :: 0 <= a < b < |Range(pid, table, lo, hi)| ==>
              Range(pid, table, lo, hi)[a].pte.addr < Range(pid, table, lo, hi)[b].pte.addr
  {
    if |table| > 0 {
      var n := |table| - 1;
      var r := Range(pid, table[..n], lo, hi);
      RangeAscending(pid, table[..n], lo, hi);
      forall a | 0 <= a < |r| ensures r[a].pte.addr < table[n].addr {
        RangeMember(pid, table[..n], lo, hi, a);
      }
    }
  }

  lemma RangeSnoc(pid: int, table: seq<Pte>, lo: nat, hi: nat)
    requires |table| > 0
    ensures var p := table[|table| - 1];
            Range(pid, table, lo, hi) ==
            Range(pid, table[..|table| - 1], lo, hi) + if lo <= p.addr < hi then [Visit(pid, p)] else []
  {
  }

  /** An address interval splits at any point in between. */
  lemma {:induction false} RangeSplit(pid: int, table: seq<Pte>, lo: nat, mid: nat, hi: nat)
    requires lo <= mid <= hi
    requires Ascending(table)
    ensures Range(pid, table, lo, hi) == Range(pid, table, lo, mid) + Range(pid, table, mid, hi)
  {
    if |table| > 0 {
      hide Range;
      var n := |table| - 1;
      var t := table[..n];
      RangeSplit(pid, t, lo, mid, hi);
      RangeSnoc(pid, table, lo, hi);
      RangeSnoc(pid, table, lo, mid);
      RangeSnoc(pid, table, mid, hi);
      var low, high := Range(pid, t, lo, mid), Range(pid, t, mid, hi);
      var last := if lo <= table[n].addr < hi then [Visit(pid, table[n])] else [];
      if table[n].addr < mid {
        if |high| > 0 {
          RangeMember(pid, t, mid, hi, 0);
          assert false;
        }
        assert low + last + [] == low + [] + last;
      } else {
        assert low + [] == low;
        Assoc(low, high, last);
      }
    }
  }

  // ---- Touching ----------------------------------------------------------------------------

  lemma {:induction false} TouchAllFrame(cb: Callback, mem: Memory, vs: seq<Visit>, pid: int)
    requires forall k :: 0 <= k < |vs| ==> vs[k].pid != pid
    ensures pid in TouchAll(cb, mem, vs) <==> pid in mem
    ensures pid in mem ==> TouchAll(cb, mem, vs)[pid] == mem[pid]
  {
    if |vs| > 0 {
      TouchAllFrame(cb, mem, vs[..|vs| - 1], pid);
    }
  }

  lemma {:induction false} TouchAllConcat(cb: Callback, mem: Memory, a: seq<Visit>, b: seq<Visit>)
    ensures TouchAll(cb, mem, a + b) == TouchAll(cb, TouchAll(cb, mem, a), b)
  {
    if |b| == 0 {
      assert a + b == a;
    } else {
      var n := |b| - 1;
      assert (a + b)[..|a + b| - 1] == a + b[..n];
      TouchAllConcat(cb, mem, a, b[..n]);
    }
  }

  /** Only visited pages change, and they change as `Touch` says, however often they are visited. */
  lemma {:induction false} TouchAllPointwise(cb: Callback, mem: Memory, vs: seq<Visit>)
    ensures TouchAll(cb, mem, vs).Keys == mem.Keys
    ensures forall pid :: pid in mem ==> |TouchAll(cb, mem, vs)[pid]| == |mem[pid]|
    ensures forall pid, i :: pid in mem && 0 <= i < |mem[pid]| ==>
              TouchAll(cb, mem, vs)[pid][i] ==
              if Touched(vs, pid, mem[pid][i].addr) then Touch(cb, mem[pid][i]) else mem[pid][i]
  {
    if |vs| > 0 {
      var n := |vs| - 1;
      var us := vs[..n];
      TouchAllPointwise(cb, mem, us);
      forall pid, i | pid in mem && 0 <= i < |mem[pid]|
        ensures TouchAll(cb, mem, vs)[pid][i] ==
                if Touched(vs, pid, mem[pid][i].addr) then Touch(cb, mem[pid][i]) else mem[pid][i]
      {
        var a := mem[pid][i].addr;
        TouchedSnoc(us, vs[n], pid, a);
        assert us + [vs[n]] == vs;
      }
    }
  }

  lemma TouchedSnoc(us: seq<Visit>, v: Visit, pid: int, addr: nat)
    ensures Touched(us + [v], pid, addr) <==> Touched(us, pid, addr) || (v.pid == pid && v.pte.addr == addr)
  {
    var vs := us + [v];
    if Touched(us, pid, addr) {
      var k :| 0 <= k < |us| && us[k].pid == pid && us[k].pte.addr == addr;
      assert vs[k] == us[k];
    }
    if v.pid == pid && v.pte.addr == addr {
      assert vs[|us|] == v;
    }
    if Touched(vs, pid, addr) {
      var k :| 0 <= k < |vs| && vs[k].pid == pid && vs[k].pte.addr == addr;
      assert k < |us| ==> us[k] == vs[k];
    }
  }

  /** No callback of either build ever ages a page, or changes anything but dirty bits. */
  lemma {:induction false} YoungSurvives(cb: Callback, mem: Memory, vs: seq<Visit>)
    ensures SamePages(mem, TouchAll(cb, mem, vs))
    ensures forall pid, i :: pid in mem && 0 <= i < |mem[pid]| && TouchAll(cb, mem, vs)[pid][i].dirty ==>
              mem[pid][i].dirty
  {
    TouchAllPointwise(cb, mem, vs);
  }

  lemma WellFormedPreserved(m1: Memory, m2: Memory)
    requires WellFormed(m1) && SamePages(m1, m2)
    ensures WellFormed(m2)
  {
    forall pid | pid in m2 ensures Ascending(m2[pid]) {
      assert Ascending(m1[pid]);
    }
  }

  /** Writing the one entry a callback was called on is touching its page. */
  lemma TouchOne(cb: Callback, mem0: Memory, mem: Memory, done: seq<Visit>, pid: int, k: nat)
    requires WellFormed(mem0) && mem == TouchAll(cb, mem0, done)
    requires pid in mem && k < |mem[pid]|
    ensures var p := mem[pid][k];
            var next := mem[pid := mem[pid][k := Touch(cb, p)]];
            next == TouchAll(cb, mem0, done + [Visit(pid, p)]) && SamePages(mem0, next) && WellFormed(next)
  {
    var p := mem[pid][k];
    var all := done + [Visit(pid, p)];
    assert all[..|all| - 1] == done;
    YoungSurvives(cb, mem0, done);
    WellFormedPreserved(mem0, mem);
    assert Ascending(mem[pid]);
    assert TouchTable(cb, mem[pid], p.addr) == mem[pid][k := Touch(cb, p)];
    YoungSurvives(cb, mem0, all);
    WellFormedPreserved(mem0, TouchAll(cb, mem0, all));
  }

  /** Walking a whole address space visits every page of it. */
  lemma {:induction false} RangeTouchesAll(pid: int, table: seq<Pte>, lo: nat, hi: nat, x: nat)
    requires x < |table| && lo <= table[x].addr < hi
    ensures Touched(Range(pid, table, lo, hi), pid, table[x].addr)
  {
    var n := |table| - 1;
    var us := Range(pid, table[..n], lo, hi);
    if x < n {
      RangeTouchesAll(pid, table[..n], lo, hi, x);
      if lo <= table[n].addr < hi {
        TouchedSnoc(us, Visit(pid, table[n]), pid, table[x].addr);
      } else {
        assert us + [] == us;
      }
    } else {
      TouchedSnoc(us, Visit(pid, table[n]), pid, table[x].addr);
    }
  }

  /** What walking all of one process with `cb` does to the page tables. */
  lemma WholeProcessTouched(cb: Callback, mem: Memory, pid: int)
    requires WellFormed(mem) && pid in mem
    ensures var next := TouchAll(cb, mem, Segment(mem, pid, 0, MAX_ADDRESS));
            && next.Keys == mem.Keys
            && (forall q :: q in mem ==> |next[q]| == |mem[q]|)
            && (forall q, i :: q in mem && 0 <= i < |mem[q]| ==>
                  next[q][i] == if q == pid then Touch(cb, mem[q][i]) else mem[q][i])
  {
    var seg := Segment(mem, pid, 0, MAX_ADDRESS);
    TouchAllPointwise(cb, mem, seg);
    assert Ascending(mem[pid]);
    forall q, i | q in mem && 0 <= i < |mem[q]|
      ensures Touched(seg, q, mem[q][i].addr) <==> q == pid
    {
      if q == pid {
        RangeTouchesAll(pid, mem[pid], 0, MAX_ADDRESS, i);
      } else if Touched(seg, q, mem[q][i].addr) {
        var k :| 0 <= k < |seg| && seg[k].pid == q && seg[k].pte.addr == mem[q][i].addr;
        RangeMember(pid, mem[pid], 0, MAX_ADDRESS, k);
      }
    }
  }
}
