/** What the module's answers to requests promise, in every state it can be in. */
module AnswerTheorems {
  import opened Ambix
  import opened PageTable
  import opened PageTableLemmas
  import opened Selection
  import opened ClockOrder
  import opened TaskTable
  import opened SwitchSpec
  import opened PlacementModule
  import opened Fairness

  /** The entry of the page at a hand. */
  function EntryAt(tasks: seq<int>, h: Hand): AddrInfo
    requires h.slot < |tasks|
  {
    AddrInfo(h.addr, tasks[h.slot])
  }

  /** The entry is that of the page at a hand which the walks of this mode started from. */
  predicate IsAtHand(mode: int, t: Table, e: AddrInfo)
    requires t.tasks != [] ==> t.dram.slot < |t.tasks| && t.nvram.slot < |t.tasks|
  {
    && t.tasks != []
    && ((e == EntryAt(t.tasks, t.dram) && (mode == DRAM_MODE || mode == SWITCH_MODE))
        || (e == EntryAt(t.tasks, t.nvram) && mode != DRAM_MODE))
  }

  lemma HandsInRange(kernel: Placement, v0: Table, alive: set<int>, t: Table)
    requires kernel.Valid() && kernel.Tasks() == t.tasks && Refreshed(v0, alive, t)
    ensures HandIn(t.dram, t.tasks) && HandIn(t.nvram, t.tasks) && Distinct(t.tasks)
  {
  }

  lemma HalvesCount(found: seq<AddrInfo>, nvs: seq<AddrInfo>, drs: seq<AddrInfo>, e: AddrInfo)
    requires Halves(found, nvs, drs) && e.pidRetval != 0
    ensures multiset(found)[e] == multiset(nvs)[e] + multiset(drs)[e]
  {
    var separator := [found[|nvs|]];
    assert found == nvs + separator + drs;
    assert e !in separator;
  }

  lemma WalkKeepsPages(cb: Callback, tasks: seq<int>, mem: Memory, h: Hand, need: nat, mem': Memory, h': Hand)
    requires h.slot < |tasks| && WalkLeaves(cb, tasks, mem, h, need, mem', h')
    ensures SamePages(mem, mem')
  {
    hide StopsAt, Processed, Stretch, Stretches, SamePages, TouchAll;
    var j, o :| StopsIn(cb, tasks, mem, h.slot, h.addr, need, j, o) &&
      mem' == TouchAll(cb, mem, Processed(cb, tasks, mem, h.slot, h.addr, j, o)) &&
      h' == HandAfter(cb, tasks, mem, h.slot, h.addr, j, o);
    YoungSurvives(cb, mem, Processed(cb, tasks, mem, h.slot, h.addr, j, o));
  }

  /** Whatever came before, no page is listed twice in an answer, in the two halves of a SWITCH together; only
      the page at the hand of a walk may be listed twice. */
  lemma {:induction false} AnswersAreUnique(kernel: Placement, req: Request, alive: set<int>, v0: Table, mem0: Memory,
                                            list: seq<AddrInfo>, ret: int, t: Table, mid: Memory, e: AddrInfo)
    requires kernel.Valid() && WellFormed(mem0) && req.opCode == FIND_OP && e.pidRetval > 0
    requires kernel.Answers(req, alive, v0, mem0, list, ret, t, mid)
    ensures HandIn(t.dram, t.tasks) && HandIn(t.nvram, t.tasks)
    ensures multiset(list)[e] <= if IsAtHand(req.mode, t, e) then 2 else 1
  {
    hide WalkLeaves, Cycle, Selected, Primaries, Backups, WellFormed, Distinct, Halves, HandRefreshed, Live;
    HandsInRange(kernel, v0, alive, t);
    if t.tasks != [] && IsListMode(req.mode) {
      var kind := Placement.KindOf(req.mode);
      DeliveredOnce(Callback(kernel.build, kind), IntMin(MAX_N_FIND, req.pidN), t.tasks, mem0,
                    if kind.Mem? then t.dram else t.nvram, e);
    } else if t.tasks != [] && req.mode == SWITCH_MODE {
      SwitchIsUnique(kernel.build, IntMin(MAX_N_SWITCH, req.pidN), mem0, t, mid, list, kernel.NvramHand(), e);
    }
  }

  lemma {:induction false} SwitchIsUnique(build: Build, n: nat, mem0: Memory, t: Table, mid: Memory,
                                          list: seq<AddrInfo>, hn': Hand, e: AddrInfo)
    requires t.tasks != [] && HandIn(t.dram, t.tasks) && HandIn(t.nvram, t.tasks) && Distinct(t.tasks)
    requires WellFormed(mem0) && e.pidRetval > 0
    requires WalkLeaves(Callback(build, NvramSwitch), t.tasks, mem0, t.nvram, n, mid, hn')
    requires var cn, cd := Callback(build, NvramSwitch), Callback(build, Mem);
             IsSwitchOf(list, n, cn, Cycle(cn, t.tasks, mem0, t.nvram.slot, t.nvram.addr),
                        cd, Cycle(cd, t.tasks, mid, t.dram.slot, t.dram.addr))
    ensures multiset(list)[e] <=
            if e == EntryAt(t.tasks, t.dram) || e == EntryAt(t.tasks, t.nvram) then 2 else 1
  {
    hide WalkLeaves, Cycle, Selected, Primaries, Backups, WellFormed, Distinct, Halves, SamePages;
    var cn, cd := Callback(build, NvramSwitch), Callback(build, Mem);
    var vn, vd := Cycle(cn, t.tasks, mem0, t.nvram.slot, t.nvram.addr),
        Cycle(cd, t.tasks, mid, t.dram.slot, t.dram.addr);
    var k := SwitchSize(n, |Primaries(cn, vn)|, |Backups(cn, vn)|, |Primaries(cd, vd)|, |Backups(cd, vd)|);
    var nvs, drs := Selected(cn, k, vn), Selected(cd, k, vd);
    WalkKeepsPages(cn, t.tasks, mem0, t.nvram, n, mid, hn');
    WellFormedPreserved(mem0, mid);
    HalvesCount(list, nvs, drs, e);
    DeliveredOnce(cn, k, t.tasks, mem0, t.nvram, e);
    DeliveredOnce(cd, k, t.tasks, mid, t.dram, e);
    if e in nvs && e in drs {
      SwitchHalvesDisjoint(build, t.tasks, mem0, t.nvram, mid, t.dram, k, e, e);
    }
  }

  /** It may: a walk that wants two idle DRAM pages and finds one, at its hand, lists it twice. */
  lemma HandPageListedTwice()
    ensures WellFormed(OneTask())
    ensures Selected(Callback(Hyb, Mem), 2, Cycle(Callback(Hyb, Mem), [1], OneTask(), 0, 4096)) ==
            [AddrInfo(4096, 1), AddrInfo(4096, 1)]
  {
    hide Cycle, Primaries, Backups;
    var cb := Callback(Hyb, Mem);
    var v := Visit(1, OneTask()[1][0]);
    CycleOfOnePage(cb, v);
    TwoVisits(cb, v);
    assert Take(2, [Entry(v), Entry(v)] + Backups(cb, [v, v])) == [Entry(v), Entry(v)];
  }

  /** One task with one idle DRAM page. */
  function OneTask(): Memory {
    map[1 := [Pte(4096, true, true, false, false, 0)]]
  }

  lemma {:induction false} CycleOfOnePage(cb: Callback, v: Visit)
    requires cb == Callback(Hyb, Mem) && v == Visit(1, OneTask()[1][0])
    ensures Cycle(cb, [1], OneTask(), 0, 4096) == [v, v]
  {
    hide Range, TouchAll;
    var mem := OneTask();
    OnePageOf(mem[1][0], 4096, MAX_ADDRESS);
    OnePageOf(mem[1][0], 0, 4097);
    NothingTouched(cb, v);
    assert Stretch(cb, [1], mem, 0, 4096, 0) == [v];
    assert Stretch(cb, [1], mem, 0, 4096, 1) == [v];
    assert Stretches(cb, [1], mem, 0, 4096, 0) == [];
    assert Stretches(cb, [1], mem, 0, 4096, 1) == [v];
  }

  lemma OnePageOf(page: Pte, lo: nat, hi: nat)
    requires lo <= page.addr < hi
    ensures Range(1, [page], lo, hi) == [Visit(1, page)]
  {
    assert [page][..0] == [];
    assert Range(1, [], lo, hi) == [];
  }

  lemma NothingTouched(cb: Callback, v: Visit)
    requires cb == Callback(Hyb, Mem) && v == Visit(1, OneTask()[1][0])
    ensures TouchAll(cb, OneTask(), [v]) == OneTask()
  {
    assert [v][..0] == [];
    assert TouchTable(cb, OneTask()[1], 4096) == OneTask()[1];
  }

  lemma TwoVisits(cb: Callback, v: Visit)
    requires Classify(cb, v.pte).Primary?
    ensures Primaries(cb, [v, v]) == [Entry(v), Entry(v)]
  {
    assert [v, v][..1] == [v] && [v][..0] == [];
    assert Primaries(cb, [v]) == [Entry(v)];
  }
}
