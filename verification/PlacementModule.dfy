/** The kernel module: managed tasks, clock hands, page walks, and the answers to requests. */
module PlacementModule {
  import opened Ambix
  import opened PageTable
  import opened PageTableLemmas
  import opened Selection
  import opened ClockOrder
  import opened TaskTable
  import opened SwitchSpec
  import opened Multipart

  /** The modes that ask for one list of pages. */
  predicate IsListMode(mode: int) {
    mode == DRAM_MODE || mode == NVRAM_MODE || mode == NVRAM_INTENSIVE_MODE || mode == NVRAM_WRITE_MODE
  }

  /** Page tables before and after every page of `pids` was given to the clear callback. */
  ghost predicate Cleared(build: Build, before: Memory, after: Memory, pids: seq<int>) {
    && after.Keys == before.Keys
    && (forall pid :: pid in before ==> |after[pid]| == |before[pid]|)
    && (forall pid, i :: pid in before && 0 <= i < |before[pid]| ==>
          after[pid][i] == if pid in pids then Touch(Callback(build, NvramClear), before[pid][i]) else before[pid][i])
  }

  lemma ClearedNothing(build: Build, mem: Memory)
    ensures Cleared(build, mem, mem, [])
  {
  }

  lemma ClearedOneMore(build: Build, mem0: Memory, mem1: Memory, mem2: Memory, pids: seq<int>, pid: int)
    requires Cleared(build, mem0, mem1, pids) && Cleared(build, mem1, mem2, [pid]) && pid !in pids
    ensures Cleared(build, mem0, mem2, pids + [pid])
  {
    hide Touch;
  }

  class Placement {
    const build: Build

    const taskItems: array<int>
    const foundAddrs: array<AddrInfo>
    const backupAddrs: array<AddrInfo>
    const switchBackupAddrs: array<AddrInfo>

    var nPids: nat
    var lastAddrDram: nat
    var lastAddrNvram: nat
    var lastPidDram: nat
    var lastPidNvram: nat

    var currPid: int
    var nToFind: nat
    var nFound: nat
    var nBackup: nat
    var nSwitchBackup: nat

    /** The page tables of the machine, which callbacks write through their pte pointer. */
    var mem: Memory

    /** Module initialisation: no tasks, both hands at the start, buffers with whatever they contain. */
    constructor (build: Build, mem: Memory)
      requires WellFormed(mem)
      ensures Valid() && Tasks() == [] && this.build == build && this.mem == mem
      ensures fresh(taskItems) && fresh(foundAddrs) && fresh(backupAddrs) && fresh(switchBackupAddrs)
    {
      this.build, this.mem := build, mem;
      taskItems := new int[MAX_PIDS];
      foundAddrs := new AddrInfo[MAX_N_FIND + 1];
      backupAddrs := new AddrInfo[MAX_N_FIND];
      switchBackupAddrs := new AddrInfo[MAX_N_SWITCH];
      nPids, lastAddrDram, lastAddrNvram, lastPidDram, lastPidNvram := 0, 0, 0, 0, 0;
      currPid, nToFind, nFound, nBackup, nSwitchBackup := 0, 0, 0, 0, 0;
    }

    // ---- Views and invariants --------------------------------------------------------------

    ghost predicate Buffers() {
      && taskItems.Length == MAX_PIDS
      && foundAddrs.Length == MAX_N_FIND + 1
      && backupAddrs.Length == MAX_N_FIND
      && switchBackupAddrs.Length == MAX_N_SWITCH
      && foundAddrs != backupAddrs
      && foundAddrs != switchBackupAddrs
      && backupAddrs != switchBackupAddrs
    }

    /** The counters are within the buffers. */
    ghost predicate Counters()
      reads `nFound, `nToFind, `nBackup, `nSwitchBackup
    {
      && Buffers()
      && nFound <= nToFind <= MAX_N_FIND
      && nBackup <= MAX_N_FIND
      && nSwitchBackup <= MAX_N_SWITCH
    }

    /** A walk with `cb` may start: the reserve it fills has room for everything that is missing. */
    ghost predicate Ready(cb: Callback)
      reads `nFound, `nToFind, `nBackup, `nSwitchBackup
    {
      && Counters()
      && (cb.kind.NvramSwitch? ==> nToFind - nFound <= MAX_N_SWITCH)
    }

    ghost function Found(): (r: seq<AddrInfo>)
      reads `nFound, foundAddrs
      requires nFound <= foundAddrs.Length
      ensures |r| == nFound
    {
      foundAddrs[..nFound]
    }

    /** The reserve list that `cb` fills; the clear callback fills none. */
    ghost function Kept(cb: Callback): seq<AddrInfo>
      reads `nBackup, `nSwitchBackup, backupAddrs, switchBackupAddrs
      requires nBackup <= backupAddrs.Length && nSwitchBackup <= switchBackupAddrs.Length
    {
      if cb.kind.NvramSwitch? then switchBackupAddrs[..nSwitchBackup]
      else if cb.kind.NvramClear? then []
      else backupAddrs[..nBackup]
    }

    /** The managed tasks, by pid, in table order. */
    ghost function Tasks(): (r: seq<int>)
      reads `nPids, taskItems
      requires nPids <= taskItems.Length
      ensures |r| == nPids
    {
      taskItems[..nPids]
    }

    /** The address of the clock hand that `cb` moves. */
    ghost function HandAddr(cb: Callback): nat
      reads `lastAddrDram, `lastAddrNvram
    {
      if cb.kind.Mem? then lastAddrDram else lastAddrNvram
    }

    /** What a walk with `cb` leaves alone: the other hand, and the reserves it does not fill. */
    ghost function Rest(cb: Callback): (r: (nat, nat, seq<AddrInfo>, nat, seq<AddrInfo>))
      reads `lastAddrDram, `lastAddrNvram, `nBackup, `nSwitchBackup, backupAddrs, switchBackupAddrs
      ensures r.0 == if cb.kind.Mem? then lastAddrNvram else lastAddrDram
      ensures cb.kind.Mem? ==> r.3 == nSwitchBackup && r.4 == switchBackupAddrs[..]
    {
      var hand := if cb.kind.Mem? then lastAddrNvram else lastAddrDram;
      var backup := if cb.kind.NvramSwitch? || cb.kind.NvramClear? then (nBackup, backupAddrs[..]) else (0, []);
      var switch := if !cb.kind.NvramSwitch? then (nSwitchBackup, switchBackupAddrs[..]) else (0, []);
      (hand, backup.0, backup.1, switch.0, switch.1)
    }

    // ---- Appending to the lists -------------------------------------------------------------

    method PushFound(addr: nat)
      requires Buffers() && nFound < foundAddrs.Length
      modifies `nFound, foundAddrs
      ensures nFound == old(nFound) + 1
      ensures Found() == old(Found()) + [AddrInfo(addr, currPid)]
    {
      foundAddrs[nFound] := AddrInfo(addr, currPid);
      nFound := nFound + 1;
    }

    method PushBackup(addr: nat)
      requires Buffers() && nBackup < backupAddrs.Length
      modifies `nBackup, backupAddrs
      ensures nBackup == old(nBackup) + 1
      ensures backupAddrs[..nBackup] == old(backupAddrs[..nBackup]) + [AddrInfo(addr, currPid)]
    {
      backupAddrs[nBackup] := AddrInfo(addr, currPid);
      nBackup := nBackup + 1;
    }

    method PushSwitchBackup(addr: nat)
      requires Buffers() && nSwitchBackup < switchBackupAddrs.Length
      modifies `nSwitchBackup, switchBackupAddrs
      ensures nSwitchBackup == old(nSwitchBackup) + 1
      ensures switchBackupAddrs[..nSwitchBackup] == old(switchBackupAddrs[..nSwitchBackup]) + [AddrInfo(addr, currPid)]
    {
      switchBackupAddrs[nSwitchBackup] := AddrInfo(addr, currPid);
      nSwitchBackup := nSwitchBackup + 1;
    }

    // ---- Callbacks -------------------------------------------------------------------------

    /** The effect every callback has on the lists and the page table when it is called on entry `k`
        of the current process: stop with the hand on that page when the quota is met, otherwise
        file the entry by its class and clean it. */
    twostate predicate Called(cb: Callback, k: nat, ret: int)
      reads this, foundAddrs, backupAddrs, switchBackupAddrs
      requires old(Ready(cb)) && old(currPid in mem && k < |mem[currPid]|)
    {
      var p := old(mem[currPid][k]);
      var v := Visit(old(currPid), p);
      && Ready(cb) && Rest(cb) == old(Rest(cb))
      && if !cb.kind.NvramClear? && old(nFound) == nToFind then
           ret == 1 && HandAddr(cb) == p.addr && mem == old(mem)
           && Found() == old(Found()) && Kept(cb) == old(Kept(cb))
         else
           && ret == 0 && HandAddr(cb) == old(HandAddr(cb))
           && mem == old(mem)[old(currPid) := old(mem[currPid])[k := Touch(cb, p)]]
           && Found() == old(Found()) + (if Classify(cb, p).Primary? then [Entry(v)] else [])
           && Kept(cb) == old(Kept(cb)) +
                (if Classify(cb, p).Backup? && old(|Kept(cb)| < nToFind - nFound) then [Entry(v)] else [])
    }

    method PteCallbackMem(k: nat) returns (ret: int)
      requires Ready(Callback(build, Mem)) && currPid in mem && k < |mem[currPid]|
      modifies `nFound, `nBackup, `mem, `lastAddrDram, foundAddrs, backupAddrs
      ensures Called(Callback(build, Mem), k, ret)
    {
      hide Found;
      var pte := mem[currPid][k];
      if nFound == nToFind {
        lastAddrDram := pte.addr;
        return 1;
      }
      var onTier := Contains(pte.node, DRAM_MODE);
      if !pte.present || !pte.write || !onTier {
        assert mem[currPid][k := pte] == mem[currPid];
        return 0;
      }
      if !pte.young {
        PushFound(pte.addr);
        assert mem[currPid][k := pte] == mem[currPid];
        return 0;
      }
      if (if build.Hyb? then !pte.dirty else pte.dirty) && nBackup < nToFind - nFound {
        PushBackup(pte.addr);
      }
      mem := mem[currPid := mem[currPid][k := pte.(dirty := false)]];
      return 0;
    }

    method PteCallbackNvramForce(k: nat) returns (ret: int)
      requires Ready(Callback(build, NvramForce)) && currPid in mem && k < |mem[currPid]|
      modifies `nFound, `nBackup, `mem, `lastAddrNvram, foundAddrs, backupAddrs
      ensures Called(Callback(build, NvramForce), k, ret)
    {
      hide Found;
      var pte := mem[currPid][k];
      if nFound == nToFind {
        lastAddrNvram := pte.addr;
        return 1;
      }
      var onTier := Contains(pte.node, NVRAM_MODE);
      if !pte.present || !pte.write || !onTier {
        assert mem[currPid][k := pte] == mem[currPid];
        return 0;
      }
      if pte.young && pte.dirty {
        PushFound(pte.addr);
        assert mem[currPid][k := pte] == mem[currPid];
        return 0;
      }
      if nBackup < nToFind - nFound {
        PushBackup(pte.addr);
      }
      mem := mem[currPid := mem[currPid][k := pte.(dirty := false)]];
      return 0;
    }

    method PteCallbackNvramWrite(k: nat) returns (ret: int)
      requires Ready(Callback(build, NvramWrite)) && currPid in mem && k < |mem[currPid]|
      modifies `nFound, `nBackup, `lastAddrNvram, foundAddrs, backupAddrs
      ensures Called(Callback(build, NvramWrite), k, ret)
    {
      hide Found;
      var pte := mem[currPid][k];
      if nFound == nToFind {
        lastAddrNvram := pte.addr;
        return 1;
      }
      assert mem[currPid][k := pte] == mem[currPid];
      var onTier := Contains(pte.node, NVRAM_MODE);
      if !pte.present || !pte.write || !onTier {
        return 0;
      }
      if pte.dirty {
        if pte.young {
          PushFound(pte.addr);
        } else if nBackup < nToFind - nFound {
          PushBackup(pte.addr);
        }
      }
      return 0;
    }

    method PteCallbackNvramIntensive(k: nat) returns (ret: int)
      requires Ready(Callback(build, NvramIntensive)) && currPid in mem && k < |mem[currPid]|
      modifies `nFound, `nBackup, `mem, `lastAddrNvram, foundAddrs, backupAddrs
      ensures Called(Callback(build, NvramIntensive), k, ret)
    {
      hide Found;
      var pte := mem[currPid][k];
      if nFound == nToFind {
        lastAddrNvram := pte.addr;
        return 1;
      }
      assert mem[currPid][k := pte] == mem[currPid];
      var onTier := Contains(pte.node, NVRAM_MODE);
      if !pte.present || !pte.write || !onTier {
        return 0;
      }
      if pte.young {
        if if build.Hyb? then pte.dirty else !pte.dirty {
          PushFound(pte.addr);
          return 0;
        }
        if nBackup < nToFind - nFound {
          PushBackup(pte.addr);
        }
      }
      if build.MixM? {
        mem := mem[currPid := mem[currPid][k := pte.(dirty := false)]];
      }
      return 0;
    }

    method PteCallbackNvramSwitch(k: nat) returns (ret: int)
      requires Ready(Callback(build, NvramSwitch)) && currPid in mem && k < |mem[currPid]|
      modifies `nFound, `nSwitchBackup, `mem, `lastAddrNvram, foundAddrs, switchBackupAddrs
      ensures Called(Callback(build, NvramSwitch), k, ret)
    {
      hide Found;
      var pte := mem[currPid][k];
      if nFound == nToFind {
        lastAddrNvram := pte.addr;
        return 1;
      }
      assert mem[currPid][k := pte] == mem[currPid];
      var onTier := Contains(pte.node, NVRAM_MODE);
      if !pte.present || !pte.write || !onTier {
        return 0;
      }
      if pte.young {
        if if build.Hyb? then pte.dirty else !pte.dirty {
          PushFound(pte.addr);
        } else if nSwitchBackup < nToFind - nFound {
          PushSwitchBackup(pte.addr);
        }
      }
      if build.MixM? {
        mem := mem[currPid := mem[currPid][k := pte.(dirty := false)]];
      }
      return 0;
    }

    method PteCallbackNvramClear(k: nat) returns (ret: int)
      requires Ready(Callback(build, NvramClear)) && currPid in mem && k < |mem[currPid]|
      modifies `mem
      ensures Called(Callback(build, NvramClear), k, ret)
    {
      var pte := mem[currPid][k];
      assert mem[currPid][k := pte] == mem[currPid];
      var onTier := Contains(pte.node, NVRAM_MODE);
      if !pte.present || !pte.write || !onTier {
        return 0;
      }
      mem := mem[currPid := mem[currPid][k := pte.(dirty := false)]];
      return 0;
    }

    /** The call through `mm_walk_ops.pte_entry`. */
    method PteEntry(kind: Kind, k: nat) returns (ret: int)
      requires Ready(Callback(build, kind)) && currPid in mem && k < |mem[currPid]|
      modifies `nFound, `nBackup, `nSwitchBackup, `mem, `lastAddrDram, `lastAddrNvram
      modifies foundAddrs, backupAddrs, switchBackupAddrs
      ensures Called(Callback(build, kind), k, ret)
    {
      match kind {
        case Mem => ret := PteCallbackMem(k);
        case NvramForce => ret := PteCallbackNvramForce(k);
        case NvramWrite => ret := PteCallbackNvramWrite(k);
        case NvramIntensive => ret := PteCallbackNvramIntensive(k);
        case NvramSwitch => ret := PteCallbackNvramSwitch(k);
        case NvramClear => ret := PteCallbackNvramClear(k);
      }
    }

    // ---- Walks -----------------------------------------------------------------------------

    /** A walk with `cb` that began with list `base` and page tables `mem0`, and wants `need` more
        entries, has called the callback on exactly the pages of `done`. */
    ghost predicate Progress(cb: Callback, base: seq<AddrInfo>, mem0: Memory, need: nat, done: seq<Visit>)
      reads `nFound, `nToFind, `nBackup, `nSwitchBackup, `mem, foundAddrs, backupAddrs, switchBackupAddrs
    {
      && Ready(cb) && nToFind == |base| + need
      && mem == TouchAll(cb, mem0, done)
      && Found() == base + Primaries(cb, done)
      && Kept(cb) == Reserve(cb, need, done)
    }

    /** One call of the callback from within a walk. */
    method WalkEntry(kind: Kind, k: nat, ghost base: seq<AddrInfo>, ghost mem0: Memory, ghost need: nat,
                     ghost done: seq<Visit>)
      returns (ret: int)
      requires Progress(Callback(build, kind), base, mem0, need, done) && WellFormed(mem0)
      requires currPid in mem && k < |mem[currPid]|
      modifies `nFound, `nBackup, `nSwitchBackup, `mem, `lastAddrDram, `lastAddrNvram
      modifies foundAddrs, backupAddrs, switchBackupAddrs
      ensures Rest(Callback(build, kind)) == old(Rest(Callback(build, kind)))
      ensures currPid in mem && |mem[currPid]| == old(|mem[currPid]|)
      ensures forall j :: k < j < |mem[currPid]| ==> mem[currPid][j] == old(mem[currPid])[j]
      ensures HandAddr(Callback(build, kind)) ==
              if ret != 0 then old(mem[currPid][k].addr) else old(HandAddr(Callback(build, kind)))
      ensures ret != 0 ==>
                && !kind.NvramClear? && nFound == nToFind && mem == old(mem)
                && Progress(Callback(build, kind), base, mem0, need, done)
      ensures ret == 0 ==>
                && (!kind.NvramClear? ==> |Primaries(Callback(build, kind), done)| < need)
                && Progress(Callback(build, kind), base, mem0, need, done + [Visit(currPid, old(mem[currPid][k]))])
    {
      hide Primaries, Reserve, TouchAll, Classify, Touch, Rest, Kept, Found;
      ghost var cb := Callback(build, kind);
      ghost var v := Visit(currPid, mem[currPid][k]);
      TouchOne(cb, mem0, mem, done, currPid, k);
      AddVisit(cb, need, done, v);
      ret := PteEntry(kind, k);
      assert mem == TouchAll(cb, mem0, if ret == 0 then done + [v] else done);
    }

    /** `walk_page_range`: calls the callback on every entry of the current process in [lo, hi),
        in address order, until one call returns nonzero. */
    method WalkPageRange(kind: Kind, lo: nat, hi: nat, ghost base: seq<AddrInfo>, ghost mem0: Memory,
                         ghost need: nat, ghost done: seq<Visit>)
      returns (ret: int, ghost k: nat)
      requires Progress(Callback(build, kind), base, mem0, need, done) && WellFormed(mem0)
      requires currPid in mem
      modifies `nFound, `nBackup, `nSwitchBackup, `mem, `lastAddrDram, `lastAddrNvram
      modifies foundAddrs, backupAddrs, switchBackupAddrs
      ensures Rest(Callback(build, kind)) == old(Rest(Callback(build, kind)))
      ensures k <= |Segment(old(mem), currPid, lo, hi)|
      ensures Progress(Callback(build, kind), base, mem0, need, done + Segment(old(mem), currPid, lo, hi)[..k])
      ensures ret != 0 <==> k < |Segment(old(mem), currPid, lo, hi)|
      ensures ret != 0 ==> !kind.NvramClear? && nFound == nToFind
      ensures HandAddr(Callback(build, kind)) ==
              if ret != 0 then Segment(old(mem), currPid, lo, hi)[k].pte.addr else old(HandAddr(Callback(build, kind)))
      ensures !kind.NvramClear? && k > 0 ==>
                |Primaries(Callback(build, kind), ButLast(done + Segment(old(mem), currPid, lo, hi)[..k]))| < need
    {
      hide Progress, Rest, HandAddr, Primaries, Reserve, TouchAll, Range;
      ghost var cb := Callback(build, kind);
      ghost var table := mem[currPid];
      ghost var seg := Segment(mem, currPid, lo, hi);
      ghost var visited := done;
      k := 0;
      ret := 0;
      var i := 0;
      RangeEmpty(currPid, table, lo, hi);
      while ret == 0 && i < |mem[currPid]|
        invariant currPid in mem && i <= |mem[currPid]| == |table|
        invariant forall j :: i <= j < |table| ==> mem[currPid][j] == table[j]
        invariant k <= |seg| && visited == done + seg[..k]
        invariant Progress(cb, base, mem0, need, visited)
        invariant Rest(cb) == old(Rest(cb))
        invariant ret == 0 ==> Range(currPid, table[..i], lo, hi) == seg[..k] && HandAddr(cb) == old(HandAddr(cb))
        invariant ret != 0 ==> k < |seg| && !kind.NvramClear? && nFound == nToFind && HandAddr(cb) == seg[k].pte.addr
        invariant !kind.NvramClear? && k > 0 ==> |Primaries(cb, ButLast(visited))| < need
        decreases ret == 0, |table| - i
      {
        RangeStep(currPid, table, i, lo, hi, k);
        if lo <= mem[currPid][i].addr < hi {
          ret := WalkEntry(kind, i, base, mem0, need, visited);
          if ret == 0 {
            visited := visited + [seg[k]];
            k := k + 1;
          }
        }
        i := i + 1;
      }
      assert ret == 0 ==> table[..i] == table;
    }

    /** What the progress of a walk says about the counters. */
    lemma ProgressCounts(cb: Callback, base: seq<AddrInfo>, mem0: Memory, need: nat, done: seq<Visit>)
      requires Progress(cb, base, mem0, need, done)
      ensures Ready(cb)
      ensures nToFind == |base| + need && nFound == |base| + |Primaries(cb, done)| <= nToFind
      ensures mem == TouchAll(cb, mem0, done)
    {
    }

    /** The walk over the current process, which is left out when it has no `mm`. */
    method WalkProcess(kind: Kind, lo: nat, hi: nat, ghost base: seq<AddrInfo>, ghost mem0: Memory, ghost need: nat,
                       ghost done: seq<Visit>)
      returns (ghost o: nat)
      requires !kind.NvramClear? && Progress(Callback(build, kind), base, mem0, need, done) && WellFormed(mem0)
      modifies `nFound, `nBackup, `nSwitchBackup, `mem, `lastAddrDram, `lastAddrNvram
      modifies foundAddrs, backupAddrs, switchBackupAddrs
      ensures Rest(Callback(build, kind)) == old(Rest(Callback(build, kind)))
      ensures o <= |Segment(old(mem), currPid, lo, hi)|
      ensures Progress(Callback(build, kind), base, mem0, need, done + Segment(old(mem), currPid, lo, hi)[..o])
      ensures o < |Segment(old(mem), currPid, lo, hi)| ==> nFound == nToFind
      ensures HandAddr(Callback(build, kind)) ==
              if o < |Segment(old(mem), currPid, lo, hi)| then Segment(old(mem), currPid, lo, hi)[o].pte.addr
              else old(HandAddr(Callback(build, kind)))
      ensures o > 0 ==>
                |Primaries(Callback(build, kind), ButLast(done + Segment(old(mem), currPid, lo, hi)[..o]))| < need
    {
      hide Progress, Rest, HandAddr, Primaries, Range;
      if currPid in mem {
        var ret;
        ret, o := WalkPageRange(kind, lo, hi, base, mem0, need, done);
      } else {
        o := 0;
        assert done + [][..o] == done;
      }
    }

    /** One stretch of a page walk: set the current pid and walk its pages, if it has an `mm`. */
    method WalkStretch(kind: Kind, slot: nat, lo: nat, hi: nat, ghost base: seq<AddrInfo>, ghost mem0: Memory,
                       ghost need: nat, ghost p: nat, ghost addr: nat, ghost j: nat)
      returns (ghost o: nat)
      requires !kind.NvramClear? && WellFormed(mem0)
      requires nPids <= taskItems.Length && p < nPids && j <= nPids && Distinct(Tasks())
      requires slot == SlotAfter(p, j, nPids)
      requires lo == (if j == 0 then addr else 0) && hi == (if j == nPids then addr + 1 else MAX_ADDRESS)
      requires Progress(Callback(build, kind), base, mem0, need,
                        Stretches(Callback(build, kind), Tasks(), mem0, p, addr, j))
      requires j > 0 ==> nFound < nToFind
      modifies `currPid, `nFound, `nBackup, `nSwitchBackup, `mem, `lastAddrDram, `lastAddrNvram
      modifies foundAddrs, backupAddrs, switchBackupAddrs
      ensures Rest(Callback(build, kind)) == old(Rest(Callback(build, kind)))
      ensures o <= |Stretch(Callback(build, kind), Tasks(), mem0, p, addr, j)|
      ensures Progress(Callback(build, kind), base, mem0, need,
                       Stretches(Callback(build, kind), Tasks(), mem0, p, addr, j) +
                       Stretch(Callback(build, kind), Tasks(), mem0, p, addr, j)[..o])
      ensures o < |Stretch(Callback(build, kind), Tasks(), mem0, p, addr, j)| ==> nFound == nToFind
      ensures HandAddr(Callback(build, kind)) ==
              if o < |Stretch(Callback(build, kind), Tasks(), mem0, p, addr, j)|
              then Stretch(Callback(build, kind), Tasks(), mem0, p, addr, j)[o].pte.addr
              else old(HandAddr(Callback(build, kind)))
      ensures nFound >= nToFind || j == nPids ==> StopsIn(Callback(build, kind), Tasks(), mem0, p, addr, need, j, o)
      ensures nFound < nToFind ==>
                Progress(Callback(build, kind), base, mem0, need,
                         Stretches(Callback(build, kind), Tasks(), mem0, p, addr, j + 1))
    {
      hide Progress, Rest, HandAddr, Primaries, Reserve, TouchAll, Range, Stretch, Stretches, StopsIn, Tasks, Segment,
        Distinct, WellFormed;
      ghost var cb := Callback(build, kind);
      ghost var done := Stretches(cb, Tasks(), mem0, p, addr, j);
      ghost var s := Stretch(cb, Tasks(), mem0, p, addr, j);
      ProgressCounts(cb, base, mem0, need, done);
      StretchIsCurrent(cb, Tasks(), mem0, p, addr, j);
      TaskAt(slot);
      currPid := taskItems[slot];
      assert Segment(mem, currPid, lo, hi) == s;
      o := WalkProcess(kind, lo, hi, base, mem0, need, done);
      ProgressCounts(cb, base, mem0, need, done + s[..o]);
      if o == |s| {
        assert s[..o] == s;
        StretchesNext(cb, Tasks(), mem0, p, addr, j);
      }
      if nFound >= nToFind || j == nPids {
        StopHere(cb, Tasks(), mem0, p, addr, need, j, o);
      }
    }

    lemma TaskAt(i: nat)
      requires i < nPids <= taskItems.Length
      ensures taskItems[i] == Tasks()[i]
    {
    }

    /** `do_page_walk`: from the hand to the end of its process, through the other processes in cyclic
        order, and back to the hand; `j` and `o` tell where it stopped. */
    method DoPageWalk(kind: Kind, lastPid: nat, lastAddr: nat) returns (p: nat, ghost j: nat, ghost o: nat)
      requires !kind.NvramClear? && Ready(Callback(build, kind)) && WellFormed(mem)
      requires lastPid < nPids <= taskItems.Length && Distinct(Tasks())
      requires lastAddr == HandAddr(Callback(build, kind)) && Kept(Callback(build, kind)) == []
      modifies `currPid, `nFound, `nBackup, `nSwitchBackup, `mem, `lastAddrDram, `lastAddrNvram
      modifies foundAddrs, backupAddrs, switchBackupAddrs
      ensures Rest(Callback(build, kind)) == old(Rest(Callback(build, kind)))
      ensures StopsIn(Callback(build, kind), Tasks(), old(mem), lastPid, lastAddr, nToFind - old(nFound), j, o)
      ensures Hand(p, HandAddr(Callback(build, kind))) ==
              HandAfter(Callback(build, kind), Tasks(), old(mem), lastPid, lastAddr, j, o)
      ensures Progress(Callback(build, kind), old(Found()), old(mem), nToFind - old(nFound),
                       Processed(Callback(build, kind), Tasks(), old(mem), lastPid, lastAddr, j, o))
    {
      hide Progress, Rest, HandAddr, Primaries, Reserve, TouchAll, Range, Stretch, Stretches, StopsIn, Kept;
      ghost var cb := Callback(build, kind);
      ghost var base := Found();
      ghost var mem0 := mem;
      ghost var need := nToFind - nFound;
      ghost var tasks := Tasks();
      WalkBegins(cb, lastPid, lastAddr);

      j := 0;
      o := WalkStretch(kind, lastPid, lastAddr, MAX_ADDRESS, base, mem0, need, lastPid, lastAddr, j);
      if nFound >= nToFind {
        return lastPid, j, o;
      }
      var i := lastPid + 1;
      while i < nPids
        invariant lastPid < i <= nPids && j == i - lastPid - 1
        invariant Tasks() == tasks
        invariant Rest(cb) == old(Rest(cb)) && HandAddr(cb) == lastAddr && nFound < nToFind
        invariant Progress(cb, base, mem0, need, Stretches(cb, Tasks(), mem0, lastPid, lastAddr, j + 1))
      {
        j := j + 1;
        o := WalkStretch(kind, i, 0, MAX_ADDRESS, base, mem0, need, lastPid, lastAddr, j);
        if nFound >= nToFind {
          return i, j, o;
        }
        i := i + 1;
      }
      i := 0;
      while i < lastPid
        invariant 0 <= i <= lastPid && j == nPids - lastPid + i - 1
        invariant Tasks() == tasks
        invariant Rest(cb) == old(Rest(cb)) && HandAddr(cb) == lastAddr && nFound < nToFind
        invariant Progress(cb, base, mem0, need, Stretches(cb, Tasks(), mem0, lastPid, lastAddr, j + 1))
      {
        j := j + 1;
        o := WalkStretch(kind, i, 0, MAX_ADDRESS, base, mem0, need, lastPid, lastAddr, j);
        if nFound >= nToFind {
          return i, j, o;
        }
        i := i + 1;
      }
      j := j + 1;
      o := WalkStretch(kind, lastPid, 0, lastAddr + 1, base, mem0, need, lastPid, lastAddr, j);
      return lastPid, j, o;
    }

    lemma WalkBegins(cb: Callback, p: nat, addr: nat)
      requires Ready(cb) && Kept(cb) == [] && p < nPids <= taskItems.Length
      ensures Progress(cb, Found(), mem, nToFind - nFound, Stretches(cb, Tasks(), mem, p, addr, 0))
    {
    }

    // ---- The task table --------------------------------------------------------------------

    ghost function DramHand(): Hand
      reads `lastPidDram, `lastAddrDram
    {
      Hand(lastPidDram, lastAddrDram)
    }

    ghost function NvramHand(): Hand
      reads `lastPidNvram, `lastAddrNvram
    {
      Hand(lastPidNvram, lastAddrNvram)
    }

    /** Managed pids are positive and distinct, and both hands designate a slot in use. */
    ghost predicate TableOk()
      reads `nPids, taskItems, `lastPidDram, `lastAddrDram, `lastPidNvram, `lastAddrNvram
    {
      && Buffers()
      && nPids <= MAX_PIDS
      && Distinct(Tasks())
      && (forall t :: t in Tasks() ==> 0 < t <= MAX_PID_N)
      && HandIn(DramHand(), Tasks())
      && HandIn(NvramHand(), Tasks())
    }

    /** `update_pid_list`: adjusts both hands, then shifts the later entries left. */
    method UpdatePidList(i: nat)
      requires TableOk() && i < nPids
      modifies `nPids, `lastPidDram, `lastAddrDram, `lastPidNvram, `lastAddrNvram, taskItems
      ensures TableOk() && nPids == old(nPids) - 1
      ensures Tasks() == RemoveAt(old(Tasks()), i)
      ensures DramHand() == HandAfterRemoval(old(DramHand()), i, old(nPids))
      ensures NvramHand() == HandAfterRemoval(old(NvramHand()), i, old(nPids))
    {
      hide Distinct, HandIn, RemoveAt, Rotate;
      ghost var tasks := Tasks();
      DistinctAfterRemoval(tasks, i);
      HandsIn(tasks, i);
      if lastPidDram > i {
        lastPidDram := lastPidDram - 1;
      } else if lastPidDram == i {
        lastAddrDram := 0;
        if lastPidDram == nPids - 1 {
          lastPidDram := 0;
        }
      }
      if lastPidNvram > i {
        lastPidNvram := lastPidNvram - 1;
      } else if lastPidNvram == i {
        lastAddrNvram := 0;
        if lastPidNvram == nPids - 1 {
          lastPidNvram := 0;
        }
      }
      ShiftTasksLeft(i);
      nPids := nPids - 1;
      assert Tasks() == RemoveAt(tasks, i);
    }

    lemma HandsIn(tasks: seq<int>, i: nat)
      requires TableOk() && tasks == Tasks() && i < nPids
      ensures HandIn(HandAfterRemoval(DramHand(), i, nPids), RemoveAt(tasks, i))
      ensures HandIn(HandAfterRemoval(NvramHand(), i, nPids), RemoveAt(tasks, i))
    {
      RemovalFromHand(tasks, DramHand(), i);
      RemovalFromHand(tasks, NvramHand(), i);
    }

    method ShiftTasksLeft(i: nat)
      requires Buffers() && i < nPids <= MAX_PIDS
      modifies taskItems
      ensures taskItems[..nPids - 1] == RemoveAt(old(taskItems[..nPids]), i)
    {
      var j := i;
      while j < nPids - 1
        invariant i <= j <= nPids - 1
        invariant forall x :: 0 <= x < i || j <= x < nPids ==> taskItems[x] == old(taskItems[x])
        invariant forall x :: i <= x < j ==> taskItems[x] == old(taskItems[x + 1])
      {
        taskItems[j] := taskItems[j + 1];
        j := j + 1;
      }
    }

    /** `refresh_pids`: drops every task whose process is gone. `alive` says which pids
        `find_get_pid` still finds; `kept` is the same set without pids that were unbound just before,
        and `tasks0`, `dram0`, `nvram0` are the table and hands before that. */
    method RefreshPids(alive: set<int>, ghost kept: set<int>, ghost tasks0: seq<int>,
                       ghost dram0: Hand, ghost nvram0: Hand)
      requires TableOk()
      requires forall t :: t in Tasks() ==> (t in alive <==> t in kept)
      requires Live(Tasks(), kept) == Live(tasks0, kept)
      requires HandTracks(tasks0, dram0, kept, Tasks(), DramHand())
      requires HandTracks(tasks0, nvram0, kept, Tasks(), NvramHand())
      modifies `nPids, `lastPidDram, `lastAddrDram, `lastPidNvram, `lastAddrNvram, taskItems
      ensures TableOk()
      ensures Tasks() == Live(tasks0, kept)
      ensures HandRefreshed(tasks0, dram0, kept, Tasks(), DramHand())
      ensures HandRefreshed(tasks0, nvram0, kept, Tasks(), NvramHand())
    {
      hide HandTracks, HandRefreshed, HandAfterRemoval, HandIn, Live;
      var i: int := 0;
      while i < nPids
        invariant 0 <= i <= nPids && TableOk()
        invariant forall x :: 0 <= x < i ==> Tasks()[x] in kept
        invariant forall t :: t in Tasks() ==> (t in alive <==> t in kept)
        invariant Live(Tasks(), kept) == Live(tasks0, kept)
        invariant HandTracks(tasks0, dram0, kept, Tasks(), DramHand())
        invariant HandTracks(tasks0, nvram0, kept, Tasks(), NvramHand())
        decreases nPids - i
      {
        TaskAt(i);
        assert Tasks()[i] in Tasks();
        if taskItems[i] !in alive {
          HandTracksRemoval(tasks0, dram0, kept, Tasks(), DramHand(), i);
          HandTracksRemoval(tasks0, nvram0, kept, Tasks(), NvramHand(), i);
          LiveRemoveDead(Tasks(), i, kept);
          UpdatePidList(i);
          i := i - 1;
        }
        i := i + 1;
      }
      LiveAll(Tasks(), kept);
      RefreshDone(tasks0, dram0, kept, Tasks(), DramHand());
      RefreshDone(tasks0, nvram0, kept, Tasks(), NvramHand());
    }

    /** `find_target_process`: adds a process to the table unless the table is full, the pid is already
        there, or no such process exists. */
    method FindTargetProcess(pid: int, alive: set<int>) returns (ok: bool)
      requires TableOk() && 0 < pid <= MAX_PID_N
      modifies `nPids, taskItems
      ensures TableOk()
      ensures ok <==> old(nPids) < MAX_PIDS && pid !in old(Tasks()) && pid in alive
      ensures Tasks() == old(Tasks()) + if ok then [pid] else []
    {
      if nPids >= MAX_PIDS {
        return false;
      }
      var i := 0;
      while i < nPids
        invariant 0 <= i <= nPids && pid !in Tasks()[..i]
      {
        if taskItems[i] == pid {
          assert Tasks()[i] == pid;
          return false;
        }
        i := i + 1;
      }
      if pid !in alive {
        return false;
      }
      taskItems[nPids] := pid;
      nPids := nPids + 1;
      assert Tasks() == old(Tasks()) + [pid];
      return true;
    }

    method BindPid(pid: int, alive: set<int>) returns (ret: int)
      requires TableOk()
      modifies `nPids, taskItems
      ensures TableOk()
      ensures ret == if 0 < pid <= MAX_PID_N && old(nPids) < MAX_PIDS && pid !in old(Tasks()) && pid in alive
                     then 0 else -1
      ensures Tasks() == old(Tasks()) + if ret == 0 then [pid] else []
    {
      if pid <= 0 || pid > MAX_PID_N {
        return -1;
      }
      var ok := FindTargetProcess(pid, alive);
      return if ok then 0 else -1;
    }

    method UnbindPid(pid: int) returns (ret: int, ghost at: nat)
      requires TableOk()
      modifies `nPids, `lastPidDram, `lastAddrDram, `lastPidNvram, `lastAddrNvram, taskItems
      ensures TableOk()
      ensures ret == if pid in old(Tasks()) then 0 else -1
      ensures ret == 0 ==>
                && at < old(nPids) && old(Tasks())[at] == pid
                && Tasks() == RemoveAt(old(Tasks()), at)
                && DramHand() == HandAfterRemoval(old(DramHand()), at, old(nPids))
                && NvramHand() == HandAfterRemoval(old(NvramHand()), at, old(nPids))
      ensures ret == -1 ==>
                && Tasks() == old(Tasks()) && DramHand() == old(DramHand()) && NvramHand() == old(NvramHand())
    {
      at := 0;
      if pid <= 0 || pid > MAX_PID_N {
        return -1, at;
      }
      var i := 0;
      while i < nPids && taskItems[i] != pid
        invariant 0 <= i <= nPids && pid !in Tasks()[..i]
      {
        i := i + 1;
      }
      if i == nPids {
        return -1, at;
      }
      assert Tasks()[i] == pid;
      UpdatePidList(i);
      return 0, i;
    }

    // ---- Requests for pages ----------------------------------------------------------------

    /** What holds between requests. */
    ghost predicate Valid()
      reads `nPids, taskItems, `lastPidDram, `lastAddrDram, `lastPidNvram, `lastAddrNvram
      reads `mem, `nToFind, `nBackup, `nSwitchBackup
      ensures Valid() ==> nPids <= taskItems.Length
    {
      && TableOk() && WellFormed(mem)
      && nToFind <= MAX_N_FIND && nBackup <= MAX_N_FIND && nSwitchBackup <= MAX_N_SWITCH
    }

    static ghost function KindOf(mode: int): Kind
      requires IsListMode(mode)
    {
      if mode == DRAM_MODE then Mem
      else if mode == NVRAM_MODE then NvramForce
      else if mode == NVRAM_INTENSIVE_MODE then NvramIntensive
      else NvramWrite
    }

    /** The hand that walks with `kind` resume from, and the other one. */
    ghost function HandOf(kind: Kind): Hand
      reads `lastPidDram, `lastAddrDram, `lastPidNvram, `lastAddrNvram
    {
      if kind.Mem? then DramHand() else NvramHand()
    }

    ghost function OtherHand(kind: Kind): Hand
      reads `lastPidDram, `lastAddrDram, `lastPidNvram, `lastAddrNvram
    {
      if kind.Mem? then NvramHand() else DramHand()
    }

    /** The cycle of pages that a walk with `kind` would visit now. */
    ghost function CycleFor(kind: Kind): seq<Visit>
      reads `nPids, taskItems, `lastPidDram, `lastAddrDram, `lastPidNvram, `lastAddrNvram, `mem
      requires TableOk() && nPids > 0
    {
      Cycle(Callback(build, kind), Tasks(), mem, HandOf(kind).slot, HandOf(kind).addr)
    }

    /** A page walk from the hand of `kind`, which it moves. */
    method WalkFromHand(kind: Kind) returns (ghost j: nat, ghost o: nat)
      requires !kind.NvramClear? && Ready(Callback(build, kind)) && Kept(Callback(build, kind)) == []
      requires TableOk() && WellFormed(mem) && nPids > 0
      modifies `currPid, `nFound, `nBackup, `nSwitchBackup, `mem
      modifies `lastPidDram, `lastAddrDram, `lastPidNvram, `lastAddrNvram
      modifies foundAddrs, backupAddrs, switchBackupAddrs
      ensures TableOk() && Tasks() == old(Tasks())
      ensures Rest(Callback(build, kind)) == old(Rest(Callback(build, kind)))
      ensures StopsIn(Callback(build, kind), Tasks(), old(mem), old(HandOf(kind)).slot, old(HandOf(kind)).addr,
                      nToFind - old(nFound), j, o)
      ensures HandOf(kind) ==
              HandAfter(Callback(build, kind), Tasks(), old(mem), old(HandOf(kind)).slot, old(HandOf(kind)).addr, j, o)
      ensures OtherHand(kind) == old(OtherHand(kind))
      ensures Progress(Callback(build, kind), old(Found()), old(mem), nToFind - old(nFound),
                       Processed(Callback(build, kind), Tasks(), old(mem), old(HandOf(kind)).slot,
                                 old(HandOf(kind)).addr, j, o))
    {
      hide Progress, Rest, Stretch, Stretches, StopsAt, Processed, Primaries, WellFormed, Distinct, Ready, Kept;
      ghost var tasks := Tasks();
      if kind.Mem? {
        lastPidDram, j, o := DoPageWalk(kind, lastPidDram, lastAddrDram);
      } else {
        lastPidNvram, j, o := DoPageWalk(kind, lastPidNvram, lastAddrNvram);
      }
      assert Tasks() == tasks;
      HandAfterBound(Callback(build, kind), tasks, old(mem), old(HandOf(kind)).slot, old(HandOf(kind)).addr, j, o);
    }

    method AppendBackups(count: nat)
      requires Buffers() && count <= nBackup <= backupAddrs.Length && nFound + count <= foundAddrs.Length
      modifies `nFound, foundAddrs
      ensures nFound == old(nFound) + count
      ensures Found() == old(Found()) + backupAddrs[..count]
    {
      var i := 0;
      while i < count
        invariant 0 <= i <= count && nFound == old(nFound) + i
        invariant Found() == old(Found()) + backupAddrs[..i]
      {
        foundAddrs[nFound] := backupAddrs[i];
        nFound := nFound + 1;
        i := i + 1;
      }
    }

    /** What a finished walk has in its lists, in terms of the cycle it walked. */
    lemma {:induction false} WalkResult(cb: Callback, base: seq<AddrInfo>, mem0: Memory, h: Hand,
                                        need: nat, j: nat, o: nat)
      returns (d: seq<Visit>)
      requires nPids <= taskItems.Length && h.slot < nPids && WellFormed(mem0)
      requires StopsIn(cb, Tasks(), mem0, h.slot, h.addr, need, j, o)
      requires Progress(cb, base, mem0, need, Processed(cb, Tasks(), mem0, h.slot, h.addr, j, o))
      ensures nToFind == |base| + need && nFound <= nToFind && Ready(cb) && WellFormed(mem)
      ensures var vs := Cycle(cb, Tasks(), mem0, h.slot, h.addr);
              && |d| <= |vs| && StopsAt(cb, need, vs, |d|) && vs[..|d|] == d
              && |Primaries(cb, d)| <= need && |Reserve(cb, need, d)| <= need
              && Found() == base + Primaries(cb, d)
              && Kept(cb) == Reserve(cb, need, d)
      ensures WalkLeaves(cb, Tasks(), mem0, h, need, mem, HandAfter(cb, Tasks(), mem0, h.slot, h.addr, j, o))
    {
      hide Cycle, HandAfter, WalkLeaves, Selected, StopsAt, Processed;
      d := Processed(cb, Tasks(), mem0, h.slot, h.addr, j, o);
      WalkDelivers(cb, Tasks(), mem0, h, need, j, o);
      StopsAtBound(cb, need, Cycle(cb, Tasks(), mem0, h.slot, h.addr), |d|);
      ReserveSuffices(cb, need, d);
      YoungSurvives(cb, mem0, d);
      WellFormedPreserved(mem0, mem);
    }

    /** What a finished walk that started with an empty list can be topped up to. */
    lemma {:induction false} WalkToppedUp(cb: Callback, mem0: Memory, h: Hand, need: nat, j: nat, o: nat)
      requires nPids <= taskItems.Length && h.slot < nPids && WellFormed(mem0)
      requires StopsIn(cb, Tasks(), mem0, h.slot, h.addr, need, j, o)
      requires Progress(cb, [], mem0, need, Processed(cb, Tasks(), mem0, h.slot, h.addr, j, o))
      ensures nToFind == need && nFound <= need && Ready(cb) && WellFormed(mem)
      ensures Found() + Take(need - nFound, Kept(cb)) == Selected(cb, need, Cycle(cb, Tasks(), mem0, h.slot, h.addr))
      ensures WalkLeaves(cb, Tasks(), mem0, h, need, mem, HandAfter(cb, Tasks(), mem0, h.slot, h.addr, j, o))
    {
      hide Cycle, WalkLeaves, Selected, StopsAt, Processed, StopsIn, Progress, HandAfter;
      var d := WalkResult(cb, [], mem0, h, need, j, o);
      OnePassIsTwoPass(cb, need, Cycle(cb, Tasks(), mem0, h.slot, h.addr), |d|);
      assert [] + Primaries(cb, d) == Primaries(cb, d);
    }

    /** The walk of `mem_walk` with the chosen callback, topped up from the reserve. */
    method WalkList(kind: Kind, n: nat) returns (ret: int)
      requires Valid() && nPids > 0 && nFound == 0 && n <= MAX_N_FIND
      requires !kind.NvramSwitch? && !kind.NvramClear?
      modifies `currPid, `nToFind, `nFound, `nBackup, `nSwitchBackup, `mem
      modifies `lastPidDram, `lastAddrDram, `lastPidNvram, `lastAddrNvram
      modifies foundAddrs, backupAddrs, switchBackupAddrs
      ensures Valid() && nFound <= MAX_N_FIND && Tasks() == old(Tasks())
      ensures Found() == Selected(Callback(build, kind), n, old(CycleFor(kind)))
      ensures ret == if nFound == n then 0 else -1
      ensures WalkLeaves(Callback(build, kind), Tasks(), old(mem), old(HandOf(kind)), n, mem, HandOf(kind))
      ensures OtherHand(kind) == old(OtherHand(kind))
    {
      hide Progress, Rest, Stretch, Stretches, StopsIn, WalkLeaves, Selected, Cycle, WellFormed, Processed, HandAfter,
        Distinct;
      nToFind := n;
      nBackup := 0;
      ghost var h := HandOf(kind);
      ghost var j, o := WalkFromHand(kind);
      WalkToppedUp(Callback(build, kind), old(mem), h, n, j, o);
      if nFound >= nToFind {
        return 0;
      }
      if nBackup > 0 {
        AppendBackups(IntMin(nToFind - nFound, nBackup) as nat);
        if nFound >= nToFind {
          return 0;
        }
      }
      return -1;
    }

    /** `mem_walk`: picks the callback for the mode and walks. */
    method MemWalk(n: nat, mode: int) returns (ret: int)
      requires Valid() && nPids > 0 && nFound == 0 && n <= MAX_N_FIND
      modifies `currPid, `nToFind, `nFound, `nBackup, `nSwitchBackup, `mem
      modifies `lastPidDram, `lastAddrDram, `lastPidNvram, `lastAddrNvram
      modifies foundAddrs, backupAddrs, switchBackupAddrs
      ensures Valid() && nFound <= MAX_N_FIND && Tasks() == old(Tasks())
      ensures IsListMode(mode) ==>
                var kind := KindOf(mode);
                && Found() == Selected(Callback(build, kind), n, old(CycleFor(kind)))
                && ret == (if nFound == n then 0 else -1)
                && WalkLeaves(Callback(build, kind), Tasks(), old(mem), old(HandOf(kind)), n, mem, HandOf(kind))
                && OtherHand(kind) == old(OtherHand(kind))
      ensures !IsListMode(mode) ==>
                && ret == 0 && nFound == 0 && mem == old(mem)
                && DramHand() == old(DramHand()) && NvramHand() == old(NvramHand())
    {
      hide WalkLeaves, Selected, Cycle, WellFormed, Distinct, HandIn;
      if mode == DRAM_MODE {
        ret := WalkList(Mem, n);
      } else if mode == NVRAM_MODE {
        ret := WalkList(NvramForce, n);
      } else if mode == NVRAM_INTENSIVE_MODE {
        ret := WalkList(NvramIntensive, n);
      } else if mode == NVRAM_WRITE_MODE {
        ret := WalkList(NvramWrite, n);
      } else {
        ret := 0;
      }
    }

    /** `clear_walk`: gives every page of every managed task to the clear callback; each task must
        have an `mm`. */
    method ClearWalk()
      requires Valid() && nFound <= nToFind && forall t :: t in Tasks() ==> t in mem
      modifies `currPid, `nFound, `nBackup, `nSwitchBackup, `mem, `lastAddrDram, `lastAddrNvram
      modifies foundAddrs, backupAddrs, switchBackupAddrs
      ensures Valid() && Tasks() == old(Tasks())
      ensures Cleared(build, old(mem), mem, Tasks())
      ensures nFound == old(nFound) && Found() == old(Found())
      ensures Rest(Callback(build, NvramClear)) == old(Rest(Callback(build, NvramClear)))
      ensures DramHand() == old(DramHand()) && NvramHand() == old(NvramHand())
    {
      hide Progress, TouchAll, Segment, Primaries, Reserve, Range, Touch, Cleared, Rest;
      ghost var cb := Callback(build, NvramClear);
      ghost var tasks := Tasks();
      ClearedNothing(build, mem);
      assert tasks[..0] == [];
      var i := 0;
      while i < nPids
        invariant 0 <= i <= nPids && Valid() && nFound <= nToFind
        invariant Tasks() == tasks && mem.Keys == old(mem.Keys)
        invariant Cleared(build, old(mem), mem, tasks[..i])
        invariant nFound == old(nFound) && Found() == old(Found()) && Rest(cb) == old(Rest(cb))
        invariant DramHand() == old(DramHand()) && NvramHand() == old(NvramHand())
      {
        currPid := taskItems[i];
        assert currPid == tasks[i] && currPid !in tasks[..i] && tasks[..i + 1] == tasks[..i] + [tasks[i]];
        ghost var before := mem;
        ClearOne();
        ClearedOneMore(build, old(mem), before, mem, tasks[..i], currPid);
        i := i + 1;
      }
      assert tasks[..i] == tasks;
    }

    /** The clear walk over the current process. */
    method ClearOne()
      requires Buffers() && WellFormed(mem) && currPid in mem
      requires nFound <= nToFind <= MAX_N_FIND && nBackup <= MAX_N_FIND && nSwitchBackup <= MAX_N_SWITCH
      modifies `nFound, `nBackup, `nSwitchBackup, `mem, `lastAddrDram, `lastAddrNvram
      modifies foundAddrs, backupAddrs, switchBackupAddrs
      ensures WellFormed(mem) && Cleared(build, old(mem), mem, [currPid])
      ensures nFound == old(nFound) && Found() == old(Found())
      ensures Rest(Callback(build, NvramClear)) == old(Rest(Callback(build, NvramClear)))
      ensures lastAddrDram == old(lastAddrDram) && lastAddrNvram == old(lastAddrNvram)
      ensures nBackup == old(nBackup) && nSwitchBackup == old(nSwitchBackup)
    {
      ghost var cb := Callback(build, NvramClear);
      ghost var seg := Segment(mem, currPid, 0, MAX_ADDRESS);
      ghost var base, need := Found(), nToFind - nFound;
      assert Progress(cb, base, mem, need, []);
      var ret;
      ghost var k;
      ret, k := WalkPageRange(NvramClear, 0, MAX_ADDRESS, base, mem, need, []);
      assert [] + seg[..k] == seg;
      WholeProcessTouched(cb, old(mem), currPid);
      ClearSelectsNothing(build, need, seg);
      YoungSurvives(cb, old(mem), seg);
      WellFormedPreserved(old(mem), mem);
    }

    // ---- SWITCH ----------------------------------------------------------------------------

    /** Moves `count` entries left, front to back, so that none is overwritten before it is moved. */
    method ShiftLeft(from: nat, to: nat, count: nat)
      requires to <= from && from + count <= foundAddrs.Length
      modifies foundAddrs
      ensures foundAddrs[..] == Moved(old(foundAddrs[..]), from, to, count)
    {
      hide Moved;
      ghost var was := foundAddrs[..];
      var i := 0;
      while i < count
        invariant 0 <= i <= count
        invariant forall x {:trigger foundAddrs[x]} :: 0 <= x < to || to + i <= x < foundAddrs.Length ==>
                    foundAddrs[x] == was[x]
        invariant forall x {:trigger foundAddrs[x]} :: to <= x < to + i ==>
                    foundAddrs[x] == was[x - to + from]
      {
        foundAddrs[to + i] := foundAddrs[from + i];
        i := i + 1;
      }
      IsMoved(was, foundAddrs[..], from, to, count);
    }

    /** Drops the NVRAM entries from `newNv` on: a separator takes the place of the first of them, and the
        DRAM entries close up behind it. */
    method DropNvram(nv: nat, newNv: nat, dr: nat, ghost nvs: seq<AddrInfo>, ghost drs: seq<AddrInfo>)
      requires Buffers() && newNv < nv == |nvs| && dr == |drs|
      requires nFound == nv + 1 + dr <= MAX_N_FIND && Halves(Found(), nvs, drs)
      modifies `nFound, foundAddrs
      ensures nFound == newNv + 1 + dr && Halves(Found(), nvs[..newNv], drs)
    {
      hide Halves, Moved;
      ghost var f := foundAddrs[..];
      assert f[..nFound] == Found();
      foundAddrs[newNv] := foundAddrs[newNv].(pidRetval := 0);
      ghost var was := foundAddrs[..];
      ShiftLeft(nv + 1, newNv + 1, dr);
      nFound := newNv + 1 + dr;
      assert was == f[newNv := was[newNv]];
      DroppedHalves(f, was, nvs, drs, newNv, foundAddrs[..]);
      assert Found() == foundAddrs[..][..newNv + 1 + dr];
    }

    /** Fewer DRAM pages than NVRAM pages were found: top them up from the DRAM reserve, dropping the
        NVRAM pages that still find no partner. */
    method FillDramSide(nv: nat, dr: nat, ghost nvs: seq<AddrInfo>, ghost drs: seq<AddrInfo>)
      requires Buffers() && dr < nv && 0 < nBackup <= MAX_N_FIND && 2 * nv + 1 <= MAX_N_FIND
      requires |nvs| == nv && |drs| == dr && nFound == nv + 1 + dr && Halves(Found(), nvs, drs)
      modifies `nFound, foundAddrs
      ensures nFound <= MAX_N_FIND
      ensures Balanced(Found(), if nBackup < nv - dr then dr + nBackup else nv, nvs, drs + backupAddrs[..nBackup])
    {
      hide Halves;
      var remaining := nv - dr;
      var toAdd;
      ghost var k := if nBackup < remaining then dr + nBackup else nv;
      ghost var bs := backupAddrs[..nBackup];
      if nBackup < remaining {
        DropNvram(nv, dr + nBackup, dr, nvs, drs);
        toAdd := nBackup;
      } else {
        toAdd := remaining;
        assert nvs[..nv] == nvs;
      }
      HalvesAppend(Found(), nvs[..k], drs, bs[..toAdd]);
      AppendBackups(toAdd);
      assert backupAddrs[..toAdd] == bs[..toAdd];
      assert drs + bs[..toAdd] == (drs + bs)[..k];
    }

    /** Moves `count` entries right, back to front, so that none is overwritten before it is moved. */
    method ShiftRight(from: nat, to: nat, count: nat)
      requires from <= to && to + count <= foundAddrs.Length
      modifies foundAddrs
      ensures foundAddrs[..] == Moved(old(foundAddrs[..]), from, to, count)
    {
      hide Moved;
      ghost var was := foundAddrs[..];
      var i := count;
      while i > 0
        invariant 0 <= i <= count
        invariant forall x {:trigger foundAddrs[x]} :: 0 <= x < to + i || to + count <= x < foundAddrs.Length ==>
                    foundAddrs[x] == was[x]
        invariant forall x {:trigger foundAddrs[x]} :: to + i <= x < to + count ==>
                    foundAddrs[x] == was[x - to + from]
      {
        i := i - 1;
        foundAddrs[to + i] := foundAddrs[from + i];
      }
      IsMoved(was, foundAddrs[..], from, to, count);
    }

    /** Puts the first `count` pages of the NVRAM reserve behind the `at` NVRAM entries. */
    method InsertSwitchBackups(at: nat, count: nat)
      requires Buffers() && count <= nSwitchBackup <= MAX_N_SWITCH && at + count <= foundAddrs.Length
      modifies foundAddrs
      ensures foundAddrs[..] == Spliced(old(foundAddrs[..]), at, switchBackupAddrs[..count])
    {
      ghost var was := foundAddrs[..];
      assert Spliced(was, at, []) == was;
      hide Spliced;
      var i := 0;
      while i < count
        invariant 0 <= i <= count
        invariant foundAddrs[..] == Spliced(was, at, switchBackupAddrs[..i])
      {
        SplicedStep(was, at, switchBackupAddrs[..i], switchBackupAddrs[i]);
        ghost var now := foundAddrs[..];
        foundAddrs[at + i] := switchBackupAddrs[i];
        assert foundAddrs[..] == now[at + i := switchBackupAddrs[i]];
        assert switchBackupAddrs[..i + 1] == switchBackupAddrs[..i] + [switchBackupAddrs[i]];
        i := i + 1;
      }
    }

    /** Makes room for `toAdd` entries behind the NVRAM entries, puts reserve pages there, and writes the
        separator behind them. */
    method InsertReserve(nv: nat, toAdd: nat)
      requires Buffers() && toAdd <= nSwitchBackup <= MAX_N_SWITCH && 2 * (nv + toAdd) + 1 <= MAX_N_FIND
      modifies foundAddrs
      ensures foundAddrs[..] == Inserted(old(foundAddrs[..]), nv, switchBackupAddrs[..toAdd])
    {
      hide Moved, Spliced;
      var k := nv + toAdd;
      ShiftRight(nv + 1, k + 1, k);
      InsertSwitchBackups(nv, toAdd);
      ghost var filled := foundAddrs[..];
      foundAddrs[k] := foundAddrs[k].(pidRetval := 0);
      assert foundAddrs[..] == filled[k := filled[k].(pidRetval := 0)];
    }

    lemma FoundSlice()
      requires nFound <= foundAddrs.Length
      ensures Found() == foundAddrs[..][..nFound]
    {
    }

    /** More DRAM pages than NVRAM pages were found: make room and insert pages of the NVRAM reserve. */
    method FillNvramSide(nv: nat, dr: nat, ghost nvs: seq<AddrInfo>, ghost drs: seq<AddrInfo>)
      requires Buffers() && nv < dr && 0 < nSwitchBackup <= MAX_N_SWITCH && 2 * dr + 1 <= MAX_N_FIND
      requires |nvs| == nv && |drs| == dr && nFound == nv + 1 + dr && Halves(Found(), nvs, drs)
      modifies `nFound, foundAddrs
      ensures nFound <= MAX_N_FIND
      ensures Balanced(Found(), nv + IntMin(nSwitchBackup, dr - nv) as nat,
                       nvs + switchBackupAddrs[..nSwitchBackup], drs)
    {
      hide Halves, Inserted, Balanced, Found;
      var toAdd: nat := IntMin(nSwitchBackup, dr - nv);
      FoundSlice();
      InsertedBalanced(foundAddrs[..], nFound, nvs, drs, switchBackupAddrs[..nSwitchBackup], toAdd);
      ReserveSlice(toAdd);
      InsertReserve(nv, toAdd);
      nFound := (nv + toAdd) * 2 + 1;
      FoundSlice();
    }

    lemma ReserveSlice(i: nat)
      requires i <= nSwitchBackup <= switchBackupAddrs.Length
      ensures switchBackupAddrs[..nSwitchBackup][..i] == switchBackupAddrs[..i]
    {
    }

    /** The rebalancing that ends `switch_walk`, for `nv` found NVRAM and `dr` found DRAM pages. */
    method Rebalance(nv: nat, dr: nat, ghost nvs: seq<AddrInfo>, ghost drs: seq<AddrInfo>)
      requires Buffers() && nBackup <= MAX_N_FIND && nSwitchBackup <= MAX_N_SWITCH
      requires 2 * nv + 1 <= MAX_N_FIND && 2 * dr + 1 <= MAX_N_FIND
      requires |nvs| == nv && |drs| == dr && nFound == nv + 1 + dr && Halves(Found(), nvs, drs)
      modifies `nFound, foundAddrs
      ensures nFound <= MAX_N_FIND
      ensures Balanced(Found(), Rebalanced(nv, dr, nBackup, nSwitchBackup),
                       nvs + switchBackupAddrs[..nSwitchBackup], drs + backupAddrs[..nBackup])
    {
      hide Halves, Balanced;
      ghost var k := Rebalanced(nv, dr, nBackup, nSwitchBackup);
      ghost var spare, reserve := switchBackupAddrs[..nSwitchBackup], backupAddrs[..nBackup];
      if dr == nv {
        BalancedAsFound(Found(), nvs, drs);
        BalancedWiden(Found(), k, nvs, drs, spare, reserve);
      } else if dr < nv && nBackup > 0 {
        FillDramSide(nv, dr, nvs, drs);
        BalancedWiden(Found(), k, nvs, drs + reserve, spare, []);
        assert drs + reserve + [] == drs + reserve;
      } else if nv < dr && nSwitchBackup > 0 {
        FillNvramSide(nv, dr, nvs, drs);
        BalancedWiden(Found(), k, nvs + spare, drs, [], reserve);
        assert nvs + spare + [] == nvs + spare;
      } else {
        foundAddrs[0] := foundAddrs[0].(pidRetval := 0);
        nFound := 1;
        BalancedNothing(Found(), nvs + spare, drs + reserve);
      }
    }

    /** The NVRAM half of `switch_walk`: look for `n` pages, and put the separator behind them. */
    method SwitchNvramSide(n: nat) returns (ghost d: seq<Visit>)
      requires Valid() && nPids > 0 && nFound == 0 && n <= MAX_N_SWITCH
      modifies `currPid, `nToFind, `nFound, `nBackup, `nSwitchBackup, `mem
      modifies `lastPidDram, `lastAddrDram, `lastPidNvram, `lastAddrNvram
      modifies foundAddrs, backupAddrs, switchBackupAddrs
      ensures Valid() && Tasks() == old(Tasks()) && DramHand() == old(DramHand())
      ensures nFound <= n && nSwitchBackup <= n && foundAddrs[nFound].pidRetval == 0
      ensures var cn := Callback(build, NvramSwitch);
              var vs := old(CycleFor(NvramSwitch));
              && WalkLeaves(cn, Tasks(), old(mem), old(NvramHand()), n, mem, NvramHand())
              && |d| <= |vs| && StopsAt(cn, n, vs, |d|) && vs[..|d|] == d
              && foundAddrs[..nFound] == Primaries(cn, d)
              && switchBackupAddrs[..nSwitchBackup] == Reserve(cn, n, d)
    {
      hide Progress, Rest, Stretch, Stretches, StopsIn, WalkLeaves, Cycle, WellFormed, Processed, HandAfter,
        Distinct, Primaries, Reserve, StopsAt;
      ghost var cn := Callback(build, NvramSwitch);
      ghost var h, mem0 := NvramHand(), mem;
      nToFind := n;
      nSwitchBackup := 0;
      ghost var j, o := WalkFromHand(NvramSwitch);
      d := WalkResult(cn, [], mem0, h, n, j, o);
      assert Found() == Primaries(cn, d);
      foundAddrs[nFound] := foundAddrs[nFound].(pidRetval := 0);
    }

    /** The DRAM half of `switch_walk`, behind `nvs` found NVRAM pages and the separator: look for as many
        DRAM pages, then rebalance. */
    method SwitchDramSide(n: nat, ghost nvs: seq<AddrInfo>) returns (ghost d: seq<Visit>)
      requires Valid() && nPids > 0 && |nvs| + nSwitchBackup > 0
      requires |nvs| == nFound <= n <= MAX_N_SWITCH
      requires foundAddrs[..nFound] == nvs && foundAddrs[nFound].pidRetval == 0
      modifies `currPid, `nToFind, `nFound, `nBackup, `nSwitchBackup, `mem
      modifies `lastPidDram, `lastAddrDram, `lastPidNvram, `lastAddrNvram
      modifies foundAddrs, backupAddrs, switchBackupAddrs
      ensures Valid() && Tasks() == old(Tasks()) && NvramHand() == old(NvramHand()) && nFound <= MAX_N_FIND
      ensures var cd := Callback(build, Mem);
              var spare := old(switchBackupAddrs[..nSwitchBackup]);
              var m: nat := IntMin(|nvs| + |spare|, n);
              var vs := old(CycleFor(Mem));
              && WalkLeaves(cd, Tasks(), old(mem), old(DramHand()), m, mem, DramHand())
              && |d| <= |vs| && StopsAt(cd, m, vs, |d|) && vs[..|d|] == d
              && Balanced(Found(), Rebalanced(|nvs|, |Primaries(cd, d)|, |Reserve(cd, m, d)|, |spare|),
                          nvs + spare, Primaries(cd, d) + Reserve(cd, m, d))
    {
      hide Progress, Rest, Stretch, Stretches, StopsIn, WalkLeaves, Cycle, WellFormed, Processed, HandAfter,
        Distinct, Primaries, Reserve, StopsAt, Balanced, Rebalanced, Halves;
      ghost var cd := Callback(build, Mem);
      ghost var spare, h, mem0 := switchBackupAddrs[..nSwitchBackup], DramHand(), mem;
      var nvramFound := nFound;
      var dramToFind: nat := IntMin(nvramFound + nSwitchBackup, n);
      nFound := nFound + 1;
      nToFind := nFound + dramToFind;
      nBackup := 0;
      ghost var base := Found();
      ghost var j, o := WalkFromHand(Mem);
      d := WalkResult(cd, base, mem0, h, dramToFind, j, o);
      ghost var drs := Primaries(cd, d);
      var dramFound := nFound - nvramFound - 1;
      TwoHalves(Found(), base, nvs, drs);
      assert switchBackupAddrs[..nSwitchBackup] == switchBackupAddrs[..][..nSwitchBackup] == spare;
      Rebalance(nvramFound, dramFound, nvs, drs);
    }

    /** `switch_walk`: the NVRAM pages that want to leave, a separator, and as many DRAM pages to make room
        for them; `mid` is the page tables between the two walks. */
    method SwitchWalk(n: nat) returns (ret: int, ghost mid: Memory)
      requires Valid() && nPids > 0 && nFound == 0 && n <= MAX_N_SWITCH
      modifies `currPid, `nToFind, `nFound, `nBackup, `nSwitchBackup, `mem
      modifies `lastPidDram, `lastAddrDram, `lastPidNvram, `lastAddrNvram
      modifies foundAddrs, backupAddrs, switchBackupAddrs
      ensures Valid() && Tasks() == old(Tasks()) && nFound <= MAX_N_FIND
      ensures var cn, cd := Callback(build, NvramSwitch), Callback(build, Mem);
              var vn := old(CycleFor(NvramSwitch));
              var vd := Cycle(cd, Tasks(), mid, old(DramHand()).slot, old(DramHand()).addr);
              var m: nat := IntMin(|Primaries(cn, vn)| + |Backups(cn, vn)|, n);
              && IsSwitchOf(Found(), n, cn, vn, cd, vd)
              && ret == (if m == 0 then -1 else 0)
              && WalkLeaves(cn, Tasks(), old(mem), old(NvramHand()), n, mid, NvramHand())
              && (if m == 0 then mem == mid && DramHand() == old(DramHand())
                  else WalkLeaves(cd, Tasks(), mid, old(DramHand()), m, mem, DramHand()))
    {
      hide Stretch, WalkLeaves, Cycle, WellFormed, Distinct, Primaries, Backups, Reserve, StopsAt, Balanced, Rebalanced,
        Halves, IsSwitchOf;
      ghost var cn, cd := Callback(build, NvramSwitch), Callback(build, Mem);
      ghost var vn := CycleFor(NvramSwitch);
      ghost var dn := SwitchNvramSide(n);
      mid := mem;
      ghost var vd := CycleFor(Mem);
      if nFound == 0 && nSwitchBackup == 0 {
        nFound := 1;
        NothingToSwitch(Found(), n, cn, vn, |dn|, cd, vd);
        return -1, mid;
      }
      ghost var dd := SwitchDramSide(n, Primaries(cn, dn));
      SwitchIsBalanced(Found(), n, cn, vn, dn, cd, vd, dd);
      return 0, mid;
    }

    // ---- Requests --------------------------------------------------------------------------

    ghost function View(): Table
      reads `nPids, taskItems, `lastPidDram, `lastAddrDram, `lastPidNvram, `lastAddrNvram
      requires nPids <= taskItems.Length
    {
      Table(Tasks(), DramHand(), NvramHand())
    }

    /** A refresh on its own. */
    method Refresh(alive: set<int>)
      requires TableOk()
      modifies `nPids, `lastPidDram, `lastAddrDram, `lastPidNvram, `lastAddrNvram, taskItems
      ensures TableOk() && Refreshed(old(View()), alive, View())
    {
      RefreshPids(alive, alive, Tasks(), DramHand(), NvramHand());
    }

    /** The FIND branch of `process_req`; `t` is the table after the refresh, `mid` the page tables between
        the two walks of a SWITCH. */
    method ProcessFind(pidN: nat, mode: int, alive: set<int>) returns (ret: int, ghost t: Table, ghost mid: Memory)
      requires Valid() && nFound == 0
      requires mode == NVRAM_CLEAR ==> forall p :: p in Tasks() && p in alive ==> p in mem
      modifies `currPid, `nToFind, `nFound, `nBackup, `nSwitchBackup, `mem
      modifies `nPids, `lastPidDram, `lastAddrDram, `lastPidNvram, `lastAddrNvram, taskItems
      modifies foundAddrs, backupAddrs, switchBackupAddrs
      ensures Valid() && Tasks() == t.tasks && nFound <= MAX_N_FIND
      ensures Refreshed(old(View()), alive, t)
      ensures FindDone(Found(), old(mem), pidN, mode, t, mid, ret)
    {
      hide WalkLeaves, Selected, Cycle, WellFormed, IsSwitchOf, Distinct, HandRefreshed, Live, Rest, Primaries, Backups,
        HandIn;
      ret := -1;
      Refresh(alive);
      t := View();
      mid := mem;
      if nPids > 0 {
        TableHands();
        if mode == DRAM_MODE || mode == NVRAM_MODE || mode == NVRAM_WRITE_MODE || mode == NVRAM_INTENSIVE_MODE {
          ret := MemWalk(IntMin(MAX_N_FIND, pidN) as nat, mode);
        } else if mode == NVRAM_CLEAR {
          ClearWalk();
        } else if mode == SWITCH_MODE {
          ret, mid := SwitchWalk(IntMin(MAX_N_SWITCH, pidN) as nat);
        }
      }
    }

    lemma TableHands()
      requires TableOk() && nPids > 0
      ensures DramHand().slot < nPids && NvramHand().slot < nPids
    {
    }

    /** The state and the list that answer a FIND request on table `t`. */
    ghost predicate FindDone(list: seq<AddrInfo>, mem0: Memory, pidN: nat, mode: int, t: Table, mid: Memory, ret: int)
      reads `nPids, taskItems, `lastPidDram, `lastAddrDram, `lastPidNvram, `lastAddrNvram, `mem
      requires nPids <= taskItems.Length
      requires t.tasks != [] ==> t.dram.slot < |t.tasks| && t.nvram.slot < |t.tasks|
    {
      if t.tasks == [] || (mode != SWITCH_MODE && mode != NVRAM_CLEAR && !IsListMode(mode)) then
        ret == -1 && list == [] && View() == t && mem == mem0
      else if IsListMode(mode) then
        var kind := KindOf(mode);
        var cb := Callback(build, kind);
        var n: nat := IntMin(MAX_N_FIND, pidN);
        var h := if kind.Mem? then t.dram else t.nvram;
        && list == Selected(cb, n, Cycle(cb, t.tasks, mem0, h.slot, h.addr))
        && ret == (if |list| == n then 0 else -1)
        && WalkLeaves(cb, t.tasks, mem0, h, n, mem, HandOf(kind))
        && OtherHand(kind) == (if kind.Mem? then t.nvram else t.dram)
      else if mode == NVRAM_CLEAR then
        ret == -1 && list == [] && View() == t && Cleared(build, mem0, mem, t.tasks)
      else
        var cn, cd := Callback(build, NvramSwitch), Callback(build, Mem);
        var n: nat := IntMin(MAX_N_SWITCH, pidN);
        var vn := Cycle(cn, t.tasks, mem0, t.nvram.slot, t.nvram.addr);
        var vd := Cycle(cd, t.tasks, mid, t.dram.slot, t.dram.addr);
        var m: nat := IntMin(|Primaries(cn, vn)| + |Backups(cn, vn)|, n);
        && IsSwitchOf(list, n, cn, vn, cd, vd)
        && ret == (if m == 0 then -1 else 0)
        && WalkLeaves(cn, t.tasks, mem0, t.nvram, n, mid, NvramHand())
        && (if m == 0 then mem == mid && DramHand() == t.dram
            else WalkLeaves(cd, t.tasks, mid, t.dram, m, mem, DramHand()))
    }

    /** The list, the return code and the state that answer a request, when `v0` and `mem0` were the table
        and the page tables before it; `t` is the table after the refresh. */
    ghost predicate Answers(req: Request, alive: set<int>, v0: Table, mem0: Memory, list: seq<AddrInfo>, ret: int,
                            t: Table, mid: Memory)
      reads `nPids, taskItems, `lastPidDram, `lastAddrDram, `lastPidNvram, `lastAddrNvram, `mem
      requires nPids <= taskItems.Length
    {
      if req.opCode == FIND_OP then
        && req.pidN >= 0
        && Refreshed(v0, alive, t) && Tasks() == t.tasks
        && FindDone(list, mem0, req.pidN, req.mode, t, mid, ret)
      else
        && list == [] && mem == mem0
        && if req.opCode == BIND_OP then
             var ok := 0 < req.pidN <= MAX_PID_N && |t.tasks| < MAX_PIDS && req.pidN !in t.tasks && req.pidN in alive;
             && Refreshed(v0, alive, t)
             && ret == (if ok then 0 else -1)
             && View() == t.(tasks := t.tasks + if ok then [req.pidN] else [])
           else if req.opCode == UNBIND_OP then
             && Refreshed(v0, alive - {req.pidN}, View())
             && ret == (if req.pidN in v0.tasks then 0 else -1)
           else ret == -1 && View() == v0
    }

    /** `process_req`: answers a request with a list of entries and a return code behind it. A FIND size
        is not negative, and clearing needs every live task to have an `mm`. */
    method ProcessReq(req: Request, alive: set<int>) returns (ghost list: seq<AddrInfo>, ret: int, ghost t: Table,
                                                              ghost mid: Memory)
      requires Valid()
      requires req.opCode == FIND_OP ==> req.pidN >= 0
      requires req.opCode == FIND_OP && req.mode == NVRAM_CLEAR ==> forall p :: p in Tasks() && p in alive ==> p in mem
      modifies `currPid, `nToFind, `nFound, `nBackup, `nSwitchBackup, `mem
      modifies `nPids, `lastPidDram, `lastAddrDram, `lastPidNvram, `lastAddrNvram, taskItems
      modifies foundAddrs, backupAddrs, switchBackupAddrs
      ensures Valid()
      ensures nFound == |list| + 1 <= MAX_N_FIND + 1
      ensures Found()[..|list|] == list && Found()[|list|].pidRetval == ret
      ensures Answers(req, alive, old(View()), old(mem), list, ret, t, mid)
    {
      hide Answers, Valid;
      nFound := 0;
      ret, t, mid := Dispatch(req, alive);
      list := Found();
      foundAddrs[nFound] := foundAddrs[nFound].(pidRetval := ret);
      nFound := nFound + 1;
      assert Found()[..|list|] == list;
    }

    /** The branch of `process_req` for the operation. */
    method Dispatch(req: Request, alive: set<int>) returns (ret: int, ghost t: Table, ghost mid: Memory)
      requires Valid() && nFound == 0
      requires req.opCode == FIND_OP ==> req.pidN >= 0
      requires req.opCode == FIND_OP && req.mode == NVRAM_CLEAR ==> forall p :: p in Tasks() && p in alive ==> p in mem
      modifies `currPid, `nToFind, `nFound, `nBackup, `nSwitchBackup, `mem
      modifies `nPids, `lastPidDram, `lastAddrDram, `lastPidNvram, `lastAddrNvram, taskItems
      modifies foundAddrs, backupAddrs, switchBackupAddrs
      ensures Valid() && nFound <= MAX_N_FIND < foundAddrs.Length
      ensures Answers(req, alive, old(View()), old(mem), Found(), ret, t, mid)
    {
      hide FindDone, Refreshed, HandTracks, Live, HandAfterRemoval, Distinct, WellFormed, HandIn;
      ret := -1;
      t, mid := View(), mem;
      if req.opCode == FIND_OP {
        ret, t, mid := ProcessFind(req.pidN, req.mode, alive);
      } else if req.opCode == BIND_OP {
        Refresh(alive);
        t := View();
        ret := BindPid(req.pidN, alive);
      } else if req.opCode == UNBIND_OP {
        ret := UnbindAndRefresh(req.pidN, alive);
      }
    }

    /** `placement_nl_process_msg`: process the request, then send the list in as many messages as it takes. */
    method HandleMessage(req: Request, alive: set<int>)
      returns (messages: seq<Message>, ghost list: seq<AddrInfo>, ghost code: AddrInfo, ghost t: Table,
              ghost mid: Memory)
      requires Valid()
      requires req.opCode == FIND_OP ==> req.pidN >= 0
      requires req.opCode == FIND_OP && req.mode == NVRAM_CLEAR ==> forall p :: p in Tasks() && p in alive ==> p in mem
      modifies `currPid, `nToFind, `nFound, `nBackup, `nSwitchBackup, `mem
      modifies `nPids, `lastPidDram, `lastAddrDram, `lastPidNvram, `lastAddrNvram, taskItems
      modifies foundAddrs, backupAddrs, switchBackupAddrs
      ensures Valid()
      ensures |list| <= MAX_N_FIND && messages == Split(list + [code])
      ensures Answers(req, alive, old(View()), old(mem), list, code.pidRetval, t, mid)
    {
      hide Answers, Split;
      ghost var ret;
      list, ret, t, mid := ProcessReq(req, alive);
      code := Found()[|list|];
      assert Found() == list + [code];
      messages := BuildMessages();
    }

    /** The UNBIND branch: remove, then refresh. */
    method UnbindAndRefresh(pid: int, alive: set<int>) returns (ret: int)
      requires TableOk()
      modifies `nPids, `lastPidDram, `lastAddrDram, `lastPidNvram, `lastAddrNvram, taskItems
      ensures TableOk()
      ensures Refreshed(old(View()), alive - {pid}, View())
      ensures ret == if pid in old(Tasks()) then 0 else -1
    {
      hide HandAfterRemoval, HandIn, Live;
      ghost var kept := alive - {pid};
      ghost var t0 := View();
      ghost var at;
      ret, at := UnbindPid(pid);
      if ret == 0 {
        HandTracksRemoval(t0.tasks, t0.dram, kept, t0.tasks, t0.dram, at);
        HandTracksRemoval(t0.tasks, t0.nvram, kept, t0.tasks, t0.nvram, at);
        LiveRemoveDead(t0.tasks, at, kept);
        DistinctAfterRemoval(t0.tasks, at);
      }
      RefreshPids(alive, kept, t0.tasks, t0.dram, t0.nvram);
    }

    /** The packet split of `placement_nl_process_msg`: how many messages are needed, all but the last one
        full, the last one with the remainder. */
    method BuildMessages() returns (messages: seq<Message>)
      requires Buffers() && 1 <= nFound <= MAX_N_FIND + 1
      ensures messages == Split(Found())
    {
      var lastRemainder := nFound % MAX_N_PER_PACKET;
      var lastEntries := lastRemainder;
      if lastRemainder == 0 {
        lastEntries := MAX_N_PER_PACKET;
      }
      var required := nFound / MAX_N_PER_PACKET + if lastRemainder != 0 then 1 else 0;
      messages := PutMessages(required, lastEntries);
    }

    method PutMessages(required: nat, lastEntries: nat) returns (messages: seq<Message>)
      requires nFound <= foundAddrs.Length && 1 <= required && 1 <= lastEntries <= MAX_N_PER_PACKET
      requires (required - 1) * MAX_N_PER_PACKET == nFound - lastEntries
      ensures messages == Split(Found())
    {
      hide Split, Found;
      FoundSlice();
      ghost var all := Found();
      messages := [];
      assert all[0..] == all && [] + Split(all) == Split(all);
      var i := 0;
      while i < required - 1
        invariant 0 <= i <= required - 1
        invariant i * MAX_N_PER_PACKET <= nFound - lastEntries
        invariant messages + Split(all[i * MAX_N_PER_PACKET..]) == Split(all)
      {
        var from := i * MAX_N_PER_PACKET;
        NextPacket(i, required - 1);
        PartOf(from, from + MAX_N_PER_PACKET);
        SplitStep(messages, all, from);
        messages := messages + [Message(0, NLM_F_MULTI, foundAddrs[from..from + MAX_N_PER_PACKET])];
        i := i + 1;
      }
      var from := i * MAX_N_PER_PACKET;
      SplitLast(all, from);
      PartOf(from, from + lastEntries);
      var last := Message(NLMSG_DONE, 0, foundAddrs[from..from + lastEntries]);
      messages := messages + [last];
    }

    lemma PartOf(lo: nat, hi: nat)
      requires lo <= hi <= nFound <= foundAddrs.Length
      ensures foundAddrs[lo..hi] == Found()[lo..hi] && Found()[lo..nFound] == Found()[lo..]
    {
    }
  }
}
