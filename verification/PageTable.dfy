/** Page tables, and what each page-table callback selects and changes. */
module PageTable {
  import opened Ambix

  /** One page-table entry: the bits the callbacks look at, and the NUMA node of its frame. */
  datatype Pte = Pte(addr: nat, present: bool, write: bool, young: bool, dirty: bool, node: int)

  /** The page tables of the processes that have an `mm`, by pid; a pid that is absent has none. */
  type Memory = map<int, seq<Pte>>

  ghost predicate Ascending(table: seq<Pte>) {
    && (forall i, j :: 0 <= i < j < |table| ==> table[i].addr < table[j].addr)
    && (forall i :: 0 <= i < |table| ==> table[i].addr < MAX_ADDRESS)
  }

  ghost predicate WellFormed(mem: Memory) {
    forall pid :: pid in mem ==> Ascending(mem[pid])
  }

  /** The same pages, whatever their bits: page tables that differ only in what callbacks change. */
  ghost predicate SamePages(m1: Memory, m2: Memory) {
    && m1.Keys == m2.Keys
    && forall pid :: pid in m1 ==>
         && |m1[pid]| == |m2[pid]|
         && forall i :: 0 <= i < |m1[pid]| ==>
              && m1[pid][i].addr == m2[pid][i].addr
              && m1[pid][i].node == m2[pid][i].node
              && m1[pid][i].present == m2[pid][i].present
              && m1[pid][i].write == m2[pid][i].write
              && m1[pid][i].young == m2[pid][i].young
  }

  /** The process has a present, writable page at the address, on one of the nodes. */
  ghost predicate PageOn(mem: Memory, nodes: seq<int>, pid: int, addr: nat) {
    pid in mem && exists i :: 0 <= i < |mem[pid]| && mem[pid][i].addr == addr && mem[pid][i].present
                              && mem[pid][i].write && mem[pid][i].node in nodes
  }

  // ---- Callbacks ---------------------------------------------------------------------------

  /** The two builds of the kernel module: `ambix_hyb-mod.c` and `ambix_MixM-mod.c`. */
  datatype Build = Hyb | MixM

  datatype Kind = Mem | NvramForce | NvramWrite | NvramIntensive | NvramSwitch | NvramClear

  /** A `pte_entry` callback of one of the builds. */
  datatype Callback = Callback(build: Build, kind: Kind)

  datatype Verdict = Ignore | Primary | Backup

  function TierMode(cb: Callback): int {
    if cb.kind.Mem? then DRAM_MODE else NVRAM_MODE
  }

  /** Present, writable and on the tier the callback scans. */
  predicate Eligible(cb: Callback, p: Pte) {
    p.present && p.write && p.node in Nodes(TierMode(cb))
  }

  /** What a callback wants an entry for: the answer, the reserve, or nothing. */
  function Classify(cb: Callback, p: Pte): Verdict {
    if !Eligible(cb, p) then Ignore else
    match cb.kind
    case Mem =>
      if !p.young then Primary
      else if p.dirty == cb.build.MixM? then Backup
      else Ignore
    case NvramForce =>
      if p.young && p.dirty then Primary else Backup
    case NvramWrite =>
      if !p.dirty then Ignore else if p.young then Primary else Backup
    case NvramIntensive =>
      if !p.young then Ignore else if p.dirty == cb.build.Hyb? then Primary else Backup
    case NvramSwitch =>
      if !p.young then Ignore else if p.dirty == cb.build.Hyb? then Primary else Backup
    case NvramClear => Ignore
  }

  /** Whether a callback writes the entry back with its dirty bit cleared. */
  predicate Cleans(cb: Callback, p: Pte) {
    Eligible(cb, p) &&
    match cb.kind
    case Mem => p.young
    case NvramForce => !(p.young && p.dirty)
    case NvramWrite => false
    case NvramIntensive => cb.build.MixM? && !(p.young && !p.dirty)
    case NvramSwitch => cb.build.MixM?
    case NvramClear => true
  }

  /** The entry a callback leaves: `pte_mkclean(old_pte)` overwrites the `pte_mkold` result, so
      only the dirty bit is ever cleared. */
  function Touch(cb: Callback, p: Pte): Pte {
    if Cleans(cb, p) then p.(dirty := false) else p
  }

  // ---- Visits ------------------------------------------------------------------------------

  /** One call of a callback: the pid being walked and the entry as the callback found it. */
  datatype Visit = Visit(pid: int, pte: Pte)

  function Entry(v: Visit): AddrInfo {
    AddrInfo(v.pte.addr, v.pid)
  }

  /** The entries of `table` whose addresses are in [lo, hi), in address order. */
  function Range(pid: int, table: seq<Pte>, lo: nat, hi: nat): seq<Visit> {
    if |table| == 0 then []
    else
      var p := table[|table| - 1];
      Range(pid, table[..|table| - 1], lo, hi) + if lo <= p.addr < hi then [Visit(pid, p)] else []
  }

  /** What `walk_page_range` visits for one process when nothing stops it. */
  function Segment(mem: Memory, pid: int, lo: nat, hi: nat): seq<Visit> {
    if pid in mem then Range(pid, mem[pid], lo, hi) else []
  }

  /** `table` after the callback was called on the page at `addr`. */
  function TouchTable(cb: Callback, table: seq<Pte>, addr: nat): (r: seq<Pte>)
    ensures |r| == |table|
    ensures forall i :: 0 <= i < |r| ==> r[i] == if table[i].addr == addr then Touch(cb, table[i]) else table[i]
  {
    seq(|table|, i requires 0 <= i < |table| =>
      if table[i].addr == addr then Touch(cb, table[i]) else table[i])
  }

  function TouchPage(cb: Callback, mem: Memory, v: Visit): Memory {
    if v.pid in mem then mem[v.pid := TouchTable(cb, mem[v.pid], v.pte.addr)] else mem
  }

  /** The page tables after the callback was called on every page of `vs`, in order. */
  function TouchAll(cb: Callback, mem: Memory, vs: seq<Visit>): Memory {
    if |vs| == 0 then mem
    else TouchPage(cb, TouchAll(cb, mem, vs[..|vs| - 1]), vs[|vs| - 1])
  }

  ghost predicate Touched(vs: seq<Visit>, pid: int, addr: nat) {
    exists k :: 0 <= k < |vs| && vs[k].pid == pid && vs[k].pte.addr == addr
  }
}
