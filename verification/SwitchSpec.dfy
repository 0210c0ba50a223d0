/** How many pages a SWITCH exchanges, as a function of what the two tiers hold. */
module SwitchSpec {
  import opened Ambix
  import opened PageTable
  import opened Selection

  /** The layout of a SWITCH list: NVRAM entries, a separator with pid 0, DRAM entries. */
  ghost predicate Halves(found: seq<AddrInfo>, nvs: seq<AddrInfo>, drs: seq<AddrInfo>) {
    && |found| == |nvs| + 1 + |drs|
    && found[..|nvs|] == nvs
    && found[|nvs|].pidRetval == 0
    && found[|nvs| + 1..] == drs
  }

  /** A list with the first `k` entries of `nvs` and the first `k` entries of `drs`. */
  ghost predicate Balanced(found: seq<AddrInfo>, k: nat, nvs: seq<AddrInfo>, drs: seq<AddrInfo>) {
    k <= |nvs| && k <= |drs| && Halves(found, nvs[..k], drs[..k])
  }

  lemma HalvesAppend(found: seq<AddrInfo>, nvs: seq<AddrInfo>, drs: seq<AddrInfo>, more: seq<AddrInfo>)
    requires Halves(found, nvs, drs)
    ensures Halves(found + more, nvs, drs + more)
  {
    var n := |nvs|;
    assert (found + more)[..n] == found[..n];
    assert (found + more)[n + 1..] == found[n + 1..] + more;
  }

  lemma TwoHalves(found: seq<AddrInfo>, base: seq<AddrInfo>, nvs: seq<AddrInfo>, drs: seq<AddrInfo>)
    requires |base| == |nvs| + 1 && base[..|nvs|] == nvs && base[|nvs|].pidRetval == 0
    requires found == base + drs
    ensures Halves(found, nvs, drs)
  {
    assert found[..|nvs|] == base[..|nvs|];
  }

  /** A buffer after `count` entries from index `from` on were copied to index `to` on. */
  function Moved(f: seq<AddrInfo>, from: nat, to: nat, count: nat): (r: seq<AddrInfo>)
    requires from + count <= |f| && to + count <= |f|
    ensures |r| == |f|
  {
    f[..to] + f[from..from + count] + f[to + count..]
  }

  lemma IsMoved(f: seq<AddrInfo>, g: seq<AddrInfo>, from: nat, to: nat, count: nat)
    requires from + count <= |f| && to + count <= |f| == |g|
    requires forall x :: 0 <= x < to || to + count <= x < |f| ==> g[x] == f[x]
    requires forall x {:trigger g[x]} :: to <= x < to + count ==> g[x] == f[x - to + from]
    ensures g == Moved(f, from, to, count)
  {
  }

  /** A buffer after the entries of `more` were written from index `at` on. */
  function Spliced(f: seq<AddrInfo>, at: nat, more: seq<AddrInfo>): (r: seq<AddrInfo>)
    requires at + |more| <= |f|
    ensures |r| == |f|
  {
    f[..at] + more + f[at + |more|..]
  }

  lemma IsSpliced(f: seq<AddrInfo>, g: seq<AddrInfo>, at: nat, more: seq<AddrInfo>)
    requires at + |more| <= |f| == |g|
    requires forall x :: 0 <= x < at || at + |more| <= x < |f| ==> g[x] == f[x]
    requires forall x {:trigger g[x]} :: at <= x < at + |more| ==> g[x] == more[x - at]
    ensures g == Spliced(f, at, more)
  {
  }

  lemma SplicedStep(f: seq<AddrInfo>, at: nat, more: seq<AddrInfo>, e: AddrInfo)
    requires at + |more| < |f|
    ensures Spliced(f, at, []) == f
    ensures Spliced(f, at, more + [e]) == Spliced(f, at, more)[at + |more| := e]
  {
  }

  /** Writing an earlier separator and closing up the DRAM entries behind it leaves a shorter list. */
  lemma DroppedHalves(f: seq<AddrInfo>, marked: seq<AddrInfo>, nvs: seq<AddrInfo>, drs: seq<AddrInfo>, newNv: nat,
                      g: seq<AddrInfo>)
    requires |nvs| + 1 + |drs| <= |f| && Halves(f[..|nvs| + 1 + |drs|], nvs, drs)
    requires newNv < |nvs| && |marked| == |f|
    requires marked == f[newNv := marked[newNv]] && marked[newNv].pidRetval == 0
    requires g == Moved(marked, |nvs| + 1, newNv + 1, |drs|)
    ensures Halves(g[..newNv + 1 + |drs|], nvs[..newNv], drs)
  {
    var n := |nvs|;
    var before := f[..n + 1 + |drs|];
    forall x | 0 <= x < |drs| ensures g[newNv + 1 + x] == drs[x] {
      assert drs[x] == before[n + 1..][x] == f[n + 1 + x];
    }
    forall x | 0 <= x < newNv ensures g[x] == nvs[x] {
      assert nvs[x] == before[..n][x];
    }
    assert g[..newNv + 1 + |drs|][newNv + 1..] == drs;
    assert g[..newNv + 1 + |drs|][..newNv] == nvs[..newNv];
  }

  /** A buffer with `n` NVRAM entries after room for `more` was made behind them, `more` put there, and
      the separator written behind it. */
  function Inserted(f: seq<AddrInfo>, n: nat, more: seq<AddrInfo>): (r: seq<AddrInfo>)
    requires 2 * (n + |more|) + 1 <= |f|
    ensures |r| == |f|
  {
    var k := n + |more|;
    var s := Spliced(Moved(f, n + 1, k + 1, k), n, more);
    s[k := s[k].(pidRetval := 0)]
  }

  lemma InsertedBalanced(f: seq<AddrInfo>, end: nat, nvs: seq<AddrInfo>, drs: seq<AddrInfo>, spare: seq<AddrInfo>,
                         toAdd: nat)
    requires end <= |f| && Halves(f[..end], nvs, drs)
    requires toAdd <= |spare| && |nvs| + toAdd <= |drs| && 2 * (|nvs| + toAdd) + 1 <= |f|
    ensures var k := |nvs| + toAdd;
            Balanced(Inserted(f, |nvs|, spare[..toAdd])[..k * 2 + 1], k, nvs + spare, drs)
  {
    hide Halves;
    var n := |nvs|;
    var k := n + toAdd;
    var more := spare[..toAdd];
    HalvesAt(f[..end], nvs, drs);
    InsertedAt(f, n, more);
    var g := Inserted(f, n, more)[..k * 2 + 1];
    assert g[..k] == (nvs + spare)[..k];
    var tail := g[k + 1..];
    forall x | 0 <= x < k ensures tail[x] == drs[x] {
      assert tail[x] == g[k + 1 + x] == f[n + 1 + x];
    }
    assert tail == drs[..k];
    HalvesOf(g, (nvs + spare)[..k], drs[..k]);
  }

  lemma HalvesAt(found: seq<AddrInfo>, nvs: seq<AddrInfo>, drs: seq<AddrInfo>)
    requires Halves(found, nvs, drs)
    ensures |found| == |nvs| + 1 + |drs|
    ensures forall x :: 0 <= x < |nvs| ==> nvs[x] == found[x]
    ensures forall x :: 0 <= x < |drs| ==> drs[x] == found[|nvs| + 1 + x]
  {
    assert forall x :: 0 <= x < |drs| ==> drs[x] == found[|nvs| + 1..][x];
  }

  lemma HalvesOf(found: seq<AddrInfo>, nvs: seq<AddrInfo>, drs: seq<AddrInfo>)
    requires |found| == |nvs| + 1 + |drs| && found[|nvs|].pidRetval == 0
    requires found[..|nvs|] == nvs && found[|nvs| + 1..] == drs
    ensures Halves(found, nvs, drs)
  {
  }

  lemma InsertedAt(f: seq<AddrInfo>, n: nat, more: seq<AddrInfo>)
    requires 2 * (n + |more|) + 1 <= |f|
    ensures var k := n + |more|;
            var g := Inserted(f, n, more);
            && (forall x :: 0 <= x < n ==> g[x] == f[x])
            && (forall x :: n <= x < k ==> g[x] == more[x - n])
            && g[k].pidRetval == 0
            && (forall x :: k + 1 <= x < 2 * k + 1 ==> g[x] == f[x - |more|])
  {
  }

  lemma BalancedWiden(found: seq<AddrInfo>, k: nat, nvs: seq<AddrInfo>, drs: seq<AddrInfo>, a: seq<AddrInfo>,
                      b: seq<AddrInfo>)
    requires Balanced(found, k, nvs, drs)
    ensures Balanced(found, k, nvs + a, drs + b)
  {
    assert (nvs + a)[..k] == nvs[..k] && (drs + b)[..k] == drs[..k];
  }

  lemma BalancedAsFound(found: seq<AddrInfo>, nvs: seq<AddrInfo>, drs: seq<AddrInfo>)
    requires Halves(found, nvs, drs) && |nvs| == |drs|
    ensures Balanced(found, |nvs|, nvs, drs)
  {
    assert nvs[..|nvs|] == nvs && drs[..|nvs|] == drs;
  }

  lemma BalancedNothing(found: seq<AddrInfo>, nvs: seq<AddrInfo>, drs: seq<AddrInfo>)
    requires |found| == 1 && found[0].pidRetval == 0
    ensures Balanced(found, 0, nvs, drs)
  {
  }

  /** The size that the rebalancing arrives at from what its two walks collected: `nv` and `dr` pages
      found, `b` pages in the DRAM reserve and `s` in the NVRAM reserve. */
  function Rebalanced(nv: nat, dr: nat, b: nat, s: nat): nat {
    if dr == nv then nv
    else if dr < nv && b > 0 then (if b < nv - dr then dr + b else nv)
    else if nv < dr && s > 0 then nv + IntMin(s, dr - nv) as nat
    else 0
  }

  /** The same size in terms of the tiers alone: `pn` and `bn` are all the primary and reserve pages of
      the NVRAM order, `pd` and `bd` those of the DRAM order, `n` the size that was asked for. */
  function SwitchSize(n: nat, pn: nat, bn: nat, pd: nat, bd: nat): nat {
    var nv := IntMin(n, pn);
    var dr := IntMin(IntMin(pn + bn, n), pd);
    if dr >= nv then dr
    else if bd == 0 then 0
    else IntMin(nv, pd + bd)
  }

  /** The largest exchange that the two tiers would allow. */
  function LargestSwitch(n: nat, pn: nat, bn: nat, pd: nat, bd: nat): nat {
    IntMin(n, IntMin(pn + bn, pd + bd))
  }

  /** SWITCH never exchanges more than it may, and exchanges less than it could exactly when the DRAM
      reserve is empty while too few idle DRAM pages match the found NVRAM pages (it then drops all of
      them), or when idle DRAM pages run out at no less than the found NVRAM pages although both tiers
      hold reserves, or when the DRAM reserve outlasts the found NVRAM pages. */
  lemma SwitchShortfall(n: nat, pn: nat, bn: nat, pd: nat, bd: nat)
    ensures SwitchSize(n, pn, bn, pd, bd) <= LargestSwitch(n, pn, bn, pd, bd)
    ensures SwitchSize(n, pn, bn, pd, bd) == LargestSwitch(n, pn, bn, pd, bd) <==>
            !(|| (0 < pd < IntMin(n, pn) && bd == 0)
              || (IntMin(n, pn) <= pd < IntMin(n, pn + bn) && bd > 0)
              || (pd < pn < IntMin(n, pd + bd) && bn > 0))
  {
  }

  /** What a stopped walk holds: its primaries, and a reserve that covers what is missing if anything
      can. */
  lemma {:induction false} WalkLists(cb: Callback, need: nat, vs: seq<Visit>, k: nat)
    requires StopsAt(cb, need, vs, k)
    ensures k <= |vs| && Primaries(cb, vs[..k]) == Take(need, Primaries(cb, vs))
    ensures |Primaries(cb, vs[..k])| == IntMin(need, |Primaries(cb, vs)|)
    ensures Reserve(cb, need, vs[..k]) <= Backups(cb, vs)
    ensures Reserve(cb, need, vs[..k]) == Backups(cb, vs) ||
            |Reserve(cb, need, vs[..k])| >= need - |Primaries(cb, vs[..k])|
  {
    StoppedCounts(cb, need, vs, k);
    ReserveSuffices(cb, need, vs[..k]);
    PrefixMonotone(cb, vs, k);
    if k == |vs| {
      assert vs[..k] == vs;
    }
  }

  lemma SizesAgree(n: nat, pn: nat, bn: nat, s: nat, pd: nat, bd: nat, b: nat)
    requires s <= bn && (s == bn || s >= n - IntMin(n, pn))
    requires var m := IntMin(IntMin(n, pn) + s, n); b <= bd && (b == bd || b >= m - IntMin(m, pd))
    ensures var nv := IntMin(n, pn);
            var m := IntMin(nv + s, n);
            var dr := IntMin(m, pd);
            var size := Rebalanced(nv, dr, b, s);
            && m == IntMin(pn + bn, n)
            && size == SwitchSize(n, pn, bn, pd, bd)
            && size <= nv + s && size <= dr + b && size <= m <= n
  {
  }

  lemma JoinedPrefix<T>(need: nat, first: seq<T>, second: seq<T>, p: seq<T>, r: seq<T>, size: nat)
    requires p == Take(need, first) && r <= second
    requires r == second || |r| >= need - |p|
    requires size <= need && size <= |p + r|
    ensures (p + r)[..size] == Take(size, first + second)
  {
    if |first| < need {
      assert p == first;
      assert (first + r)[..size] == (first + second)[..size];
    } else {
      assert (p + r)[..size] == first[..size] == (first + second)[..size];
    }
  }

  /** The two walks of a SWITCH of size `n`, and what the rebalancing makes of them. */
  lemma {:induction false} SwitchFromWalks(cn: Callback, cd: Callback, n: nat, vn: seq<Visit>, kn: nat,
                                           vd: seq<Visit>, kd: nat)
    requires kn <= |vn| && StopsAt(cn, n, vn, kn)
    requires kd <= |vd| && StopsAt(cd, IntMin(|Primaries(cn, vn[..kn])| + |Reserve(cn, n, vn[..kn])|, n), vd, kd)
    ensures var found, spare := Primaries(cn, vn[..kn]), Reserve(cn, n, vn[..kn]);
            var m := IntMin(|found| + |spare|, n);
            var idle, reserve := Primaries(cd, vd[..kd]), Reserve(cd, m, vd[..kd]);
            var size := Rebalanced(|found|, |idle|, |reserve|, |spare|);
            && m == IntMin(|Primaries(cn, vn)| + |Backups(cn, vn)|, n)
            && size == SwitchSize(n, |Primaries(cn, vn)|, |Backups(cn, vn)|, |Primaries(cd, vd)|, |Backups(cd, vd)|)
            && size <= |found + spare| && size <= |idle + reserve| && size <= n
            && (found + spare)[..size] == Selected(cn, size, vn)
            && (idle + reserve)[..size] == Selected(cd, size, vd)
  {
    hide Primaries, Backups, Reserve, Rebalanced, SwitchSize, StopsAt, Take;
    var found, spare := Primaries(cn, vn[..kn]), Reserve(cn, n, vn[..kn]);
    var m := IntMin(|found| + |spare|, n);
    var idle, reserve := Primaries(cd, vd[..kd]), Reserve(cd, m, vd[..kd]);
    WalkLists(cn, n, vn, kn);
    WalkLists(cd, m, vd, kd);
    SizesAgree(n, |Primaries(cn, vn)|, |Backups(cn, vn)|, |spare|, |Primaries(cd, vd)|, |Backups(cd, vd)|, |reserve|);
    var size := Rebalanced(|found|, |idle|, |reserve|, |spare|);
    JoinedPrefix(n, Primaries(cn, vn), Backups(cn, vn), found, spare, size);
    JoinedPrefix(m, Primaries(cd, vd), Backups(cd, vd), idle, reserve, size);
  }

  /** The list a SWITCH request of size `n` is answered with, when `vn` is the NVRAM cycle and `vd` the DRAM
      cycle: as many pages of either tier, the ones two full passes over each cycle would select. */
  ghost predicate IsSwitchOf(found: seq<AddrInfo>, n: nat, cn: Callback, vn: seq<Visit>, cd: Callback, vd: seq<Visit>) {
    var k := SwitchSize(n, |Primaries(cn, vn)|, |Backups(cn, vn)|, |Primaries(cd, vd)|, |Backups(cd, vd)|);
    && k <= n
    && |Selected(cn, k, vn)| == k && |Selected(cd, k, vd)| == k
    && Halves(found, Selected(cn, k, vn), Selected(cd, k, vd))
  }

  /** What the two walks and the rebalancing leave is the answer of the specification. */
  lemma {:induction false} SwitchIsBalanced(found: seq<AddrInfo>, n: nat, cn: Callback, vn: seq<Visit>, dn: seq<Visit>,
                         cd: Callback, vd: seq<Visit>, dd: seq<Visit>)
    requires |dn| <= |vn| && dn == vn[..|dn|] && StopsAt(cn, n, vn, |dn|)
    requires |dd| <= |vd| && dd == vd[..|dd|]
    requires var nvs, spare := Primaries(cn, dn), Reserve(cn, n, dn);
             var m: nat := IntMin(|nvs| + |spare|, n);
             var drs, reserve := Primaries(cd, dd), Reserve(cd, m, dd);
             && StopsAt(cd, m, vd, |dd|)
             && Balanced(found, Rebalanced(|nvs|, |drs|, |reserve|, |spare|), nvs + spare, drs + reserve)
    ensures IsSwitchOf(found, n, cn, vn, cd, vd)
    ensures (IntMin(|Primaries(cn, vn)| + |Backups(cn, vn)|, n) == 0) ==
            (IntMin(|Primaries(cn, dn)| + |Reserve(cn, n, dn)|, n) == 0)
    ensures IntMin(|Primaries(cn, vn)| + |Backups(cn, vn)|, n) == IntMin(|Primaries(cn, dn)| + |Reserve(cn, n, dn)|, n)
  {
    hide Primaries, Backups, Reserve, StopsAt, Rebalanced, SwitchSize, Halves;
    SwitchFromWalks(cn, cd, n, vn, |dn|, vd, |dd|);
  }

  /** The early return: the NVRAM walk found nothing at all. */
  lemma NothingToSwitch(found: seq<AddrInfo>, n: nat, cn: Callback, vn: seq<Visit>, kn: nat, cd: Callback,
                        vd: seq<Visit>)
    requires StopsAt(cn, n, vn, kn)
    requires |Primaries(cn, vn[..kn])| + |Reserve(cn, n, vn[..kn])| == 0
    requires |found| == 1 && found[0].pidRetval == 0
    ensures IsSwitchOf(found, n, cn, vn, cd, vd)
    ensures IntMin(|Primaries(cn, vn)| + |Backups(cn, vn)|, n) == 0
  {
    hide Primaries, Backups, Reserve, StopsAt;
    WalkLists(cn, n, vn, kn);
    SizesAgree(n, |Primaries(cn, vn)|, |Backups(cn, vn)|, 0, |Primaries(cd, vd)|, |Backups(cd, vd)|, |Backups(cd, vd)|);
    assert Selected(cn, 0, vn) == [] && Selected(cd, 0, vd) == [];
  }
}
