/** What a bounded walk collects, and why one pass with a shrinking reserve equals two passes. */
module Selection {
  import opened Ambix
  import opened PageTable

  /** The pages a callback wants first, in visit order: the first of the two simple passes. */
  function Primaries(cb: Callback, vs: seq<Visit>): (r: seq<AddrInfo>)
    ensures |r| <= |vs|
  {
    if |vs| == 0 then []
    else
      var v := vs[|vs| - 1];
      Primaries(cb, vs[..|vs| - 1]) + if Classify(cb, v.pte).Primary? then [Entry(v)] else []
  }

  /** The pages a callback accepts as a reserve, in visit order: the second simple pass. */
  function Backups(cb: Callback, vs: seq<Visit>): (r: seq<AddrInfo>)
    ensures |r| <= |vs|
  {
    if |vs| == 0 then []
    else
      var v := vs[|vs| - 1];
      Backups(cb, vs[..|vs| - 1]) + if Classify(cb, v.pte).Backup? then [Entry(v)] else []
  }

  /** The reserve the one-pass walk keeps: its cap is what is still missing when a page is met. */
  function Reserve(cb: Callback, need: nat, vs: seq<Visit>): (r: seq<AddrInfo>) {
    if |vs| == 0 then []
    else
      var v := vs[|vs| - 1];
      var us := vs[..|vs| - 1];
      var r := Reserve(cb, need, us);
      if Classify(cb, v.pte).Backup? && |r| < need - |Primaries(cb, us)| then r + [Entry(v)] else r
  }

  /** A walk over `vs` that wants `need` primaries stops after exactly `k` calls that look at a page:
      at the first point where it has `need` of them, or at the end. */
  ghost predicate StopsAt(cb: Callback, need: nat, vs: seq<Visit>, k: nat) {
    && k <= |vs|
    && |Primaries(cb, vs[..k])| <= need
    && (k < |vs| ==> |Primaries(cb, vs[..k])| == need)
    && (k > 0 ==> |Primaries(cb, vs[..k - 1])| < need)
  }

  function ButLast<T>(s: seq<T>): seq<T> {
    if |s| == 0 then s else s[..|s| - 1]
  }

  lemma StopsAtBound(cb: Callback, need: nat, vs: seq<Visit>, k: nat)
    requires StopsAt(cb, need, vs, k)
    ensures k <= |vs|
  {
  }

  // ---- Prefixes ----------------------------------------------------------------------------

  lemma {:induction false} PrefixMonotone(cb: Callback, vs: seq<Visit>, k: nat)
    requires k <= |vs|
    ensures Primaries(cb, vs[..k]) <= Primaries(cb, vs)
    ensures Backups(cb, vs[..k]) <= Backups(cb, vs)
  {
    if k == |vs| {
      assert vs[..k] == vs;
    } else {
      var us := vs[..|vs| - 1];
      assert us[..k] == vs[..k];
      PrefixMonotone(cb, us, k);
    }
  }

  lemma AddVisit(cb: Callback, need: nat, vs: seq<Visit>, v: Visit)
    ensures Primaries(cb, vs + [v]) ==
            Primaries(cb, vs) + if Classify(cb, v.pte).Primary? then [Entry(v)] else []
    ensures Reserve(cb, need, vs + [v]) ==
            if Classify(cb, v.pte).Backup? && |Reserve(cb, need, vs)| < need - |Primaries(cb, vs)|
            then Reserve(cb, need, vs) + [Entry(v)] else Reserve(cb, need, vs)
  {
    assert (vs + [v])[..|vs|] == vs;
  }

  /** The stopping point is unique, so every result stated at it is a function of the visits. */
  lemma {:induction false} StopUnique(cb: Callback, need: nat, vs: seq<Visit>, k1: nat, k2: nat)
    requires StopsAt(cb, need, vs, k1) && StopsAt(cb, need, vs, k2)
    ensures k1 == k2
  {
    if k1 < k2 {
      assert vs[..k2 - 1][..k1] == vs[..k1];
      PrefixMonotone(cb, vs[..k2 - 1], k1);
    } else if k2 < k1 {
      assert vs[..k1 - 1][..k2] == vs[..k2];
      PrefixMonotone(cb, vs[..k1 - 1], k2);
    }
  }

  lemma {:induction false} ClearSelectsNothing(build: Build, need: nat, vs: seq<Visit>)
    ensures Primaries(Callback(build, NvramClear), vs) == [] && Reserve(Callback(build, NvramClear), need, vs) == []
  {
    if |vs| > 0 {
      ClearSelectsNothing(build, need, vs[..|vs| - 1]);
    }
  }

  // ---- The shrinking cap loses nothing that is needed ---------------------------------------

  /** The reserve is a prefix of the second pass; it is the whole of it unless it already holds
      as many pages as are missing. */
  lemma {:induction false} ReserveSuffices(cb: Callback, need: nat, vs: seq<Visit>)
    ensures Reserve(cb, need, vs) <= Backups(cb, vs)
    ensures Reserve(cb, need, vs) == Backups(cb, vs) ||
            |Reserve(cb, need, vs)| >= need - |Primaries(cb, vs)|
    ensures |Reserve(cb, need, vs)| <= need
  {
    if |vs| > 0 {
      ReserveSuffices(cb, need, vs[..|vs| - 1]);
    }
  }

  /** What a bounded walk delivers after topping up from its reserve. */
  function Delivered(need: nat, primaries: seq<AddrInfo>, reserve: seq<AddrInfo>): seq<AddrInfo>
    requires |primaries| <= need
  {
    primaries + Take(need - |primaries|, reserve)
  }

  /** What two simple passes over all of `vs` select: the first `need` of all primaries followed by all
      reserve pages. */
  function Selected(cb: Callback, need: nat, vs: seq<Visit>): seq<AddrInfo> {
    Take(need, Primaries(cb, vs) + Backups(cb, vs))
  }

  /** One bounded pass delivers what two unbounded passes over the whole order would. */
  lemma {:induction false} OnePassIsTwoPass(cb: Callback, need: nat, vs: seq<Visit>, k: nat)
    requires StopsAt(cb, need, vs, k)
    ensures Delivered(need, Primaries(cb, vs[..k]), Reserve(cb, need, vs[..k])) ==
            Selected(cb, need, vs)
  {
    PrefixMonotone(cb, vs, k);
    ReserveSuffices(cb, need, vs[..k]);
    if k == |vs| {
      assert vs[..k] == vs;
    }
  }

  /** How many primaries a stopped walk holds, and whether its reserve is complete, in terms of the
      whole order only. */
  lemma {:induction false} StoppedCounts(cb: Callback, need: nat, vs: seq<Visit>, k: nat)
    requires StopsAt(cb, need, vs, k)
    ensures Primaries(cb, vs[..k]) == Take(need, Primaries(cb, vs))
    ensures |Primaries(cb, vs)| < need ==> k == |vs|
  {
    PrefixMonotone(cb, vs, k);
    if k == |vs| {
      assert vs[..k] == vs;
    }
  }

  // ---- No page is delivered twice -----------------------------------------------------------

  function Entries(vs: seq<Visit>): (r: seq<AddrInfo>)
    ensures |r| == |vs|
    ensures forall k :: 0 <= k < |r| ==> r[k] == Entry(vs[k])
  {
    seq(|vs|, k requires 0 <= k < |vs| => Entry(vs[k]))
  }

  lemma SnocCount(s: seq<AddrInfo>, x: AddrInfo, e: AddrInfo)
    ensures multiset(s + [x])[e] == multiset(s)[e] + if x == e then 1 else 0
  {
  }

  /** Each visit contributes to at most one of the two lists. */
  lemma {:induction false} ListsAreDisjointParts(cb: Callback, vs: seq<Visit>, e: AddrInfo)
    ensures multiset(Primaries(cb, vs))[e] + multiset(Backups(cb, vs))[e] <= multiset(Entries(vs))[e]
  {
    if |vs| == 0 {
      assert Primaries(cb, vs) == [] && Backups(cb, vs) == [];
    } else {
      hide Primaries, Backups, Entries, Classify;
      var us, v := vs[..|vs| - 1], vs[|vs| - 1];
      assert vs == us + [v];
      ListsAreDisjointParts(cb, us, e);
      ListsSnoc(cb, us, v);
      SnocCount(Entries(us), Entry(v), e);
      SnocCount(Primaries(cb, us), Entry(v), e);
      SnocCount(Backups(cb, us), Entry(v), e);
    }
  }

  lemma ListsSnoc(cb: Callback, us: seq<Visit>, v: Visit)
    ensures Entries(us + [v]) == Entries(us) + [Entry(v)]
    ensures Primaries(cb, us + [v]) ==
            if Classify(cb, v.pte).Primary? then Primaries(cb, us) + [Entry(v)] else Primaries(cb, us)
    ensures Backups(cb, us + [v]) ==
            if Classify(cb, v.pte).Backup? then Backups(cb, us) + [Entry(v)] else Backups(cb, us)
  {
    assert (us + [v])[..|us|] == us;
  }

  lemma {:induction false} TakeIsSubmultiset<T>(n: nat, s: seq<T>)
    ensures multiset(Take(n, s)) <= multiset(s)
  {
    if n <= |s| {
      assert s == s[..n] + s[n..];
    }
  }

  /** Every primary comes from a visit that the callback classified as one, and the other way round. */
  lemma {:induction false} PrimaryProvenance(cb: Callback, vs: seq<Visit>, e: AddrInfo)
    ensures e in Primaries(cb, vs) <==> exists v :: v in vs && Entry(v) == e && Classify(cb, v.pte).Primary?
  {
    if |vs| > 0 {
      var us, v := vs[..|vs| - 1], vs[|vs| - 1];
      assert vs == us + [v];
      PrimaryProvenance(cb, us, e);
    }
  }

  lemma {:induction false} BackupProvenance(cb: Callback, vs: seq<Visit>, e: AddrInfo)
    ensures e in Backups(cb, vs) <==> exists v :: v in vs && Entry(v) == e && Classify(cb, v.pte).Backup?
  {
    if |vs| > 0 {
      var us, v := vs[..|vs| - 1], vs[|vs| - 1];
      assert vs == us + [v];
      BackupProvenance(cb, us, e);
    }
  }
}
