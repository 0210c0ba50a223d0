/** The table of managed tasks and what removals do to the clock hands that point into it. */
module TaskTable {
  import opened Ambix
  import opened ClockOrder

  function RemoveAt<T>(s: seq<T>, i: nat): seq<T>
    requires i < |s|
  {
    s[..i] + s[i + 1..]
  }

  /** The tasks in the order in which a walk from slot `c` meets them. */
  function Rotate(s: seq<int>, c: nat): seq<int>
    requires c <= |s|
  {
    s[c..] + s[..c]
  }

  /** The tasks that are still alive, in the same order. */
  function Live(s: seq<int>, alive: set<int>): (r: seq<int>)
    ensures forall x :: x in r <==> x in s && x in alive
  {
    if |s| == 0 then []
    else Live(s[..|s| - 1], alive) + if s[|s| - 1] in alive then [s[|s| - 1]] else []
  }

  /** A hand after the task at `i` of `n` tasks was removed: it stays with its task, or, when that task
      is the one removed, moves to address 0 of the task that takes its place. */
  function HandAfterRemoval(h: Hand, i: nat, n: nat): Hand {
    if h.slot > i then Hand(h.slot - 1, h.addr)
    else if h.slot == i then Hand(if h.slot == n - 1 then 0 else h.slot, 0)
    else h
  }

  /** A hand designates a slot in use and an address in range; there is only one place for it when no slot is
      in use. */
  ghost predicate HandIn(h: Hand, tasks: seq<int>) {
    if |tasks| == 0 then h == Hand(0, 0) else h.slot < |tasks| && h.addr < MAX_ADDRESS
  }

  lemma {:induction false} LiveConcat(a: seq<int>, b: seq<int>, alive: set<int>)
    ensures Live(a + b, alive) == Live(a, alive) + Live(b, alive)
  {
    if |b| == 0 {
      assert a + b == a;
    } else {
      var n := |b| - 1;
      assert (a + b)[..|a + b| - 1] == a + b[..n];
      LiveConcat(a, b[..n], alive);
    }
  }

  lemma LiveRemoveDead(s: seq<int>, i: nat, alive: set<int>)
    requires i < |s| && s[i] !in alive
    ensures Live(RemoveAt(s, i), alive) == Live(s, alive)
  {
    hide Live;
    assert s == s[..i + 1] + s[i + 1..];
    LiveConcat(s[..i + 1], s[i + 1..], alive);
    LiveSnoc(s, i, alive);
    LiveConcat(s[..i], s[i + 1..], alive);
  }

  lemma LiveSnoc(s: seq<int>, i: nat, alive: set<int>)
    requires i < |s|
    ensures Live(s[..i + 1], alive) == Live(s[..i], alive) + if s[i] in alive then [s[i]] else []
  {
    assert s[..i + 1][..i] == s[..i];
  }

  lemma {:induction false} LiveAll(s: seq<int>, alive: set<int>)
    requires forall x :: x in s ==> x in alive
    ensures Live(s, alive) == s
  {
    if |s| > 0 {
      var t, x := s[..|s| - 1], s[|s| - 1];
      assert s == t + [x] && x in s;
      LiveAll(t, alive);
    }
  }

  lemma DistinctAfterRemoval(s: seq<int>, i: nat)
    requires i < |s| && Distinct(s)
    ensures Distinct(RemoveAt(s, i)) && s[i] !in RemoveAt(s, i)
    ensures forall x :: x in RemoveAt(s, i) ==> x in s
  {
  }

  /** Seen from the hand, a removal takes one task out of the cyclic order and moves no other; the hand
      keeps its address exactly when its own task stays. */
  lemma RemovalFromHand(tasks: seq<int>, h: Hand, i: nat)
    requires h.slot < |tasks| && i < |tasks|
    ensures var n := |tasks|;
            var rest := RemoveAt(tasks, i);
            var h' := HandAfterRemoval(h, i, n);
            && (h.addr < MAX_ADDRESS ==> HandIn(h', rest))
            && Rotate(rest, h'.slot) ==
               RemoveAt(Rotate(tasks, h.slot), if i >= h.slot then i - h.slot else i + n - h.slot)
            && h'.addr == (if i == h.slot then 0 else h.addr)
            && (i != h.slot ==> rest[h'.slot] == tasks[h.slot])
            && (i == h.slot && n > 1 ==> rest[h'.slot] == tasks[SlotAfter(h.slot, 1, n)])
  {
    if i > h.slot {
      RemovalBehind(tasks, h.slot, i);
    } else if i < h.slot {
      RemovalBefore(tasks, h.slot, i);
    } else {
      RemovalAt(tasks, i);
    }
  }

  lemma RemovalBehind(s: seq<int>, c: nat, i: nat)
    requires c < i < |s|
    ensures Rotate(RemoveAt(s, i), c) == RemoveAt(Rotate(s, c), i - c) && RemoveAt(s, i)[c] == s[c]
  {
    var low, mid, high := s[..c], s[c..i], s[i + 1..];
    assert RemoveAt(s, i)[..c] == low && RemoveAt(s, i)[c..] == mid + high;
    assert RemoveAt(Rotate(s, c), i - c) == mid + high + low;
  }

  lemma RemovalBefore(s: seq<int>, c: nat, i: nat)
    requires i < c < |s|
    ensures Rotate(RemoveAt(s, i), c - 1) == RemoveAt(Rotate(s, c), i + |s| - c) && RemoveAt(s, i)[c - 1] == s[c]
  {
    var low, mid, high := s[..i], s[i + 1..c], s[c..];
    assert RemoveAt(s, i)[..c - 1] == low + mid && RemoveAt(s, i)[c - 1..] == high;
    assert RemoveAt(Rotate(s, c), i + |s| - c) == high + (low + mid);
  }

  lemma RemovalAt(s: seq<int>, i: nat)
    requires i < |s|
    ensures Rotate(RemoveAt(s, i), if i == |s| - 1 then 0 else i) == RemoveAt(Rotate(s, i), 0)
  {
    var low, high := s[..i], s[i + 1..];
    assert RemoveAt(Rotate(s, i), 0) == high + low;
    if i < |s| - 1 {
      assert RemoveAt(s, i)[..i] == low && RemoveAt(s, i)[i..] == high;
    } else {
      assert RemoveAt(s, i) == low && high == [];
    }
  }

  /** What holds while a refresh removes dead tasks: seen from the hand, the live tasks are those of the
      beginning, and the hand is still on its first task or that task is dead and gone. */
  ghost predicate HandTracks(tasks0: seq<int>, h0: Hand, alive: set<int>, tasks: seq<int>, h: Hand) {
    && HandIn(h0, tasks0) && HandIn(h, tasks)
    && Live(Rotate(tasks, h.slot), alive) == Live(Rotate(tasks0, h0.slot), alive)
    && (tasks0 == [] ==> tasks == [])
    && (tasks0 != [] ==>
         || (tasks != [] && tasks[h.slot] == tasks0[h0.slot] && h.addr == h0.addr)
         || (tasks0[h0.slot] !in alive && h.addr == 0))
  }

  lemma {:induction false} HandTracksRemoval(tasks0: seq<int>, h0: Hand, alive: set<int>, tasks: seq<int>, h: Hand,
                                             i: nat)
    requires HandTracks(tasks0, h0, alive, tasks, h)
    requires i < |tasks| && tasks[i] !in alive
    ensures HandTracks(tasks0, h0, alive, RemoveAt(tasks, i), HandAfterRemoval(h, i, |tasks|))
  {
    RemovalFromHand(tasks, h, i);
    var j := if i >= h.slot then i - h.slot else i + |tasks| - h.slot;
    assert Rotate(tasks, h.slot)[j] == tasks[i];
    LiveRemoveDead(Rotate(tasks, h.slot), j, alive);
  }

  /** Where a refresh leaves a hand: the tasks it will meet are the live ones of those it would have
      met, in the same order, and its address survives with its task. */
  ghost predicate HandRefreshed(tasks0: seq<int>, h0: Hand, alive: set<int>, tasks: seq<int>, h: Hand) {
    && tasks == Live(tasks0, alive)
    && HandIn(h, tasks)
    && (tasks != [] ==>
         && h0.slot < |tasks0|
         && Rotate(tasks, h.slot) == Live(Rotate(tasks0, h0.slot), alive)
         && h.addr == if tasks0[h0.slot] in alive then h0.addr else 0)
  }

  lemma {:induction false} RefreshDone(tasks0: seq<int>, h0: Hand, alive: set<int>, tasks: seq<int>, h: Hand)
    requires HandTracks(tasks0, h0, alive, tasks, h)
    requires tasks == Live(tasks0, alive)
    ensures HandRefreshed(tasks0, h0, alive, tasks, h)
  {
    if tasks != [] {
      LiveAll(Rotate(tasks, h.slot), alive);
      assert tasks[h.slot] in alive;
    }
  }

  /** The hand after a refresh is determined by the table and the hand before it. */
  lemma RefreshUnique(tasks0: seq<int>, h0: Hand, alive: set<int>, tasks: seq<int>, h1: Hand, h2: Hand)
    requires Distinct(tasks)
    requires HandRefreshed(tasks0, h0, alive, tasks, h1) && HandRefreshed(tasks0, h0, alive, tasks, h2)
    ensures h1 == h2
  {
    if tasks != [] {
      assert Rotate(tasks, h1.slot)[0] == tasks[h1.slot];
      assert Rotate(tasks, h2.slot)[0] == tasks[h2.slot];
    }
  }

  /** The table and both hands. */
  datatype Table = Table(tasks: seq<int>, dram: Hand, nvram: Hand)

  /** What a refresh makes of a table when `alive` are the processes that still exist. */
  ghost predicate Refreshed(t0: Table, alive: set<int>, t1: Table) {
    && t1.tasks == Live(t0.tasks, alive)
    && HandRefreshed(t0.tasks, t0.dram, alive, t1.tasks, t1.dram)
    && HandRefreshed(t0.tasks, t0.nvram, alive, t1.tasks, t1.nvram)
  }
}
