/** Splitting a reply into netlink messages and finding the lists in it again
    (multipart messages: section 2.3.2 of RFC 3549). */
module Multipart {
  import opened Ambix
  import opened PageTable
  import opened Selection
  import opened ClockOrder
  import opened SwitchSpec

  const NLMSG_ERROR: int := 2
  const NLMSG_DONE: int := 3
  const NLM_F_MULTI: int := 2

  /** One netlink message with its payload. */
  datatype Message = Message(msgType: int, flags: int, payload: seq<AddrInfo>)

  /** A reply as messages: full ones, and a last one with what remains. */
  function Split(list: seq<AddrInfo>): seq<Message> {
    if |list| <= MAX_N_PER_PACKET then [Message(NLMSG_DONE, 0, list)]
    else [Message(0, NLM_F_MULTI, list[..MAX_N_PER_PACKET])] + Split(list[MAX_N_PER_PACKET..])
  }

  lemma NextPacket(i: nat, n: nat)
    requires i < n
    ensures (i + 1) * MAX_N_PER_PACKET == i * MAX_N_PER_PACKET + MAX_N_PER_PACKET <= n * MAX_N_PER_PACKET
  {
    var size := MAX_N_PER_PACKET;
    assert size == 256;
  }

  /** One more full message sent: what was sent and what remains are still the whole reply. */
  lemma {:induction false} SplitStep(sent: seq<Message>, list: seq<AddrInfo>, lo: nat)
    requires lo + MAX_N_PER_PACKET < |list|
    requires sent + Split(list[lo..]) == Split(list)
    ensures var m := Message(0, NLM_F_MULTI, list[lo..lo + MAX_N_PER_PACKET]);
            sent + [m] + Split(list[lo + MAX_N_PER_PACKET..]) == Split(list)
  {
    hide Split;
    var hi := lo + MAX_N_PER_PACKET;
    SplitFirst(list[lo..]);
    Slices(list, lo, hi);
    Assoc(sent, [Message(0, NLM_F_MULTI, list[lo..hi])], Split(list[hi..]));
  }

  lemma {:induction false} SplitFirst(list: seq<AddrInfo>)
    requires MAX_N_PER_PACKET < |list|
    ensures Split(list) == [Message(0, NLM_F_MULTI, list[..MAX_N_PER_PACKET])] + Split(list[MAX_N_PER_PACKET..])
  {
  }

  lemma Slices<T>(s: seq<T>, lo: nat, hi: nat)
    requires lo <= hi <= |s|
    ensures s[lo..][..hi - lo] == s[lo..hi] && s[lo..][hi - lo..] == s[hi..]
  {
  }

  lemma {:induction false} SplitLast(list: seq<AddrInfo>, lo: nat)
    requires lo <= |list| <= lo + MAX_N_PER_PACKET
    ensures Split(list[lo..]) == [Message(NLMSG_DONE, 0, list[lo..])]
  {
  }

  /** The payloads of messages, joined. */
  function Join(messages: seq<Message>): seq<AddrInfo> {
    if |messages| == 0 then [] else messages[0].payload + Join(messages[1..])
  }

  lemma {:induction false} JoinSplit(list: seq<AddrInfo>)
    ensures Join(Split(list)) == list
  {
    if |list| > MAX_N_PER_PACKET {
      hide Join;
      var first, rest := list[..MAX_N_PER_PACKET], list[MAX_N_PER_PACKET..];
      JoinSplit(rest);
      JoinFirst(Message(0, NLM_F_MULTI, first), Split(rest));
      assert first + rest == list;
    } else {
      JoinOne(Message(NLMSG_DONE, 0, list));
    }
  }

  lemma JoinFirst(m: Message, rest: seq<Message>)
    ensures Join([m] + rest) == m.payload + Join(rest)
  {
    assert ([m] + rest)[1..] == rest;
  }

  lemma NothingJoined()
    ensures Join([]) == []
  {
  }

  lemma JoinOne(m: Message)
    ensures Join([m]) == m.payload
  {
    assert [m][1..] == [];
    assert m.payload + [] == m.payload;
  }

  /** A nonempty reply that fits needs at most `packets` messages; exactly the last one says that it is the
      last, all others are full and marked as parts of a multipart message, and none is an error. */
  lemma {:induction false} SplitFrames(list: seq<AddrInfo>, packets: nat)
    requires 1 <= |list| <= MAX_N_PER_PACKET * packets
    ensures var m := Split(list);
            && 1 <= |m| <= packets
            && (forall i :: 0 <= i < |m| ==> (m[i].msgType == NLMSG_DONE <==> i == |m| - 1))
            && (forall i :: 0 <= i < |m| ==> m[i].msgType != NLMSG_ERROR)
            && (forall i :: 0 <= i < |m| - 1 ==> m[i].flags == NLM_F_MULTI && |m[i].payload| == MAX_N_PER_PACKET)
            && 1 <= |m[|m| - 1].payload| <= MAX_N_PER_PACKET
  {
    if |list| > MAX_N_PER_PACKET {
      SplitFrames(list[MAX_N_PER_PACKET..], packets - 1);
    }
  }

  lemma {:induction false} JoinConcat(a: seq<Message>, b: seq<Message>)
    ensures Join(a + b) == Join(a) + Join(b)
  {
    if |a| == 0 {
      assert a + b == b;
      assert Join(a) + Join(b) == Join(b);
    } else {
      hide Join;
      JoinConcat(a[1..], b);
      JoinHead(a);
      TailOfConcat(a, b);
      JoinHead(a + b);
      Assoc(a[0].payload, Join(a[1..]), Join(b));
    }
  }

  lemma JoinHead(a: seq<Message>)
    requires |a| > 0
    ensures Join(a) == a[0].payload + Join(a[1..])
  {
  }

  lemma JoinNext(messages: seq<Message>, i: nat)
    requires i < |messages|
    ensures Join(messages[..i + 1]) == Join(messages[..i]) + messages[i].payload
    ensures |Join(messages[..i + 1])| <= |Join(messages)|
  {
    hide Join;
    JoinConcat(messages[..i], [messages[i]]);
    assert messages[..i + 1] == messages[..i] + [messages[i]];
    JoinOne(messages[i]);
    JoinConcat(messages[..i + 1], messages[i + 1..]);
    assert messages == messages[..i + 1] + messages[i + 1..];
  }

  /** A payload copied right behind what was copied before. */
  lemma CopiedBehind(joined: seq<AddrInfo>, was: seq<AddrInfo>, payload: seq<AddrInfo>, now: seq<AddrInfo>,
                     next: seq<AddrInfo>)
    requires |joined| + |payload| <= |was|
    requires now == joined + was[|joined|..]
    requires next == Spliced(now, |joined|, payload)
    ensures next == joined + payload + was[|joined| + |payload|..]
  {
    assert now[|joined| + |payload|..] == was[|joined| + |payload|..];
  }

  // ---- Bytes ---------------------------------------------------------------------------------

  /** The bytes that copying the payloads moves: whole entries, with their padding. */
  function CopiedBytes(messages: seq<Message>): nat {
    if |messages| == 0 then 0 else SIZEOF_ADDR_INFO * |messages[0].payload| + CopiedBytes(messages[1..])
  }

  lemma {:induction false} BytesOfSplit(list: seq<AddrInfo>)
    ensures CopiedBytes(Split(list)) == SIZEOF_ADDR_INFO * |list|
  {
    if |list| > MAX_N_PER_PACKET {
      var first, rest := Message(0, NLM_F_MULTI, list[..MAX_N_PER_PACKET]), list[MAX_N_PER_PACKET..];
      BytesOfSplit(rest);
      assert Split(list) == [first] + Split(rest);
      assert Split(list)[1..] == Split(rest);
    } else {
      assert Split(list)[1..] == [];
    }
  }

  /** The found list of the module and the candidates of the daemon have room for every reply but the longest: a
      list of `MAX_N_FIND` entries with its return code is one byte, of padding, longer than they are. */
  lemma ReplyFitsBytes(list: seq<AddrInfo>, code: AddrInfo)
    requires |list| <= MAX_N_FIND
    ensures CopiedBytes(Split(list + [code])) <= BUFFER_BYTES <==> |list| < MAX_N_FIND
    ensures |list| == MAX_N_FIND ==> CopiedBytes(Split(list + [code])) == BUFFER_BYTES + 1
  {
    BytesOfSplit(list + [code]);
  }

  /** A SWITCH makes such a list exactly when it is the largest one. */
  lemma LongestSwitch(found: seq<AddrInfo>, k: nat, nvs: seq<AddrInfo>, drs: seq<AddrInfo>)
    requires Halves(found, nvs, drs) && |nvs| == |drs| == k <= MAX_N_SWITCH
    ensures |found| <= MAX_N_FIND && (|found| == MAX_N_FIND <==> k == MAX_N_SWITCH)
  {
  }

  // ---- Finding the lists in a reply ----------------------------------------------------------

  /** The index at which the daemon's scan stops: the first entry whose pid is not positive. */
  function Scan(reply: seq<AddrInfo>): (n: nat)
    ensures n <= |reply|
    ensures forall i :: 0 <= i < n ==> reply[i].pidRetval > 0
    ensures n < |reply| ==> reply[n].pidRetval <= 0
  {
    if |reply| == 0 || reply[0].pidRetval <= 0 then 0 else 1 + Scan(reply[1..])
  }

  lemma ScanUnique(reply: seq<AddrInfo>, n: nat)
    requires n < |reply| && reply[n].pidRetval <= 0
    requires forall i :: 0 <= i < n ==> reply[i].pidRetval > 0
    ensures Scan(reply) == n
  {
  }

  ghost predicate PositivePids(list: seq<AddrInfo>) {
    forall i :: 0 <= i < |list| ==> list[i].pidRetval > 0
  }

  /** Whatever is left in the daemon's buffer behind it, the scan of a one-list reply finds its length. */
  lemma {:induction false} ScanFindsList(list: seq<AddrInfo>, code: AddrInfo, stale: seq<AddrInfo>)
    requires PositivePids(list) && code.pidRetval <= 0
    ensures Scan(list + [code] + stale) == |list|
  {
    ScanUnique(list + [code] + stale, |list|);
  }

  /** The scan of a SWITCH reply stops at the separator, and the DRAM half is where the daemon indexes it. */
  lemma {:induction false} ScanFindsSwitch(found: seq<AddrInfo>, nvs: seq<AddrInfo>, drs: seq<AddrInfo>,
                                           code: AddrInfo, stale: seq<AddrInfo>)
    requires Halves(found, nvs, drs) && PositivePids(nvs)
    ensures var buffer := found + [code] + stale;
            && Scan(buffer) == |nvs|
            && buffer[..|nvs|] == nvs
            && (forall j :: 0 <= j < |drs| ==> buffer[|nvs| + 1 + j] == drs[j])
            && buffer[|nvs| + 1 + |drs|] == code
  {
    var buffer := found + [code] + stale;
    HalvesAt(found, nvs, drs);
    assert buffer[..|nvs|] == found[..|nvs|];
    ScanUnique(buffer, |nvs|);
  }

  // ---- The pids in a reply are managed pids --------------------------------------------------

  lemma {:induction false} StretchesPids(cb: Callback, tasks: seq<int>, mem: Memory, p: nat, addr: nat, j: nat)
    requires p < |tasks| && j <= |tasks| + 1
    ensures forall v :: v in Stretches(cb, tasks, mem, p, addr, j) ==> v.pid in tasks
  {
    if j > 0 {
      StretchesPids(cb, tasks, mem, p, addr, j - 1);
      var s := Stretch(cb, tasks, mem, p, addr, j - 1);
      forall k | 0 <= k < |s| ensures s[k].pid in tasks {
        if j - 1 == 0 {
          SegmentPids(mem, tasks[p], addr, MAX_ADDRESS);
        } else if j - 1 < |tasks| {
          SegmentPids(mem, tasks[SlotAfter(p, j - 1, |tasks|)], 0, MAX_ADDRESS);
        } else {
          SegmentPids(TouchAll(cb, mem, Stretch(cb, tasks, mem, p, addr, 0)), tasks[p], 0, addr + 1);
        }
      }
    }
  }

  /** Every selected entry carries the pid of a managed task. */
  lemma SelectedPids(cb: Callback, need: nat, tasks: seq<int>, mem: Memory, p: nat, addr: nat, e: AddrInfo)
    requires p < |tasks| && e in Selected(cb, need, Cycle(cb, tasks, mem, p, addr))
    ensures e.pidRetval in tasks
  {
    var vs := Cycle(cb, tasks, mem, p, addr);
    StretchesPids(cb, tasks, mem, p, addr, |tasks| + 1);
    PrimaryProvenance(cb, vs, e);
    BackupProvenance(cb, vs, e);
    assert e in Primaries(cb, vs) + Backups(cb, vs);
  }

  lemma SelectedPositive(cb: Callback, need: nat, tasks: seq<int>, mem: Memory, p: nat, addr: nat)
    requires p < |tasks| && forall t :: t in tasks ==> t > 0
    ensures PositivePids(Selected(cb, need, Cycle(cb, tasks, mem, p, addr)))
  {
    var s := Selected(cb, need, Cycle(cb, tasks, mem, p, addr));
    forall i | 0 <= i < |s| ensures s[i].pidRetval > 0 {
      SelectedPids(cb, need, tasks, mem, p, addr, s[i]);
    }
  }
}
