/** The daemon's three threads, their two locks and the buffers they share. */
module Threads {
  import opened Ambix
  import opened Multipart
  import opened SwitchSpec

  // The threads, by index.
  const STDIN: nat := 0
  const SOCKET: nat := 1
  const MEMCHECK: nat := 2

  /** Where a thread is. The first three are outside `send_req`; `WantComm` to `Received` are inside it;
      `Acting` is between `send_req` and the end of `send_find`, `send_bind` or `send_unbind`. */
  datatype Pc =
    | Idle | WantPlacement | HavePlacement
    | WantComm | HaveComm | Written | Sent | Received
    | Acting

  /** `find` and `tag` describe the request a thread is in the middle of; `copied` is the loop counter of
      the reassembly, and `retval` the private buffer of bind and unbind requests. */
  datatype Thread = Thread(pc: Pc, find: bool, tag: nat, copied: nat, retval: seq<AddrInfo>)

  /** A reply in the socket or in the shared receive buffer: the request it answers, and its messages. */
  datatype Reply = Reply(tag: nat, messages: seq<Message>)

  datatype Lock = Free | HeldBy(owner: nat)

  /** Everything the threads share; `answers` remembers what the module replied to which request. */
  datatype State = State(
    threads: seq<Thread>,
    placement: Lock,
    comm: Lock,
    outBuffer: nat,
    queue: seq<Reply>,
    inBuffer: Reply,
    candidates: seq<AddrInfo>,
    nextTag: nat,
    answers: map<nat, seq<Message>>)

  predicate InsideComm(t: Thread) {
    t.pc.HaveComm? || t.pc.Written? || t.pc.Sent? || t.pc.Received?
  }

  predicate InRequest(t: Thread) {
    InsideComm(t) || t.pc.WantComm? || t.pc.Acting?
  }

  predicate NeedsPlacement(t: Thread) {
    t.pc.HavePlacement? || (t.find && InRequest(t))
  }

  /** The buffer a thread's reply is copied into. */
  function Target(s: State, i: nat): seq<AddrInfo>
    requires i < |s.threads|
  {
    if s.threads[i].find then s.candidates else s.threads[i].retval
  }

  /** How many entries the buffers have: the candidates, and the private buffer of a bind or unbind request. */
  function Capacity(find: bool): nat {
    if find then MAX_N_FIND + 1 else 1
  }

  /** A reply as the module sends them: a list with its return code, split into messages; for bind and unbind only
      the code. */
  ghost predicate IsReply(find: bool, messages: seq<Message>) {
    exists list :: 1 <= |list| <= Capacity(find) && messages == Split(list)
  }

  function SetThread(s: State, i: nat, t: Thread): State
    requires i < |s.threads|
  {
    s.(threads := s.threads[i := t])
  }

  // ---- Steps -----------------------------------------------------------------------------------

  datatype Action =
    | StartBind | StartFind | LockPlacement | NextFind | UnlockPlacement
    | LockComm | WriteRequest | SendRequest(messages: seq<Message>) | ReceiveReply | CopyMessage | UnlockComm | Finish

  /** Thread `i` can take this action now. Only the stdin and socket threads bind, only the stdin and memcheck
      threads ask for pages; a lock can be taken when it is free, a reply received when there is one. */
  ghost predicate Enabled(s: State, i: nat, a: Action)
    requires i < |s.threads|
  {
    var t := s.threads[i];
    match a
    case StartBind => t.pc.Idle? && i != MEMCHECK
    case StartFind => t.pc.Idle? && i != SOCKET
    case LockPlacement => t.pc.WantPlacement? && s.placement.Free?
    case NextFind => t.pc.HavePlacement?
    case UnlockPlacement => t.pc.HavePlacement?
    case LockComm => t.pc.WantComm? && s.comm.Free?
    case WriteRequest => t.pc.HaveComm?
    case SendRequest(messages) => t.pc.Written? && IsReply(t.find, messages)
    case ReceiveReply => t.pc.Sent? && |s.queue| > 0
    case CopyMessage =>
      && t.pc.Received? && t.copied < |s.inBuffer.messages|
      && |Join(s.inBuffer.messages[..t.copied + 1])| <= |Target(s, i)|
      && |Join(s.inBuffer.messages[..t.copied])| + |s.inBuffer.messages[t.copied].payload| <= |Target(s, i)|
    case UnlockComm => t.pc.Received? && t.copied == |s.inBuffer.messages|
    case Finish => t.pc.Acting?
  }

  /** What the action does. The module answers a request while it is being sent, so the reply is in the queue
      when `sendmsg` returns. */
  ghost function Step(s: State, i: nat, a: Action): (r: State)
    requires i < |s.threads| && Enabled(s, i, a)
    ensures |r.threads| == |s.threads|
  {
    var t := s.threads[i];
    match a
    case StartBind => SetThread(s, i, t.(pc := WantComm, find := false, tag := s.nextTag)).(nextTag := s.nextTag + 1)
    case StartFind => SetThread(s, i, t.(pc := WantPlacement))
    case LockPlacement => SetThread(s, i, t.(pc := HavePlacement)).(placement := HeldBy(i))
    case NextFind => SetThread(s, i, t.(pc := WantComm, find := true, tag := s.nextTag)).(nextTag := s.nextTag + 1)
    case UnlockPlacement => SetThread(s, i, t.(pc := Idle)).(placement := Free)
    case LockComm => SetThread(s, i, t.(pc := HaveComm)).(comm := HeldBy(i))
    case WriteRequest => SetThread(s, i, t.(pc := Written)).(outBuffer := t.tag)
    case SendRequest(messages) =>
      SetThread(s, i, t.(pc := Sent)).(queue := s.queue + [Reply(s.outBuffer, messages)],
                                       answers := s.answers[s.outBuffer := messages])
    case ReceiveReply =>
      SetThread(s, i, t.(pc := Received, copied := 0)).(inBuffer := s.queue[0], queue := s.queue[1..])
    case CopyMessage =>
      var at := |Join(s.inBuffer.messages[..t.copied])|;
      var copy := Spliced(Target(s, i), at, s.inBuffer.messages[t.copied].payload);
      if t.find then SetThread(s, i, t.(copied := t.copied + 1)).(candidates := copy)
      else SetThread(s, i, t.(copied := t.copied + 1, retval := copy))
    case UnlockComm => SetThread(s, i, t.(pc := Acting)).(comm := Free)
    case Finish => SetThread(s, i, t.(pc := if t.find then HavePlacement else Idle))
  }

  predicate Init(s: State) {
    && |s.threads| == 3 && (forall i :: 0 <= i < 3 ==> s.threads[i].pc.Idle?)
    && s.placement.Free? && s.comm.Free? && s.queue == []
    && |s.candidates| == Capacity(true) && (forall i :: 0 <= i < 3 ==> |s.threads[i].retval| == Capacity(false))
  }

  // ---- The invariant -----------------------------------------------------------------------------

  /** The reply to its own request is in the thread's buffer, as far as it has been copied. */
  ghost predicate HasCopied(s: State, i: nat, count: nat)
    requires i < |s.threads|
  {
    var t := s.threads[i];
    && t.tag in s.answers && count <= |s.answers[t.tag]|
    && |Join(s.answers[t.tag])| <= |Target(s, i)|
    && var part := Join(s.answers[t.tag][..count]);
       |part| <= |Target(s, i)| && Target(s, i)[..|part|] == part
  }

  /** What holds of one thread. */
  ghost predicate ThreadOk(s: State, i: nat)
    requires i < |s.threads|
  {
    var t := s.threads[i];
    && (InsideComm(t) <==> s.comm == HeldBy(i))
    && (NeedsPlacement(t) <==> s.placement == HeldBy(i))
    && (InRequest(t) ==> t.tag < s.nextTag)
    && (t.pc.Written? ==> s.outBuffer == t.tag)
    && (t.pc.Sent? ==>
          && t.tag in s.answers && s.queue == [Reply(t.tag, s.answers[t.tag])]
          && |Join(s.answers[t.tag])| <= |Target(s, i)|)
    && (t.pc.Received? ==>
          && HasCopied(s, i, t.copied) && s.inBuffer == Reply(t.tag, s.answers[t.tag]))
    && (t.pc.Acting? ==> t.tag in s.answers && HasCopied(s, i, |s.answers[t.tag]|))
  }

  ghost predicate Inv(s: State) {
    && |s.threads| == 3
    && |s.candidates| == Capacity(true) && (forall i :: 0 <= i < 3 ==> |s.threads[i].retval| == Capacity(false))
    && (forall i :: 0 <= i < 3 ==> ThreadOk(s, i))
    && (forall i, j :: 0 <= i < j < 3 && InRequest(s.threads[i]) && InRequest(s.threads[j]) ==>
          s.threads[i].tag != s.threads[j].tag)
    && (s.comm.HeldBy? ==> s.comm.owner < 3)
    && (s.placement.HeldBy? ==> s.placement.owner < 3)
    && (s.queue != [] ==> s.comm.HeldBy? && s.threads[s.comm.owner].pc.Sent?)
  }

  lemma InitInv(s: State)
    requires Init(s)
    ensures Inv(s)
  {
  }

  lemma ReplyFits(find: bool, messages: seq<Message>)
    requires IsReply(find, messages)
    ensures 1 <= |Join(messages)| <= Capacity(find)
  {
    var list :| 1 <= |list| <= Capacity(find) && messages == Split(list);
    JoinSplit(list);
  }

  lemma SendInv(s: State, i: nat, messages: seq<Message>)
    requires Inv(s) && i < 3 && Enabled(s, i, SendRequest(messages))
    ensures Inv(Step(s, i, SendRequest(messages)))
  {
    hide Join;
    var r := Step(s, i, SendRequest(messages));
    assert ThreadOk(s, i);
    assert s.queue == [];
    ReplyFits(s.threads[i].find, messages);
    forall k | 0 <= k < 3 ensures ThreadOk(r, k) {
      assert ThreadOk(s, k) && ThreadOk(s, i);
    }
  }

  lemma ReceiveInv(s: State, i: nat)
    requires Inv(s) && i < 3 && Enabled(s, i, ReceiveReply)
    ensures Inv(Step(s, i, ReceiveReply))
  {
    hide Join;
    var r := Step(s, i, ReceiveReply);
    var t := s.threads[i];
    assert ThreadOk(s, i);
    assert s.answers[t.tag][..0] == [];
    NothingJoined();
    forall k | 0 <= k < 3 ensures ThreadOk(r, k) {
      assert ThreadOk(s, k);
    }
  }

  lemma CopyInv(s: State, i: nat)
    requires Inv(s) && i < 3 && Enabled(s, i, CopyMessage)
    ensures Inv(Step(s, i, CopyMessage))
  {
    hide Join;
    var r := Step(s, i, CopyMessage);
    var t := s.threads[i];
    assert ThreadOk(s, i);
    var answer := s.answers[t.tag];
    JoinNext(answer, t.copied);
    var before, now := Target(s, i), Target(r, i);
    var part, payload := Join(answer[..t.copied]), answer[t.copied].payload;
    assert now[..|part| + |payload|] == before[..|part|] + payload;
    forall k | 0 <= k < 3 ensures ThreadOk(r, k) {
      assert ThreadOk(s, k);
    }
  }

  lemma UnlockInv(s: State, i: nat)
    requires Inv(s) && i < 3 && Enabled(s, i, UnlockComm)
    ensures Inv(Step(s, i, UnlockComm))
  {
    hide Join;
    var r := Step(s, i, UnlockComm);
    var t := s.threads[i];
    assert ThreadOk(s, i);
    assert s.queue == [] && t.copied == |s.answers[t.tag]|;
    assert HasCopied(r, i, t.copied);
    forall k | 0 <= k < 3 ensures ThreadOk(r, k) {
      assert ThreadOk(s, k);
    }
  }

  /** A thread that starts a request takes a tag that no other request has. */
  lemma NewRequestInv(s: State, i: nat, a: Action)
    requires Inv(s) && i < 3 && (a.StartBind? || a.NextFind?) && Enabled(s, i, a)
    ensures Inv(Step(s, i, a))
  {
    hide Join, HasCopied;
    var r := Step(s, i, a);
    forall k | 0 <= k < 3
      ensures ThreadOk(r, k)
      ensures k != i && InRequest(r.threads[k]) ==> r.threads[k].tag < r.threads[i].tag
    {
      assert ThreadOk(s, k) && ThreadOk(s, i);
      KeepsCopied(s, r, k);
    }
  }

  lemma PlacementInv(s: State, i: nat, a: Action)
    requires Inv(s) && i < 3 && (a.StartFind? || a.LockPlacement? || a.UnlockPlacement?) && Enabled(s, i, a)
    ensures Inv(Step(s, i, a))
  {
    hide Join, HasCopied;
    var r := Step(s, i, a);
    forall k | 0 <= k < 3 ensures ThreadOk(r, k) {
      assert ThreadOk(s, k) && ThreadOk(s, i);
      KeepsCopied(s, r, k);
    }
  }

  lemma CommInv(s: State, i: nat, a: Action)
    requires Inv(s) && i < 3 && (a.LockComm? || a.WriteRequest? || a.Finish?) && Enabled(s, i, a)
    ensures Inv(Step(s, i, a))
  {
    hide Join, HasCopied;
    var r := Step(s, i, a);
    forall k | 0 <= k < 3 ensures ThreadOk(r, k) {
      assert ThreadOk(s, k) && ThreadOk(s, i);
      KeepsCopied(s, r, k);
    }
  }

  /** Steps that leave the buffers, the answers and the thread alone leave what it has copied alone. */
  lemma KeepsCopied(s: State, r: State, k: nat)
    requires k < |s.threads| == |r.threads|
    requires r.candidates == s.candidates && r.answers == s.answers
    ensures r.threads[k] == s.threads[k] ==> forall count :: HasCopied(s, k, count) ==> HasCopied(r, k, count)
  {
  }

  /** Every step of every thread keeps the invariant. */
  lemma StepInv(s: State, i: nat, a: Action)
    requires Inv(s) && i < 3 && Enabled(s, i, a)
    ensures Inv(Step(s, i, a))
  {
    hide Inv, Step;
    match a {
      case SendRequest(messages) => SendInv(s, i, messages);
      case ReceiveReply => ReceiveInv(s, i);
      case CopyMessage => CopyInv(s, i);
      case UnlockComm => UnlockInv(s, i);
      case StartBind => NewRequestInv(s, i, a);
      case NextFind => NewRequestInv(s, i, a);
      case StartFind => PlacementInv(s, i, a);
      case LockPlacement => PlacementInv(s, i, a);
      case UnlockPlacement => PlacementInv(s, i, a);
      case LockComm => CommInv(s, i, a);
      case WriteRequest => CommInv(s, i, a);
      case Finish => CommInv(s, i, a);
    }
  }

  // ---- What the invariant is for -----------------------------------------------------------------

  /** An interleaving: any sequence of steps of any threads from an initial state. */
  ghost predicate IsExecution(states: seq<State>, movers: seq<nat>, actions: seq<Action>) {
    && |states| == |movers| + 1 == |actions| + 1
    && Init(states[0])
    && forall k :: 0 <= k < |movers| ==>
         && movers[k] < 3 && movers[k] < |states[k].threads|
         && Enabled(states[k], movers[k], actions[k])
         && states[k + 1] == Step(states[k], movers[k], actions[k])
  }

  lemma {:induction false} ExecutionInv(states: seq<State>, movers: seq<nat>, actions: seq<Action>, k: nat)
    requires IsExecution(states, movers, actions) && k < |states|
    ensures Inv(states[k])
    decreases k
  {
    hide Inv, Step, Enabled;
    if k == 0 {
      InitInv(states[0]);
    } else {
      ExecutionInv(states, movers, actions, k - 1);
      assert states[k - 1 + 1] == Step(states[k - 1], movers[k - 1], actions[k - 1]);
      StepInv(states[k - 1], movers[k - 1], actions[k - 1]);
    }
  }

  /** In every interleaving, a thread that acts on a reply has in its buffer the module's reply to its own
      request, complete; what it receives is the reply to what it sent; nothing is left in the socket while
      the communication lock is free; and at most one thread is inside either lock. */
  lemma RepliesReachTheirThreads(states: seq<State>, movers: seq<nat>, actions: seq<Action>, k: nat, i: nat)
    requires IsExecution(states, movers, actions) && k < |states| && i < 3
    ensures |states[k].threads| == 3
    ensures var s := states[k];
            var t := s.threads[i];
            && (t.pc.Acting? ==> t.tag in s.answers && Join(s.answers[t.tag]) <= Target(s, i))
            && (t.pc.Sent? ==> t.tag in s.answers && s.queue == [Reply(t.tag, s.answers[t.tag])])
            && (s.comm.Free? ==> s.queue == [])
            && (forall j :: 0 <= j < 3 && j != i && InsideComm(t) ==> !InsideComm(s.threads[j]))
            && (forall j :: 0 <= j < 3 && j != i && NeedsPlacement(t) ==> !NeedsPlacement(s.threads[j]))
  {
    hide Join, Step;
    ExecutionInv(states, movers, actions, k);
    var s := states[k];
    var t := s.threads[i];
    assert ThreadOk(s, i);
    if t.pc.Acting? {
      assert s.answers[t.tag][..|s.answers[t.tag]|] == s.answers[t.tag];
    }
    forall j | 0 <= j < 3 && j != i
      ensures InsideComm(t) ==> !InsideComm(s.threads[j])
      ensures NeedsPlacement(t) ==> !NeedsPlacement(s.threads[j])
    {
      assert ThreadOk(s, j);
    }
  }

  /** The candidates that a thread migrates stay as they are until it is done, whatever the others do. */
  lemma CandidatesAreStable(s: State, i: nat, j: nat, a: Action)
    requires Inv(s) && i < 3 && j < 3 && i != j && s.threads[i].pc.Acting? && s.threads[i].find
    requires Enabled(s, j, a)
    ensures Step(s, j, a).candidates == s.candidates && Step(s, j, a).threads[i] == s.threads[i]
  {
    hide Join;
    assert ThreadOk(s, i) && ThreadOk(s, j);
  }

  /** No deadlock: whenever some thread is in the middle of something, some such thread can take a step. */
  lemma NoDeadlock(s: State, i: nat)
    requires Inv(s) && i < 3 && !s.threads[i].pc.Idle?
    ensures exists j, a :: 0 <= j < 3 && !s.threads[j].pc.Idle? && Enabled(s, j, a)
  {
    if s.comm.HeldBy? {
      CommOwnerMoves(s, s.comm.owner);
    } else {
      var k := if s.placement.HeldBy? then s.placement.owner else i;
      OutsiderMoves(s, k);
    }
  }

  /** The owner of the communication lock is never blocked: any reply the module can send fits, and there is one. */
  lemma CommOwnerMoves(s: State, i: nat)
    requires Inv(s) && i < 3 && s.comm == HeldBy(i)
    ensures exists a :: Enabled(s, i, a)
    ensures s.threads[i].pc.Written? ==>
              forall messages :: IsReply(s.threads[i].find, messages) ==> Enabled(s, i, SendRequest(messages))
    ensures s.threads[i].pc.Received? && s.threads[i].copied < |s.inBuffer.messages| ==> Enabled(s, i, CopyMessage)
    ensures !s.threads[i].pc.Idle?
  {
    var t := s.threads[i];
    assert ThreadOk(s, i);
    if t.pc.HaveComm? {
      assert Enabled(s, i, WriteRequest);
    } else if t.pc.Written? {
      var list := [AddrInfo(0, 0)];
      assert IsReply(t.find, Split(list));
      assert Enabled(s, i, SendRequest(Split(list)));
    } else if t.pc.Sent? {
      assert Enabled(s, i, ReceiveReply);
    } else if t.copied == |s.inBuffer.messages| {
      assert Enabled(s, i, UnlockComm);
    } else {
      JoinNext(s.inBuffer.messages, t.copied);
      assert Enabled(s, i, CopyMessage);
    }
  }

  /** While the communication lock is free, a thread that holds the placement lock, or is not waiting for
      it in vain, is not blocked. */
  lemma OutsiderMoves(s: State, i: nat)
    requires Inv(s) && i < 3 && s.comm.Free?
    requires s.placement == HeldBy(i) || (s.placement.Free? && !s.threads[i].pc.Idle?)
    ensures exists a :: Enabled(s, i, a)
    ensures !s.threads[i].pc.Idle?
  {
    hide Join;
    var t := s.threads[i];
    assert ThreadOk(s, i);
    if t.pc.WantPlacement? {
      assert Enabled(s, i, LockPlacement);
    } else if t.pc.HavePlacement? {
      assert Enabled(s, i, NextFind);
    } else if t.pc.WantComm? {
      assert Enabled(s, i, LockComm);
    } else {
      assert Enabled(s, i, Finish);
    }
  }
}
