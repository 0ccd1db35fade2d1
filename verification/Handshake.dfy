/**
 The subscription handshake of north_data_communicate_stack.cpp. A timer thread
 repeats three requests until each is acknowledged; an epoll thread takes the
 replies and the pushed batches. They share four flags without a lock, so every
 read and every write of a flag is a step of its own, and steps interleave freely.
 */
module Handshake {
  import opened PushedData

  datatype Request = SubItem | SetPushMethod | Suspend

  /** `is_successful_request_fcs_send_item_semaphore_` and the three `north_chat_*_semaphore_`. */
  datatype Flags = Flags(success: bool, subItem: bool, setPushMethod: bool, suspend: bool) {
    predicate Pending(r: Request) {
      match r
      case SubItem => subItem
      case SetPushMethod => setPushMethod
      case Suspend => suspend
    }

    predicate AllDown() {
      !subItem && !setPushMethod && !suspend
    }

    function Clear(r: Request): Flags {
      match r
      case SubItem => this.(subItem := false)
      case SetPushMethod => this.(setPushMethod := false)
      case Suspend => this.(suspend := false)
    }
  }

  /** The flags as the constructor leaves them. */
  const INITIAL := Flags(false, true, true, true)

  // ---------- The timer thread ----------

  /** Where the timer thread stands: each of these is about to do the one thing it is called after. */
  datatype TimerPc =
    | Off | Armed | ReadSuccess
    | Ask(r: Request) | DoSend(r: Request)
    | Test(r: Request) | SetSuccess | DoRearm | Ended

  datatype Action = Start | Silent | Fire | Send(r: Request) | Succeed | Rearm

  /** One step of `RunSubItemFromFcs` and of the timer around it. */
  function TimerStep(pc: TimerPc, f: Flags): (TimerPc, Flags, Action) {
    match pc
    case Off => (Armed, f, Start)
    case Armed => (ReadSuccess, f, Fire)
    case ReadSuccess => (if f.success then Ended else Ask(SubItem), f, Silent)
    case Ask(r) => (if f.Pending(r) then DoSend(r) else AfterAsk(r), f, Silent)
    case DoSend(r) => (AfterAsk(r), f, Send(r))
    case Test(r) => (if f.Pending(r) then DoRearm else AfterTest(r), f, Silent)
    case SetSuccess => (Ended, f.(success := true), Succeed)
    case DoRearm => (Armed, f, Rearm)
    case Ended => (Ended, f, Silent)
  }

  function AfterAsk(r: Request): TimerPc {
    match r
    case SubItem => Ask(SetPushMethod)
    case SetPushMethod => Ask(Suspend)
    case Suspend => Test(SubItem)
  }

  /** The final test reads the flags in another order than the sends do. */
  function AfterTest(r: Request): TimerPc {
    match r
    case SubItem => Test(Suspend)
    case Suspend => Test(SetPushMethod)
    case SetPushMethod => SetSuccess
  }

  // ---------- The epoll thread ----------

  datatype Message = Reply(r: Request, code: nat) | Push(items: seq<Item>) | Other

  /** `ParseNorthMsg`, flag access by flag access. */
  datatype EpollPc =
    | Idle | Replied(r: Request, code: nat) | Clearing(r: Request)
    | Pushed(items: seq<Item>) | SawServer(items: seq<Item>) | Delivering(items: seq<Item>)

  datatype EpollAction = Read | Lower(r: Request) | Write(items: seq<Item>)

  function Accept(m: Message): EpollPc {
    match m
    case Reply(r, code) => Replied(r, code)
    case Push(items) => Pushed(items)
    case Other => Idle
  }

  function EpollStep(pc: EpollPc, f: Flags, server: bool): (EpollPc, Flags, EpollAction) {
    match pc
    case Idle => (Idle, f, Read)
    case Replied(r, code) => (if f.Pending(r) && code == 200 then Clearing(r) else Idle, f, Read)
    case Clearing(r) => (Idle, f.Clear(r), Lower(r))
    case Pushed(items) => (if server then SawServer(items) else Idle, f, Read)
    case SawServer(items) => (if f.success then Delivering(items) else Idle, f, Read)
    case Delivering(items) => (Idle, f, Write(items))
  }

  /** A double, of which nothing but equality matters here. */
  datatype Double = Double(bits: nat)

  /** What the item ids stand for, and how texts become doubles. */
  datatype World = World(target: string -> Target, toDouble: string -> Double)

  /** What an action of the epoll thread leaves in the server's nodes. */
  ghost predicate NodesAfter(w: World, a: EpollAction, before: map<Target, Double>, nodes: map<Target, Double>) {
    match a
    case Write(items) => Written(nodes, before, Batch(items), Batch(items).Keys, w.target, w.toDouble)
    case _ => nodes == before
  }

  // ---------- The machine ----------

  datatype Event =
    | Publish                 // the main thread stores the server pointer
    | Tick(a: Action)         // the timer thread steps
    | Receive(m: Message)     // a message arrives, asked for or not
    | Handle(b: EpollAction)  // the epoll thread steps

  /** `got` records which requests a reply with code 200 has been received for. */
  datatype State = State(timer: TimerPc, epoll: EpollPc, server: bool, flags: Flags, got: set<Request>,
                         nodes: map<Target, Double>)

  ghost predicate Init(s: State) {
    s == State(Off, Idle, false, INITIAL, {}, s.nodes)
  }

  ghost predicate Next(w: World, s: State, e: Event, s': State) {
    match e
    case Publish => s' == s.(server := true)
    case Tick(a) =>
      var (pc, f, b) := TimerStep(s.timer, s.flags);
      s.timer != Ended && a == b && s' == s.(timer := pc, flags := f)
    case Receive(m) =>
      && s.epoll == Idle
      && s' == s.(epoll := Accept(m), got := if m.Reply? && m.code == 200 then s.got + {m.r} else s.got)
    case Handle(a) =>
      var (pc, f, b) := EpollStep(s.epoll, s.flags, s.server);
      && s.epoll != Idle && a == b
      && s' == s.(epoll := pc, flags := f, nodes := s'.nodes)
      && NodesAfter(w, a, s.nodes, s'.nodes)
  }

  /** An interleaving: states and the events between them. */
  datatype Run = Run(world: World, states: seq<State>, events: seq<Event>)

  ghost predicate IsRun(run: Run) {
    && |run.states| == |run.events| + 1
    && Init(run.states[0])
    && forall i :: 0 <= i < |run.events| ==> StepAt(run, i)
  }

  ghost predicate StepAt(run: Run, i: int)
    requires |run.states| == |run.events| + 1 && 0 <= i < |run.events|
  {
    Next(run.world, run.states[i], run.events[i], run.states[i + 1])
  }

  // ---------- The invariant ----------

  /** What a timer position says about the flags that it has passed. */
  ghost predicate Passed(pc: TimerPc, f: Flags) {
    match pc
    case Test(Suspend) => !f.subItem
    case Test(SetPushMethod) => !f.subItem && !f.suspend
    case SetSuccess => f.AllDown()
    case _ => true
  }

  ghost predicate Inv(s: State) {
    && (forall r :: r !in s.got ==> s.flags.Pending(r))
    && (s.epoll.Clearing? ==> s.epoll.r in s.got)
    && (s.epoll.Replied? && s.epoll.code == 200 ==> s.epoll.r in s.got)
    && Passed(s.timer, s.flags)
    && (s.flags.success <==> s.timer == Ended)
    && (s.flags.success ==> s.flags.AllDown())
    && (s.epoll.SawServer? ==> s.server)
    && (s.epoll.Delivering? ==> s.server && s.flags.success)
  }

  lemma StepKeepsInv(w: World, s: State, e: Event, s': State)
    requires Inv(s) && Next(w, s, e, s')
    ensures Inv(s')
  {}

  lemma {:induction false} RunKeepsInv(run: Run, i: nat)
    requires IsRun(run) && i < |run.states|
    ensures Inv(run.states[i])
  {
    if i > 0 {
      RunKeepsInv(run, i - 1);
      assert StepAt(run, i - 1);
      StepKeepsInv(run.world, run.states[i - 1], run.events[i - 1], run.states[i]);
    }
  }

  // ---------- Safety ----------

  /** Pending flags only go down and the success flag only goes up, in every interleaving. */
  lemma {:induction false} FlagsAreMonotone(run: Run, i: nat, j: nat)
    requires IsRun(run) && i <= j < |run.states|
    ensures forall r :: run.states[j].flags.Pending(r) ==> run.states[i].flags.Pending(r)
    ensures run.states[i].flags.success ==> run.states[j].flags.success
    ensures run.states[i].got <= run.states[j].got
    decreases j
  {
    if i < j {
      FlagsAreMonotone(run, i, j - 1);
      assert StepAt(run, j - 1);
    }
  }

  /** `m` was received before step `j`. */
  ghost predicate Received(run: Run, m: Message, j: nat) {
    exists i :: 0 <= i < j && i < |run.events| && run.events[i] == Receive(m)
  }

  lemma {:induction false} GotWasReceived(run: Run, r: Request, j: nat)
    requires IsRun(run) && j < |run.states| && r in run.states[j].got
    ensures Received(run, Reply(r, 200), j)
  {
    if j > 0 {
      assert StepAt(run, j - 1);
      if r in run.states[j - 1].got {
        GotWasReceived(run, r, j - 1);
      } else {
        assert run.events[j - 1] == Receive(Reply(r, 200));
      }
    }
  }

  /** A flag is down only after its own request's 200 reply: another request's reply, or a refusal, never lowers it. */
  lemma FlagNeedsItsReply(run: Run, r: Request, j: nat)
    requires IsRun(run) && j < |run.states| && !run.states[j].flags.Pending(r)
    ensures Received(run, Reply(r, 200), j)
  {
    RunKeepsInv(run, j);
    GotWasReceived(run, r, j);
  }

  /** A flag does not wait for its request: a 200 reply lowers it although nothing was ever sent. */
  lemma UnaskedReplyCounts(r: Request, w: World, nodes: map<Target, Double>)
    ensures exists run ::
      && IsRun(run) && run.world == w && run.states[0].nodes == nodes
      && !run.states[|run.events|].flags.Pending(r)
      && forall e :: e in run.events ==> !e.Tick?
  {
    var s0 := State(Off, Idle, false, INITIAL, {}, nodes);
    var s1 := s0.(epoll := Replied(r, 200), got := {r});
    var s2 := s1.(epoll := Clearing(r));
    var s3 := s2.(epoll := Idle, flags := INITIAL.Clear(r));
    var run := Run(w, [s0, s1, s2, s3], [Receive(Reply(r, 200)), Handle(Read), Handle(Lower(r))]);
    assert {} + {r} == {r};
    assert Next(w, s0, run.events[0], s1) && Next(w, s1, run.events[1], s2) && Next(w, s2, run.events[2], s3);
    assert StepAt(run, 0) && StepAt(run, 1) && StepAt(run, 2);
  }

  /** Success implies that all three flags are down, each by its own reply. */
  lemma SuccessNeedsAllReplies(run: Run, r: Request, j: nat)
    requires IsRun(run) && j < |run.states| && run.states[j].flags.success
    ensures !run.states[j].flags.Pending(r) && Received(run, Reply(r, 200), j)
  {
    RunKeepsInv(run, j);
    FlagNeedsItsReply(run, r, j);
  }

  /** The message that the epoll thread is at work on. */
  ghost predicate WorksOn(pc: EpollPc, m: Message) {
    match pc
    case Idle => true
    case Replied(r, code) => m == Reply(r, code)
    case Clearing(r) => m == Reply(r, 200)
    case _ => m == Push(pc.items)
  }

  /** `m` was the last message to arrive before step `j`. */
  ghost predicate LastReceived(run: Run, m: Message, j: nat) {
    exists i ::
      && 0 <= i < j && i < |run.events| && run.events[i] == Receive(m)
      && forall k :: i < k < j && k < |run.events| ==> !run.events[k].Receive?
  }

  lemma {:induction false} WorksOnLastReceived(run: Run, j: nat)
    requires IsRun(run) && j < |run.states| && run.states[j].epoll != Idle
    ensures exists m :: LastReceived(run, m, j) && WorksOn(run.states[j].epoll, m)
  {
    assert StepAt(run, j - 1);
    match run.events[j - 1]
    case Receive(m) =>
      assert LastReceived(run, m, j);
    case _ =>
      WorksOnLastReceived(run, j - 1);
      var m :| LastReceived(run, m, j - 1) && WorksOn(run.states[j - 1].epoll, m);
      assert LastReceived(run, m, j);
  }

  /**
   A batch is written only after the server has been published, every request
   has been answered with 200, and success has been set; and it is the batch of
   the last message that arrived.
   */
  lemma NoDeliveryBeforeSuccess(run: Run, r: Request, items: seq<Item>, j: nat)
    requires IsRun(run) && j < |run.events| && run.events[j] == Handle(Write(items))
    ensures run.states[j].server && run.states[j].flags.success && Received(run, Reply(r, 200), j)
    ensures LastReceived(run, Push(items), j)
  {
    RunKeepsInv(run, j);
    assert StepAt(run, j);
    SuccessNeedsAllReplies(run, r, j);
    WorksOnLastReceived(run, j);
  }

  /** Until success is set, every node keeps the value it had at the start. */
  lemma {:induction false} NodesWaitForSuccess(run: Run, j: nat)
    requires IsRun(run) && j < |run.states| && !run.states[j].flags.success
    ensures run.states[j].nodes == run.states[0].nodes
  {
    if j > 0 {
      FlagsAreMonotone(run, j - 1, j);
      NodesWaitForSuccess(run, j - 1);
      RunKeepsInv(run, j - 1);
      assert StepAt(run, j - 1);
    }
  }

  /** The epoll thread can always finish the message it is at work on. */
  lemma EpollNeverStuck(w: World, s: State)
    requires s.epoll != Idle
    ensures exists a, s' :: Next(w, s, Handle(a), s')
  {
    var (pc, f, a) := EpollStep(s.epoll, s.flags, s.server);
    var nodes := s.nodes;
    if a.Write? { nodes := WrittenExists(s.nodes, Batch(a.items), w.target, w.toDouble); }
    assert Next(w, s, Handle(a), s.(epoll := pc, flags := f, nodes := nodes));
  }

  // ---------- The timer chain ----------

  /** A tick that re-arms the timer leaves success unset. */
  lemma RearmLeavesSuccessUnset(run: Run, i: nat)
    requires IsRun(run) && i < |run.events| && run.events[i] == Tick(Rearm)
    ensures !run.states[i + 1].flags.success
  {
    RunKeepsInv(run, i);
    assert StepAt(run, i);
  }

  /** The tick that sets success is the last: the timer thread never steps again, and so never re-arms. */
  lemma SuccessIsLast(run: Run, i: nat, j: nat)
    requires IsRun(run) && i < j < |run.events| && run.events[i] == Tick(Succeed)
    ensures !run.events[j].Tick?
  {
    RunKeepsInv(run, j);
    assert StepAt(run, i);
    assert StepAt(run, j);
    FlagsAreMonotone(run, i + 1, j);
  }

  /** The guard at the head of `RunSubItemFromFcs` never fails: no tick starts once success is set. */
  lemma GuardAlwaysHolds(run: Run, i: nat)
    requires IsRun(run) && i < |run.states| && run.states[i].timer == ReadSuccess
    ensures !run.states[i].flags.success
  {
    RunKeepsInv(run, i);
  }

  /** Timer steps left once no flag is pending. */
  function StepsLeft(pc: TimerPc): nat {
    match pc
    case Off => 12
    case DoRearm => 12
    case Armed => 11
    case ReadSuccess => 10
    case Ask(SubItem) => 9
    case DoSend(SubItem) => 9
    case Ask(SetPushMethod) => 8
    case DoSend(SetPushMethod) => 8
    case Ask(Suspend) => 7
    case DoSend(Suspend) => 7
    case Test(SubItem) => 4
    case Test(Suspend) => 3
    case Test(SetPushMethod) => 2
    case SetSuccess => 1
    case Ended => 0
  }

  /** Ticks that can still start once no flag is pending. */
  function TicksLeft(pc: TimerPc): nat {
    if pc in {Off, DoRearm, Armed} then 1 else 0
  }

  function CountTimer(events: seq<Event>): nat {
    if events == [] then 0 else CountTimer(events[..|events| - 1]) + (if events[|events| - 1].Tick? then 1 else 0)
  }

  function CountFires(events: seq<Event>): nat {
    if events == [] then 0
    else CountFires(events[..|events| - 1]) + (if events[|events| - 1] == Tick(Fire) then 1 else 0)
  }

  lemma SettledStep(w: World, s: State, e: Event, s': State)
    requires Next(w, s, e, s') && s.flags.AllDown()
    ensures s'.flags.AllDown()
    ensures StepsLeft(s'.timer) + (if e.Tick? then 1 else 0) <= StepsLeft(s.timer)
    ensures TicksLeft(s'.timer) + (if e == Tick(Fire) then 1 else 0) == TicksLeft(s.timer)
  {}

  lemma StaysDown(run: Run, i: nat, j: nat)
    requires IsRun(run) && i <= j < |run.states| && run.states[i].flags.AllDown()
    ensures run.states[j].flags.AllDown()
  {
    FlagsAreMonotone(run, i, j);
    var f, g := run.states[i].flags, run.states[j].flags;
    assert !g.Pending(SubItem) && !g.Pending(SetPushMethod) && !g.Pending(Suspend);
  }

  lemma LastEvent(run: Run, i: nat, j: nat)
    requires i < j <= |run.events|
    ensures var w := run.events[i..j]; w[..|w| - 1] == run.events[i..j - 1] && w[|w| - 1] == run.events[j - 1]
  {}

  /** Once all three acknowledgements have been handled, the timer thread has at most twelve steps left. */
  lemma {:induction false} ChainEnds(run: Run, i: nat, j: nat)
    requires IsRun(run) && i <= j < |run.states| && run.states[i].flags.AllDown()
    ensures CountTimer(run.events[i..j]) + StepsLeft(run.states[j].timer) <= StepsLeft(run.states[i].timer) <= 12
    decreases j
  {
    if i < j {
      ChainEnds(run, i, j - 1);
      StaysDown(run, i, j - 1);
      LastEvent(run, i, j);
      assert StepAt(run, j - 1);
      SettledStep(run.world, run.states[j - 1], run.events[j - 1], run.states[j]);
    }
  }

  /** At most one further tick starts. */
  lemma {:induction false} OneTickLeft(run: Run, i: nat, j: nat)
    requires IsRun(run) && i <= j < |run.states| && run.states[i].flags.AllDown()
    ensures CountFires(run.events[i..j]) + TicksLeft(run.states[j].timer) == TicksLeft(run.states[i].timer) <= 1
    decreases j
  {
    if i < j {
      OneTickLeft(run, i, j - 1);
      StaysDown(run, i, j - 1);
      LastEvent(run, i, j);
      assert StepAt(run, j - 1);
      SettledStep(run.world, run.states[j - 1], run.events[j - 1], run.states[j]);
    }
  }

  /** Short of its end the timer thread can always step, and its end means success. */
  lemma TimerNeverStuck(w: World, s: State)
    requires Inv(s)
    ensures s.timer != Ended ==> exists a, s' :: Next(w, s, Tick(a), s')
    ensures s.timer == Ended ==> s.flags.success && s.flags.AllDown()
  {
    var (pc, f, a) := TimerStep(s.timer, s.flags);
    assert s.timer != Ended ==> Next(w, s, Tick(a), s.(timer := pc, flags := f));
  }

  lemma SettledStepIsSilent(w: World, s: State, e: Event, s': State)
    requires Next(w, s, e, s') && s.flags.AllDown()
    ensures !s.timer.DoSend? || e == Tick(Fire) ==> !s'.timer.DoSend?
    ensures !s.timer.DoSend? ==> !(e.Tick? && e.a.Send?)
  {}

  function CountSends(events: seq<Event>): nat {
    if events == [] then 0
    else
      var e := events[|events| - 1];
      CountSends(events[..|events| - 1]) + (if e.Tick? && e.a.Send? then 1 else 0)
  }

  /** Sends that a tick under way can still make once no flag is pending: the one it has already decided on. */
  function SendsLeft(pc: TimerPc): nat {
    if pc.DoSend? then 1 else 0
  }

  /** Once all three acknowledgements have been handled, at most one request is still sent. */
  lemma {:induction false} OneSendLeft(run: Run, i: nat, j: nat)
    requires IsRun(run) && i <= j < |run.states| && run.states[i].flags.AllDown()
    ensures CountSends(run.events[i..j]) + SendsLeft(run.states[j].timer) == SendsLeft(run.states[i].timer) <= 1
    decreases j
  {
    if i < j {
      OneSendLeft(run, i, j - 1);
      StaysDown(run, i, j - 1);
      LastEvent(run, i, j);
      assert StepAt(run, j - 1);
    }
  }

  /** A tick that starts after the last acknowledgement sends nothing. */
  lemma {:induction false} LastTickIsSilent(run: Run, i: nat, j: nat, k: nat)
    requires IsRun(run) && i <= j < k < |run.events|
    requires run.states[i].flags.AllDown() && run.events[j] == Tick(Fire)
    ensures !run.states[k].timer.DoSend? && !(run.events[k].Tick? && run.events[k].a.Send?)
    decreases k
  {
    StaysDown(run, i, k - 1);
    StaysDown(run, i, k);
    if j < k - 1 { LastTickIsSilent(run, i, j, k - 1); }
    assert StepAt(run, k - 1) && StepAt(run, k);
    SettledStepIsSilent(run.world, run.states[k - 1], run.events[k - 1], run.states[k]);
    SettledStepIsSilent(run.world, run.states[k], run.events[k], run.states[k + 1]);
  }

  // ---------- The handlers as they stand in the source ----------

  /** A whole tick with no other thread between its steps: what it sends, and whether it re-arms. */
  function TickAlone(pc: TimerPc, f: Flags): (Flags, seq<Request>, bool)
    requires pc !in {Off, Armed}
    decreases Position(pc)
  {
    if pc == Ended then (f, [], false)
    else if pc == DoRearm then (f, [], true)
    else
      var (pc', f', a) := TimerStep(pc, f);
      var (g, sent, rearm) := TickAlone(pc', f');
      (g, if a.Send? then [a.r] + sent else sent, rearm)
  }

  function Position(pc: TimerPc): nat {
    match pc
    case Ask(SubItem) => 19
    case DoSend(SubItem) => 18
    case Ask(SetPushMethod) => 17
    case DoSend(SetPushMethod) => 16
    case Ask(Suspend) => 15
    case DoSend(Suspend) => 14
    case DoRearm => 0
    case _ => 2 * StepsLeft(pc)
  }

  /** The pending requests, in the order in which a tick sends them. */
  function PendingRequests(f: Flags): seq<Request> {
    (if f.subItem then [SubItem] else [])
    + (if f.setPushMethod then [SetPushMethod] else [])
    + (if f.suspend then [Suspend] else [])
  }

  lemma PendingRequestsArePending(f: Flags)
    ensures forall r :: r in PendingRequests(f) <==> f.Pending(r)
    ensures PendingRequests(f) == [] <==> f.AllDown()
    ensures var s := PendingRequests(f);
      forall i, j :: 0 <= i < j < |s| ==> s[i] != s[j] && s[j] != SubItem && s[i] != Suspend
  {
    if f.subItem { assert PendingRequests(f)[0] == SubItem; }
    if f.setPushMethod { assert PendingRequests(f)[if f.subItem then 1 else 0] == SetPushMethod; }
    if f.suspend { assert PendingRequests(f)[|PendingRequests(f)| - 1] == Suspend; }
  }

  /** The queue has gained the requests whose flags are up, each once, SubItem first and Suspend last. */
  ghost predicate QueueGained(before: seq<Request>, after: seq<Request>, f: Flags) {
    && |before| <= |after| && after[..|before|] == before
    && var s := after[|before|..];
       && (SubItem in s <==> f.subItem) && (SetPushMethod in s <==> f.setPushMethod) && (Suspend in s <==> f.suspend)
       && forall i, j :: 0 <= i < j < |s| ==> s[i] != s[j] && s[j] != SubItem && s[i] != Suspend
  }

  lemma QueueGains(before: seq<Request>, after: seq<Request>, f: Flags)
    requires after == before + PendingRequests(f)
    ensures QueueGained(before, after, f)
  {
    PendingRequestsArePending(f);
    assert after[|before|..] == PendingRequests(f);
    assert f.Pending(SubItem) == f.subItem && f.Pending(SetPushMethod) == f.setPushMethod;
    assert f.Pending(Suspend) == f.suspend;
  }

  lemma TestsAlone(f: Flags)
    ensures TickAlone(Test(SubItem), f) == if f.AllDown() then (f.(success := true), [], false) else (f, [], true)
  {
    var last := TickAlone(Test(SetPushMethod), f);
    assert last == if f.setPushMethod then (f, [], true) else (f.(success := true), [], false);
    var middle := TickAlone(Test(Suspend), f);
    assert middle == if f.suspend then (f, [], true) else last;
  }

  lemma AskAlone(r: Request, f: Flags)
    ensures var (g, sent, rearm) := TickAlone(AfterAsk(r), f);
      TickAlone(Ask(r), f) == (g, if f.Pending(r) then [r] + sent else sent, rearm)
  {
    var (g, sent, rearm) := TickAlone(AfterAsk(r), f);
    assert TickAlone(DoSend(r), f) == (g, [r] + sent, rearm);
  }

  /**
   A tick that no other thread disturbs sends exactly the pending requests, each
   once, SubItem before all others and Suspend after all others, and re-arms
   exactly when there are any; otherwise it sets success.
   */
  lemma TickSendsPending(f: Flags)
    requires !f.success
    ensures var (g, sent, rearm) := TickAlone(ReadSuccess, f);
      && g == f.(success := f.AllDown())
      && sent == PendingRequests(f) && (forall r :: r in sent <==> f.Pending(r))
      && (forall i, j :: 0 <= i < j < |sent| ==> sent[i] != sent[j] && sent[j] != SubItem && sent[i] != Suspend)
      && (rearm <==> !f.AllDown())
  {
    TickIs(f);
    PendingRequestsArePending(f);
  }

  lemma TickIs(f: Flags)
    requires !f.success
    ensures TickAlone(ReadSuccess, f) == (f.(success := f.AllDown()), PendingRequests(f), !f.AllDown())
  {
    TestsAlone(f);
    AskAlone(Suspend, f);
    AskAlone(SetPushMethod, f);
    AskAlone(SubItem, f);
    assert TickAlone(ReadSuccess, f) == TickAlone(Ask(SubItem), f);
    assert TickAlone(Ask(SubItem), f).1 == PendingRequests(f);
  }

  /** A whole message with no other thread between the steps; only the last of them acts. */
  function EpollAlone(pc: EpollPc, f: Flags, server: bool): (Flags, EpollAction)
    decreases EpollPosition(pc)
  {
    var (pc', f', a) := EpollStep(pc, f, server);
    if pc' == Idle then (f', a) else EpollAlone(pc', f', server)
  }

  function EpollPosition(pc: EpollPc): nat {
    match pc
    case Idle => 0
    case Clearing(_) => 1
    case Delivering(_) => 1
    case Replied(_, _) => 2
    case SawServer(_) => 2
    case Pushed(_) => 3
  }

  /** An undisturbed message lowers its flag on code 200, or writes its batch with server and success. */
  lemma MessageAlone(m: Message, f: Flags, server: bool)
    ensures var (g, a) := EpollAlone(Accept(m), f, server);
      && (forall r :: g.Pending(r) <==> f.Pending(r) && m != Reply(r, 200))
      && g.success == f.success
      && (m.Push? && server && f.success ==> a == Write(m.items))
      && (!(m.Push? && server && f.success) ==> !a.Write?)
  {
    match m
    case Reply(r, code) =>
      assert EpollAlone(Clearing(r), f, server) == (f.Clear(r), Lower(r));
    case Push(items) =>
      assert EpollAlone(Delivering(items), f, server) == (f, Write(items));
      assert EpollAlone(SawServer(items), f, server) == if f.success then (f, Write(items)) else (f, Read);
    case Other =>
  }

  lemma SameFlags(f: Flags, g: Flags)
    requires f.success == g.success && forall r :: f.Pending(r) <==> g.Pending(r)
    ensures f == g
  {
    assert f.Pending(SubItem) == g.Pending(SubItem) && f.Pending(SetPushMethod) == g.Pending(SetPushMethod);
    assert f.Pending(Suspend) == g.Pending(Suspend);
  }

  /** The singleton's flags, the data that it shares, and the queue and the timer that its methods drive. */
  class NorthStack {
    var success: bool
    var subItem: bool
    var setPushMethod: bool
    var suspend: bool
    var server: bool
    const share: DataShare<Double>
    /** The requests put on the queue, whether or not the queue took them. */
    var sent: seq<Request>
    /** Whether the timer is running. */
    var armed: bool

    function View(): Flags
      reads this
    {
      Flags(success, subItem, setPushMethod, suspend)
    }

    ghost function Surroundings(): World
      reads share
    {
      World(share.Targets(), share.library.toDouble)
    }

    constructor (share: DataShare<Double>)
      ensures View() == INITIAL && !server && sent == [] && !armed && this.share == share
      ensures !success && subItem && setPushMethod && suspend
    {
      success, subItem, setPushMethod, suspend := false, true, true, true;
      server, sent, armed := false, [], false;
      this.share := share;
    }

    /** `RunSubItemFromFcs`, called when the timer has expired. */
    method RunSubItemFromFcs()
      modifies this
      ensures var (f, s, rearm) := TickAlone(ReadSuccess, old(View()));
        View() == f && sent == old(sent) + s && armed == rearm
      ensures server == old(server)
      ensures old(success) ==> success && sent == old(sent) && !armed
      ensures !old(success) ==>
                && (armed <==> old(subItem) || old(setPushMethod) || old(suspend)) && (success <==> !armed)
                && QueueGained(old(sent), sent, old(View()))
    {
      armed := false;
      assert sent + [] == sent;
      if !success {
        ghost var f := View();
        TickIs(f);
        SendRequests();
        QueueGains(old(sent), sent, f);
        if !subItem && !suspend && !setPushMethod {
          success := true;
          return;
        }
        armed := true;
      }
    }

    /** The three sends of a tick. */
    method SendRequests()
      modifies `sent
      ensures sent == old(sent) + PendingRequests(View())
    {
      if subItem {
        sent := sent + [SubItem];
      }
      if setPushMethod {
        sent := sent + [SetPushMethod];
      }
      if suspend {
        sent := sent + [Suspend];
      }
    }

    /** `ParseNorthMsg`, from the parsed message on. */
    method ParseNorthMsg(m: Message)
      modifies this, share
      ensures sent == old(sent) && armed == old(armed) && server == old(server)
      ensures var (f, a) := EpollAlone(Accept(m), old(View()), server);
        View() == f && NodesAfter(old(Surroundings()), a, old(share.nodes), share.nodes)
      ensures success == old(success) && forall r :: View().Pending(r) <==> old(View()).Pending(r) && m != Reply(r, 200)
      ensures m.Push? && server && success ==>
                && NodesAfter(old(Surroundings()), Write(m.items), old(share.nodes), share.nodes)
                && forall a :: PushedAt(share.nodes, old(share.nodes), m.items, old(share.itemLinks),
                                        old(share.nodeTypes), share.library, a)
      ensures !(m.Push? && server && success) ==> share.nodes == old(share.nodes)
      ensures forall k :: Surroundings().target(k) == old(Surroundings()).target(k)
    {
      MessageAlone(m, View(), server);
      match m {
        case Reply(r, code) => ParseReply(r, code);
        case Push(items) =>
          if server && success {
            share.HandlePush(items);
          }
        case Other =>
      }
      SameFlags(View(), EpollAlone(Accept(m), old(View()), server).0);
    }

    /** The three branches of `ParseNorthMsg` for replies. */
    method ParseReply(r: Request, code: nat)
      modifies `subItem, `setPushMethod, `suspend
      ensures View() == if code == 200 then old(View()).Clear(r) else old(View())
      ensures subItem <==> old(subItem) && !(r == SubItem && code == 200)
      ensures setPushMethod <==> old(setPushMethod) && !(r == SetPushMethod && code == 200)
      ensures suspend <==> old(suspend) && !(r == Suspend && code == 200)
    {
      match r {
        case Suspend =>
          if suspend && code == 200 {
            suspend := false;
          }
        case SetPushMethod =>
          if setPushMethod && code == 200 {
            setPushMethod := false;
          }
        case SubItem =>
          if subItem && code == 200 {
            subItem := false;
          }
      }
    }
  }
}
