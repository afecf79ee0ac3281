/** Clients, the four HAL threads, the connection and the switch as one transition system.
    The switch is an environment bound only by section 5.3.7 (Barrier Message) of the
    OpenFlow Switch Specification 1.0.0: it may execute the messages it received in any
    order that does not move a message across a barrier.
    Source: controller/hal/hal.cpp, controller/hal/hal_transaction.cpp. */
module HalProtocol {
  import opened Common

  import opened HalController

  /** What the maintenance thread is doing: sleeping, about to post a barrier because it saw
      a non-empty backlog, or blocked in `send_barrier_request` on the barrier it posted. */
  datatype Maintenance = Asleep | Posting(seen: seq<Transaction>) | Blocked(barrier: Transaction, seen: seq<Transaction>)

  /** `ctl` is the controller. `toSwitch` and `toController` are the two directions of the
      connection, `arrived` what the switch has received, `executed` the positions in
      `arrived` it has executed, in execution order. The last five fields record history:
      every transaction built, every transaction enqueued, every message the switch emitted,
      every message the process loop finished with, and the backlog each barrier found when
      its xid was reserved. */
  datatype System = System(
    ctl: Controller,
    reserved: set<Transaction>,
    maintenance: Maintenance,
    toSwitch: seq<Transaction>,
    arrived: seq<Transaction>,
    executed: seq<nat>,
    toController: seq<Message>,
    issued: set<Transaction>,
    enqueued: seq<Transaction>,
    emitted: seq<Message>,
    processed: seq<Message>,
    waitingAt: map<Transaction, seq<Transaction>>)

  datatype Step =
    | ClientReserve(kind: Kind, acknowledged: bool)
    | ClientEnqueue(txn: Transaction)
    | SendLoopTake
    | SendLoopRegister
    | SendLoopWrite
    | SwitchReceive
    | SwitchExecute(position: nat, output: seq<Message>)
    | SwitchNotify(msg: Message)
    | RecvLoop
    | ProcessLoopTake
    | ProcessLoopHandle
    | MaintenancePoll
    | MaintenancePost
    | MaintenanceReturn

  // ---------- the environment ----------

  /** Transactions built by `assign_and_serialize`; an echo answer keeps the switch's xid. */
  predicate Own(t: Transaction) {
    !t.kind.EchoAnswer?
  }

  /** What the switch may send while it executes a message. A barrier gets exactly its reply.
      Anything else may be answered with errors, and with the replies of its own kind. */
  predicate LegalOutput(t: Transaction, output: seq<Message>) {
    match t.kind
    case Barrier => output == [BarrierReply(t.xid)]
    case EchoAnswer => output == []
    case Echo => forall m :: m in output ==> m == ErrorReply(t.xid) || m == EchoReply(t.xid)
    case Stats => forall m :: m in output ==> m == ErrorReply(t.xid) || m == StatsReply(t.xid)
    case Query => forall m :: m in output ==> m == ErrorReply(t.xid) || m == Notification(t.xid)
    case Command => forall m :: m in output ==> m == ErrorReply(t.xid)
  }

  /** Section 5.3.7: a barrier waits for everything received before it, and everything
      received after a barrier waits for it. */
  predicate MayExecute(s: System, i: nat) {
    && i < |s.arrived| && i !in s.executed
    && forall j: nat :: j < i && (s.arrived[i].kind.Barrier? || s.arrived[j].kind.Barrier?) ==> j in s.executed
  }

  /** What the switch may answer, type by type: an error or nothing to everything but a barrier, and
      the reply a request asks for. */
  lemma AnswersAllowed(x: nat, kind: Kind, ack: bool)
    ensures var t := Transaction(x, kind, ack);
            && (kind.Barrier? ==> LegalOutput(t, [BarrierReply(x)]) && !LegalOutput(t, []))
            && (!kind.Barrier? ==> LegalOutput(t, []))
            && (!kind.Barrier? && !kind.EchoAnswer? ==> LegalOutput(t, [ErrorReply(x)]))
            && (kind.Echo? ==> LegalOutput(t, [EchoReply(x)]))
            && (kind.Stats? ==> LegalOutput(t, [StatsReply(x)]))
            && (kind.Query? ==> LegalOutput(t, [Notification(x)]))
  {
  }

  /** The switch is free to reorder: a barrier has to wait for everything received before it,
      anything else only for the barriers received before it. */
  lemma MayExecuteExactly(s: System, i: nat)
    requires i < |s.arrived| && i !in s.executed
    ensures s.arrived[i].kind.Barrier? ==> (MayExecute(s, i) <==> forall j: nat :: j < i ==> j in s.executed)
    ensures !s.arrived[i].kind.Barrier?
            ==> (MayExecute(s, i) <==> forall j: nat :: j < i && s.arrived[j].kind.Barrier? ==> j in s.executed)
  {
  }

  // ---------- steps ----------

  predicate HasFired(s: System, t: Transaction) {
    exists c :: c in s.ctl.fired && c.txn == t
  }

  predicate Enabled(s: System, step: Step) {
    match step
    case ClientReserve(kind, ack) => !kind.EchoAnswer? && s.ctl.nextXid + 1 < XID_LIMIT
    case ClientEnqueue(t) => t in s.reserved
    case SendLoopTake => s.ctl.hand.Idle? && s.ctl.pending != []
    case SendLoopRegister => s.ctl.hand.Taken?
    case SendLoopWrite => s.ctl.hand.Registered?
    case SwitchReceive => s.toSwitch != []
    case SwitchExecute(i, output) => MayExecute(s, i) && LegalOutput(s.arrived[i], output)
    case SwitchNotify(m) => m.EchoQuestion? || m.Notification?
    case RecvLoop => s.toController != []
    case ProcessLoopTake => s.ctl.current.None? && s.ctl.inbound != []
    case ProcessLoopHandle => s.ctl.current.Some?
    case MaintenancePoll => s.maintenance.Asleep? && s.ctl.callbacks != []
    case MaintenancePost => s.maintenance.Posting? && s.ctl.nextXid + 1 < XID_LIMIT
    case MaintenanceReturn => s.maintenance.Blocked? && HasFired(s, s.maintenance.barrier)
  }

  function Build(s: System, t: Transaction): System {
    s.(ctl := Reserve(s.ctl), reserved := s.reserved + {t}, issued := s.issued + {t},
       waitingAt := if t.kind.Barrier? then s.waitingAt[t := s.ctl.callbacks] else s.waitingAt)
  }

  function Handle(s: System): System
    requires s.ctl.current.Some?
  {
    var m := s.ctl.current.value;
    s.(ctl := ProcessMessage(s.ctl), processed := s.processed + [m],
       enqueued := if m.EchoQuestion? then s.enqueued + [AnswerTo(m)] else s.enqueued)
  }

  function Apply(s: System, step: Step): System
    requires Enabled(s, step)
  {
    match step
    case ClientReserve(kind, ack) => Build(s, Transaction(s.ctl.nextXid, kind, ack))
    case ClientEnqueue(t) =>
      s.(ctl := Enqueue(s.ctl, t), reserved := s.reserved - {t}, enqueued := s.enqueued + [t])
    case SendLoopTake => s.(ctl := SendTake(s.ctl))
    case SendLoopRegister => s.(ctl := SendRegister(s.ctl))
    case SendLoopWrite => s.(ctl := SendWrite(s.ctl), toSwitch := s.toSwitch + [s.ctl.hand.txn])
    case SwitchReceive => s.(arrived := s.arrived + [s.toSwitch[0]], toSwitch := s.toSwitch[1..])
    case SwitchExecute(i, output) =>
      s.(executed := s.executed + [i], emitted := s.emitted + output, toController := s.toController + output)
    case SwitchNotify(m) => s.(emitted := s.emitted + [m], toController := s.toController + [m])
    case RecvLoop =>
      s.(ctl := Receive(s.ctl, s.toController[0]), toController := s.toController[1..])
    case ProcessLoopTake => s.(ctl := ProcessTake(s.ctl))
    case ProcessLoopHandle => Handle(s)
    case MaintenancePoll => s.(maintenance := Posting(s.ctl.callbacks))
    case MaintenancePost =>
      var t := Transaction(s.ctl.nextXid, Barrier, true);
      Build(s, t).(maintenance := Blocked(t, s.maintenance.seen))
    case MaintenanceReturn => s.(maintenance := Asleep)
  }

  /** The handshake has consumed some xids; nothing is in flight. */
  predicate Init(s: System) {
    && 1 <= s.ctl.nextXid
    && s == System(Controller(s.ctl.nextXid, [], Idle, [], [], None, []), {}, Asleep, [], [], [], [], {}, [], [], [], map[])
  }

  ghost predicate Runs(s: System, steps: seq<Step>)
    decreases |steps|
  {
    steps == [] || (Enabled(s, steps[0]) && Runs(Apply(s, steps[0]), steps[1..]))
  }

  ghost function After(s: System, steps: seq<Step>): System
    requires Runs(s, steps)
    decreases |steps|
  {
    if steps == [] then s else After(Apply(s, steps[0]), steps[1..])
  }

  ghost predicate Reachable(s: System) {
    exists init, steps :: Init(init) && Runs(init, steps) && After(init, steps) == s
  }

  // ---------- invariants ----------

  function Held(h: Hand): seq<Transaction> {
    if h.Idle? then [] else [h.txn]
  }

  /** The transactions that went through the registration step, in order. */
  function Registrations(s: System): seq<Transaction> {
    s.arrived + s.toSwitch + if s.ctl.hand.Registered? then [s.ctl.hand.txn] else []
  }

  function Reading(current: Option<Message>): seq<Message> {
    if current.Some? then [current.value] else []
  }

  /** The two FIFO pipelines: client to switch, and switch to process loop. */
  ghost predicate Outbound(s: System) {
    s.enqueued == s.arrived + s.toSwitch + Held(s.ctl.hand) + s.ctl.pending
  }

  ghost predicate Homeward(s: System) {
    s.emitted == s.processed + Reading(s.ctl.current) + s.ctl.inbound + s.toController
  }

  /** An xid names one transaction, wherever that transaction is. */
  ghost predicate Xids(s: System) {
    && (forall t :: t in s.issued ==> Own(t) && t.xid < s.ctl.nextXid)
    && (forall t, u :: t in s.issued && u in s.issued && t.xid == u.xid ==> t == u)
    && (forall t :: t in s.issued <==> t in s.reserved || (t in s.enqueued && Own(t)))
    && (forall t :: t in s.reserved ==> t !in s.enqueued)
    && (forall t :: t in s.enqueued && !Own(t) ==> !t.acknowledged)
    && (forall i, j :: 0 <= i < j < |s.enqueued| && Own(s.enqueued[i]) ==> s.enqueued[i] != s.enqueued[j])
  }

  /** A registered acknowledged transaction is in the backlog or has fired, never both. */
  ghost predicate Backlog(s: System) {
    && DistinctXids(s.ctl.callbacks) && FiredOnce(s.ctl.fired)
    && (forall t :: t in s.ctl.callbacks ==> t in Registrations(s) && t.acknowledged && !HasFired(s, t))
    && (forall c :: c in s.ctl.fired ==> c.txn in Registrations(s) && c.txn.acknowledged)
    && (forall t :: t in Registrations(s) && t.acknowledged ==> t in s.ctl.callbacks || HasFired(s, t))
  }

  /** The execution log obeys section 5.3.7. */
  ghost predicate SwitchOrder(s: System) {
    && (forall p :: 0 <= p < |s.executed| ==> s.executed[p] < |s.arrived|)
    && (forall p, q :: 0 <= p < q < |s.executed| ==> s.executed[p] != s.executed[q])
    && (forall q, j: nat :: 0 <= q < |s.executed| && j < s.executed[q] && Ordered(s, j, s.executed[q])
                            ==> j in s.executed[..q])
  }

  /** Two received messages the switch may not reorder. */
  ghost predicate Ordered(s: System, j: nat, i: nat) {
    j < i < |s.arrived| && (s.arrived[i].kind.Barrier? || s.arrived[j].kind.Barrier?)
  }

  /** The received message at position `i` was executed, and `m` is an answer to it. */
  ghost predicate Answers(s: System, m: Message, i: nat) {
    && i < |s.arrived| && i in s.executed && Own(s.arrived[i])
    && s.arrived[i].xid == m.xid && (m.BarrierReply? <==> s.arrived[i].kind.Barrier?)
  }

  /** Every message that performs callbacks answers an executed transaction. */
  ghost predicate Answered(s: System) {
    forall m :: m in s.emitted && PerformsCallbacks(m) ==> exists i: nat :: Answers(s, m, i)
  }

  /** After a barrier's reply, nothing answers a message received before the barrier. */
  ghost predicate BarrierCutsEmissions(s: System) {
    forall e, f, i: nat, j: nat ::
      0 <= f < e < |s.emitted| && s.emitted[f].BarrierReply? && PerformsCallbacks(s.emitted[e])
      && Answers(s, s.emitted[f], j) && Answers(s, s.emitted[e], i)
      ==> j < i
  }

  /** A processed reply leaves its transaction out of the backlog for good. */
  ghost predicate Settled(s: System) {
    forall m, t :: m in s.processed && PerformsCallbacks(m) && t in s.ctl.callbacks ==> t.xid != m.xid
  }

  /** Why each callback fired. */
  ghost predicate Causes(s: System) {
    forall c :: c in s.ctl.fired ==> JustifiedBy(s, c)
  }

  ghost predicate JustifiedBy(s: System, c: Completion) {
    && c.cause in s.processed && PerformsCallbacks(c.cause)
    && (if c.cause.BarrierReply?
        then c.txn.xid <= c.cause.xid && c == BarrierCompletion(c.txn, c.cause)
        else c.txn.xid == c.cause.xid && c == Completion(c.txn, Some(c.cause), !c.cause.ErrorReply?, c.cause))
  }

  /** A barrier completion of a transaction enqueued ahead of the barrier is final. */
  ghost predicate NoLateErrors(s: System) {
    forall c, i: nat, j: nat ::
      c in s.ctl.fired && c.cause.BarrierReply? && Answers(s, c.cause, j) && i < j && s.arrived[i] == c.txn
      ==> ErrorReply(c.txn.xid) !in s.emitted
  }

  /** What a barrier found waiting when its xid was reserved are registered transactions
      with smaller xids. */
  ghost predicate Waiters(s: System) {
    && (forall b :: b in s.waitingAt ==> b in s.issued && b.kind.Barrier?)
    && (forall b, t :: b in s.waitingAt && t in s.waitingAt[b]
                       ==> t.xid < b.xid && t in Registrations(s) && t.acknowledged)
  }

  /** Once a barrier has fired or its reply has been handled, all of them have fired. */
  ghost predicate Drains(s: System) {
    forall b, t :: b in s.waitingAt && t in s.waitingAt[b] && Settles(s, b) ==> HasFired(s, t)
  }

  ghost predicate Settles(s: System, b: Transaction) {
    HasFired(s, b) || BarrierReply(b.xid) in s.processed
  }

  ghost predicate MaintenanceWaits(s: System) {
    match s.maintenance
    case Asleep => true
    case Posting(seen) => forall t :: t in seen ==> t in Registrations(s) && t.acknowledged
    case Blocked(b, seen) => b in s.waitingAt && forall t :: t in seen ==> t in s.waitingAt[b] || HasFired(s, t)
  }

  ghost predicate Inv(s: System) {
    && Outbound(s) && Homeward(s) && Xids(s) && Backlog(s) && SwitchOrder(s) && Answered(s) && BarrierCutsEmissions(s)
    && Settled(s) && Causes(s) && NoLateErrors(s) && Waiters(s) && Drains(s) && MaintenanceWaits(s)
  }

  // ---------- preservation, one invariant at a time ----------

  lemma InitInv(s: System)
    requires Init(s)
    ensures Inv(s)
  {
    assert Registrations(s) == [] && forall t :: !HasFired(s, t);
    assert Xids(s);
    assert Backlog(s);
    assert SwitchOrder(s) && Answered(s) && BarrierCutsEmissions(s);
    assert Causes(s) && NoLateErrors(s) && Waiters(s) && Drains(s);
  }

  /** Moving the head of one queue to the tail of the queue in front of it. */
  lemma HandOver<T>(front: seq<T>, queue: seq<T>)
    requires queue != []
    ensures (front + [queue[0]]) + queue[1..] == front + queue
  {
  }

  lemma OutboundKept(s: System, step: Step)
    requires Outbound(s) && Enabled(s, step)
    ensures Outbound(Apply(s, step))
  {
    var wire := s.arrived + s.toSwitch;
    match step {
      case ClientEnqueue(t) => Regroup(wire + Held(s.ctl.hand), s.ctl.pending, [t]);
      case ProcessLoopHandle =>
        var t := AnswerTo(s.ctl.current.value);
        Regroup(wire + Held(s.ctl.hand), s.ctl.pending, [t]);
      case SendLoopTake =>
        Regroup(wire, [], []);
        HandOver(wire, s.ctl.pending);
      case SendLoopWrite =>
        Regroup(s.arrived, s.toSwitch, [s.ctl.hand.txn]);
        Regroup(wire + [s.ctl.hand.txn], [], []);
      case SwitchReceive => HandOver(s.arrived, s.toSwitch);
      case _ =>
    }
  }

  lemma HomewardKept(s: System, step: Step)
    requires Homeward(s) && Enabled(s, step)
    ensures Homeward(Apply(s, step))
  {
    var before := s.processed + Reading(s.ctl.current);
    match step {
      case SwitchExecute(i, output) => Regroup(before + s.ctl.inbound, s.toController, output);
      case SwitchNotify(m) => Regroup(before + s.ctl.inbound, s.toController, [m]);
      case RecvLoop =>
        HandOver(before + s.ctl.inbound, s.toController);
        Regroup(before, s.ctl.inbound, [s.toController[0]]);
      case ProcessLoopTake =>
        Regroup(s.processed, [], []);
        HandOver(s.processed, s.ctl.inbound);
      case ProcessLoopHandle => Regroup(s.processed + [s.ctl.current.value], [], []);
      case _ =>
    }
  }

  lemma RegistrationsKept(s: System, step: Step)
    requires Enabled(s, step)
    ensures Registrations(Apply(s, step))
            == Registrations(s) + if step.SendLoopRegister? then [s.ctl.hand.txn] else []
  {
    match step {
      case SwitchReceive => HandOver(s.arrived, s.toSwitch);
      case SendLoopWrite => Regroup(s.arrived, s.toSwitch, [s.ctl.hand.txn]);
      case _ =>
    }
  }

  /** Registered transactions are enqueued, at the position where they will arrive. */
  lemma RegisteredWasEnqueued(s: System)
    requires Outbound(s)
    ensures forall t :: t in Registrations(s) ==> t in s.enqueued
    ensures Registrations(s) <= s.enqueued && s.arrived <= s.enqueued
    ensures s.ctl.hand.Taken? ==> s.enqueued[|Registrations(s)|..] == [s.ctl.hand.txn] + s.ctl.pending
  {
    var rest := (if s.ctl.hand.Taken? then [s.ctl.hand.txn] else []) + s.ctl.pending;
    assert s.enqueued == Registrations(s) + rest;
  }

  lemma XidsKeptByBuild(s: System, t: Transaction)
    requires Xids(s) && t.xid == s.ctl.nextXid && s.ctl.nextXid + 1 < XID_LIMIT && Own(t)
    ensures Xids(Build(s, t))
  {
  }

  lemma XidsKeptByEnqueue(s: System, t: Transaction)
    requires Xids(s) && t in s.reserved
    ensures Xids(Apply(s, ClientEnqueue(t)))
  {
  }

  lemma XidsKeptByHandling(s: System)
    requires Xids(s) && s.ctl.current.Some?
    ensures Xids(Handle(s))
  {
  }

  lemma XidsKept(s: System, step: Step)
    requires Xids(s) && Enabled(s, step)
    ensures Xids(Apply(s, step))
  {
    match step {
      case ClientReserve(kind, ack) => XidsKeptByBuild(s, Transaction(s.ctl.nextXid, kind, ack));
      case MaintenancePost => XidsKeptByBuild(s, Transaction(s.ctl.nextXid, Barrier, true));
      case ClientEnqueue(t) => XidsKeptByEnqueue(s, t);
      case ProcessLoopHandle => XidsKeptByHandling(s);
      case _ =>
    }
  }

  /** An acknowledged transaction about to be registered is new to the backlog and its log. */
  lemma RegistrationIsNew(s: System)
    requires Outbound(s) && Xids(s) && Backlog(s) && s.ctl.hand.Taken? && s.ctl.hand.txn.acknowledged
    ensures Own(s.ctl.hand.txn) && !HasFired(s, s.ctl.hand.txn) && s.ctl.hand.txn !in Registrations(s)
    ensures forall t :: t in s.ctl.callbacks ==> t.xid != s.ctl.hand.txn.xid
  {
    RegisteredWasEnqueued(s);
    var t := s.ctl.hand.txn;
    var k := |Registrations(s)|;
    assert s.enqueued[k..][0] == t;
    assert s.enqueued[k] == t;
    assert t !in Registrations(s);
    forall u | u in s.ctl.callbacks ensures u.xid != t.xid {
      assert u in s.enqueued && u in s.issued && t in s.issued;
    }
  }

  lemma BacklogKeptByHandling(s: System)
    requires Outbound(s) && Xids(s) && Backlog(s) && s.ctl.current.Some?
    ensures Backlog(Handle(s))
  {
    var m := s.ctl.current.value;
    var s' := Handle(s);
    assert Registrations(s') == Registrations(s);
    if m.BarrierReply? {
      BarrierSplitsBacklog(s.ctl.callbacks, m);
      SurvivorsKeepOrder(s.ctl.callbacks, m.xid);
      DrainedOnce(s.ctl.callbacks, m);
      FiredOnceJoins(s, Drained(s.ctl.callbacks, m));
      forall t | t in s.ctl.callbacks && t.xid <= m.xid ensures HasFired(s', t) {
        assert BarrierCompletion(t, m) in s'.ctl.fired;
      }
    } else if PerformsCallbacks(m) {
      MatchedReplySplitsBacklog(s.ctl.callbacks, m);
      FiredOnceJoins(s, MatchedBy(s.ctl.callbacks, m));
    }
  }

  /** Completions of transactions still in the backlog are first completions. */
  lemma FiredOnceJoins(s: System, more: seq<Completion>)
    requires Outbound(s) && Xids(s) && Backlog(s) && FiredOnce(more) && forall c :: c in more ==> c.txn in s.ctl.callbacks
    ensures FiredOnce(s.ctl.fired + more)
  {
    RegisteredWasEnqueued(s);
    forall c, d | c in s.ctl.fired && d in more ensures c.txn.xid != d.txn.xid {
      assert c.txn in s.issued && d.txn in s.issued && !HasFired(s, d.txn);
    }
  }

  lemma BacklogKeptByRegistration(s: System)
    requires Outbound(s) && Xids(s) && Backlog(s) && s.ctl.hand.Taken?
    ensures Backlog(Apply(s, SendLoopRegister))
  {
    RegistrationsKept(s, SendLoopRegister);
    if s.ctl.hand.txn.acknowledged {
      RegistrationIsNew(s);
    }
    assert forall t :: HasFired(Apply(s, SendLoopRegister), t) <==> HasFired(s, t);
  }

  lemma BacklogDependsOn(s: System, s': System)
    requires Backlog(s) && Registrations(s') == Registrations(s)
    requires s'.ctl.callbacks == s.ctl.callbacks && s'.ctl.fired == s.ctl.fired
    ensures Backlog(s')
  {
    assert forall t :: HasFired(s', t) <==> HasFired(s, t);
  }

  lemma BacklogKept(s: System, step: Step)
    requires Outbound(s) && Xids(s) && Backlog(s) && Enabled(s, step)
    ensures Backlog(Apply(s, step))
  {
    if step.SendLoopRegister? {
      BacklogKeptByRegistration(s);
    } else if step.ProcessLoopHandle? {
      BacklogKeptByHandling(s);
    } else {
      RegistrationsKept(s, step);
      BacklogDependsOn(s, Apply(s, step));
    }
  }

  lemma SwitchOrderKept(s: System, step: Step)
    requires SwitchOrder(s) && Enabled(s, step)
    ensures SwitchOrder(Apply(s, step))
  {
    var s' := Apply(s, step);
    if step.SwitchExecute? {
      var n := |s.executed|;
      forall q, j: nat | 0 <= q <= n && j < s'.executed[q] && Ordered(s', j, s'.executed[q])
        ensures j in s'.executed[..q]
      {
        assert s'.executed[..q] == s.executed[..q];
        if q < n {
          assert Ordered(s, j, s.executed[q]);
        } else {
          assert s.executed[..n] == s.executed;
        }
      }
    } else if step.SwitchReceive? {
      assert forall q, j: nat :: 0 <= q < |s.executed| && Ordered(s', j, s.executed[q]) ==> Ordered(s, j, s.executed[q]);
    }
  }

  /** Execution only adds answers, and never changes what an earlier message answers. */
  lemma AnswersPersist(s: System, step: Step, m: Message, i: nat)
    requires Enabled(s, step)
    ensures Answers(s, m, i) ==> Answers(Apply(s, step), m, i)
    ensures SwitchOrder(s) && Answers(Apply(s, step), m, i) && !step.SwitchExecute? ==> Answers(s, m, i)
    ensures Answers(Apply(s, step), m, i) && step.SwitchExecute? && step.position != i ==> Answers(s, m, i)
  {
  }

  lemma AnsweredKept(s: System, step: Step)
    requires SwitchOrder(s) && Answered(s) && Enabled(s, step)
    ensures Answered(Apply(s, step))
  {
    var s' := Apply(s, step);
    forall m | m in s'.emitted && PerformsCallbacks(m) ensures exists i: nat :: Answers(s', m, i) {
      if m in s.emitted {
        var i: nat :| Answers(s, m, i);
        AnswersPersist(s, step, m, i);
      } else {
        assert step.SwitchExecute? && m in step.output;
        assert Answers(s', m, step.position);
      }
    }
  }

  /** An xid has one owner, so a message answers at most one received message. */
  lemma OwnerUnique(s: System, i: nat, j: nat)
    requires Outbound(s) && Xids(s) && i < |s.arrived| && j < |s.arrived|
    requires Own(s.arrived[i]) && Own(s.arrived[j]) && s.arrived[i].xid == s.arrived[j].xid
    ensures i == j
  {
    assert s.arrived[i] == s.enqueued[i] && s.arrived[j] == s.enqueued[j];
    assert s.enqueued[i] in s.issued && s.enqueued[j] in s.issued;
  }

  lemma OldAnswer(s: System, step: Step, m: Message, i: nat)
    requires Outbound(s) && Xids(s) && SwitchOrder(s) && Answered(s) && Enabled(s, step)
    requires m in s.emitted && PerformsCallbacks(m) && Answers(Apply(s, step), m, i)
    ensures Answers(s, m, i)
  {
    var k: nat :| Answers(s, m, k);
    AnswersPersist(s, step, m, i);
    if step.SwitchExecute? {
      OwnerUnique(s, i, k);
    }
  }

  /** Whatever was received before an executed barrier has been executed, and the barrier
      was executed ahead of everything received after it. */
  lemma BarrierFence(s: System, j: nat, i: nat)
    requires SwitchOrder(s) && j < |s.arrived| && j in s.executed && s.arrived[j].kind.Barrier?
    ensures i < j ==> i in s.executed
  {
    var q :| 0 <= q < |s.executed| && s.executed[q] == j;
    if i < j {
      assert Ordered(s, i, s.executed[q]);
    }
  }

  lemma BarrierReplyStandsAlone(t: Transaction, output: seq<Message>)
    requires LegalOutput(t, output)
    ensures forall p :: 0 <= p < |output| && output[p].BarrierReply? ==> |output| == 1
  {
    forall p | 0 <= p < |output| && output[p].BarrierReply? ensures |output| == 1 {
      assert output[p] in output;
    }
  }

  /** What the switch emits in a step comes after everything it emitted before, and a barrier
      reply is the only message of its step. */
  lemma EmissionsGrow(s: System, step: Step, f: nat, e: nat)
    requires Enabled(s, step) && f < e < |Apply(s, step).emitted| && Apply(s, step).emitted[f].BarrierReply?
    ensures f < |s.emitted| && Apply(s, step).emitted[f] == s.emitted[f]
    ensures e < |s.emitted| ==> Apply(s, step).emitted[e] == s.emitted[e]
    ensures e >= |s.emitted| && PerformsCallbacks(Apply(s, step).emitted[e])
            ==> step.SwitchExecute? && Apply(s, step).emitted[e] in step.output
  {
    if step.SwitchExecute? {
      BarrierReplyStandsAlone(s.arrived[step.position], step.output);
    }
  }

  /** An answer emitted now is to a message received after the executed barrier at `j`. */
  lemma NewAnswerIsLater(s: System, step: Step, m: Message, i: nat, j: nat)
    requires Outbound(s) && Xids(s) && SwitchOrder(s) && Enabled(s, step) && step.SwitchExecute?
    requires PerformsCallbacks(m) && m in step.output && Answers(Apply(s, step), m, i)
    requires j < |s.arrived| && j in s.executed && s.arrived[j].kind.Barrier?
    ensures j < i
  {
    OwnerUnique(s, i, step.position);
    BarrierFence(s, j, i);
  }

  lemma BarrierCutsEmissionsKept(s: System, step: Step)
    requires Outbound(s) && Xids(s) && SwitchOrder(s) && Answered(s) && BarrierCutsEmissions(s) && Enabled(s, step)
    ensures BarrierCutsEmissions(Apply(s, step))
  {
    var s' := Apply(s, step);
    forall e, f, i: nat, j: nat |
      0 <= f < e < |s'.emitted| && s'.emitted[f].BarrierReply? && PerformsCallbacks(s'.emitted[e])
      && Answers(s', s'.emitted[f], j) && Answers(s', s'.emitted[e], i)
      ensures j < i
    {
      EmissionsGrow(s, step, f, e);
      OldAnswer(s, step, s.emitted[f], j);
      if e < |s.emitted| {
        OldAnswer(s, step, s.emitted[e], i);
      } else {
        NewAnswerIsLater(s, step, s'.emitted[e], i, j);
      }
    }
  }

  lemma SettledKeptByHandling(s: System)
    requires Backlog(s) && Settled(s) && s.ctl.current.Some?
    ensures Settled(Handle(s))
  {
    BarrierSplitsBacklog(s.ctl.callbacks, s.ctl.current.value);
    MatchedReplySplitsBacklog(s.ctl.callbacks, s.ctl.current.value);
  }

  /** A transaction about to be registered has not been answered. */
  lemma UnregisteredIsUnanswered(s: System, m: Message)
    requires Outbound(s) && Homeward(s) && Xids(s) && Backlog(s) && Answered(s)
    requires s.ctl.hand.Taken? && s.ctl.hand.txn.acknowledged && m in s.processed && PerformsCallbacks(m)
    ensures m.xid != s.ctl.hand.txn.xid
  {
    RegistrationIsNew(s);
    RegisteredWasEnqueued(s);
    assert m in s.emitted;
    var i: nat :| Answers(s, m, i);
    assert s.arrived[i] in Registrations(s) && s.arrived[i] in s.issued;
    assert s.ctl.hand.txn in Held(s.ctl.hand) && s.ctl.hand.txn in s.enqueued;
  }

  lemma SettledKept(s: System, step: Step)
    requires Outbound(s) && Homeward(s) && Xids(s) && Backlog(s) && Answered(s) && Settled(s) && Enabled(s, step)
    ensures Settled(Apply(s, step))
  {
    if step.ProcessLoopHandle? {
      SettledKeptByHandling(s);
    } else if step.SendLoopRegister? && s.ctl.hand.txn.acknowledged {
      forall m | m in s.processed && PerformsCallbacks(m) ensures m.xid != s.ctl.hand.txn.xid {
        UnregisteredIsUnanswered(s, m);
      }
    }
  }

  lemma CausesKept(s: System, step: Step)
    requires Causes(s) && Backlog(s) && Enabled(s, step)
    ensures Causes(Apply(s, step))
  {
    if step.ProcessLoopHandle? {
      var m := s.ctl.current.value;
      BarrierSplitsBacklog(s.ctl.callbacks, m);
      MatchedReplySplitsBacklog(s.ctl.callbacks, m);
    }
  }

  /** Handling a barrier reply: an error for a transaction enqueued ahead of the barrier
      would have been handled already. */
  lemma NoErrorBehindBarrier(s: System, t: Transaction, i: nat, j: nat)
    requires Inv(s) && s.ctl.current.Some? && s.ctl.current.value.BarrierReply?
    requires t in s.ctl.callbacks && Answers(s, s.ctl.current.value, j) && i < j && s.arrived[i] == t
    ensures ErrorReply(t.xid) !in s.emitted
  {
    var f := |s.processed|;
    assert s.emitted[f] == s.ctl.current.value && s.emitted[..f] == s.processed;
    RegisteredWasEnqueued(s);
    forall e | 0 <= e < |s.emitted| ensures s.emitted[e] != ErrorReply(t.xid) {
      if e < f {
        assert s.processed[e] == s.emitted[e];
      } else if s.emitted[e].ErrorReply? {
        assert s.emitted[e] in s.emitted;
        var k: nat :| Answers(s, s.emitted[e], k);
        assert j < k;
        if s.arrived[k].xid == t.xid {
          OwnerUnique(s, i, k);
        }
      }
    }
  }

  /** The switch has nothing left to say about a transaction fenced off by a barrier. */
  lemma FencedIsSilent(s: System, step: Step, c: Completion, i: nat, j: nat)
    requires Outbound(s) && Xids(s) && Backlog(s) && SwitchOrder(s) && Enabled(s, step) && step.SwitchExecute?
    requires c in s.ctl.fired && c.cause.BarrierReply? && Answers(s, c.cause, j) && i < j && s.arrived[i] == c.txn
    ensures ErrorReply(c.txn.xid) !in step.output
  {
    BarrierFence(s, j, i);
    FiredIsOwn(s, c);
    if s.arrived[step.position].xid == c.txn.xid && Own(s.arrived[step.position]) {
      OwnerUnique(s, i, step.position);
    }
  }

  lemma OldCompletionStaysFinal(s: System, step: Step, c: Completion, i: nat, j: nat)
    requires Outbound(s) && Homeward(s) && Xids(s) && Backlog(s) && SwitchOrder(s) && Answered(s) && Causes(s) && NoLateErrors(s)
    requires Enabled(s, step) && c in s.ctl.fired && c.cause.BarrierReply?
    requires Answers(Apply(s, step), c.cause, j) && i < j && Apply(s, step).arrived[i] == c.txn
    ensures ErrorReply(c.txn.xid) !in Apply(s, step).emitted
  {
    FinishedWasEmitted(s, c);
    OldAnswer(s, step, c.cause, j);
    assert s.arrived[i] == c.txn;
    if step.SwitchExecute? {
      FencedIsSilent(s, step, c, i, j);
    }
  }

  lemma NewCompletionIsFinal(s: System, c: Completion, i: nat, j: nat)
    requires Inv(s) && s.ctl.current.Some? && c in Handle(s).ctl.fired && c !in s.ctl.fired && c.cause.BarrierReply?
    requires Answers(s, c.cause, j) && i < j && s.arrived[i] == c.txn
    ensures ErrorReply(c.txn.xid) !in s.emitted
  {
    BarrierSplitsBacklog(s.ctl.callbacks, s.ctl.current.value);
    MatchedReplySplitsBacklog(s.ctl.callbacks, s.ctl.current.value);
    NoErrorBehindBarrier(s, c.txn, i, j);
  }

  lemma NoLateErrorsKept(s: System, step: Step)
    requires Inv(s) && Enabled(s, step)
    ensures NoLateErrors(Apply(s, step))
  {
    var s' := Apply(s, step);
    forall c, i: nat, j: nat |
      c in s'.ctl.fired && c.cause.BarrierReply? && Answers(s', c.cause, j) && i < j && s'.arrived[i] == c.txn
      ensures ErrorReply(c.txn.xid) !in s'.emitted
    {
      if c in s.ctl.fired {
        OldCompletionStaysFinal(s, step, c, i, j);
      } else {
        NewCompletionIsFinal(s, c, i, j);
      }
    }
  }

  lemma FinishedWasEmitted(s: System, c: Completion)
    requires Homeward(s) && Causes(s) && c in s.ctl.fired
    ensures c.cause in s.emitted && PerformsCallbacks(c.cause)
  {
  }

  lemma FiredIsOwn(s: System, c: Completion)
    requires Outbound(s) && Xids(s) && Backlog(s) && c in s.ctl.fired
    ensures c.txn in s.issued && Own(c.txn)
  {
    RegisteredWasEnqueued(s);
  }

  /** A barrier transaction fires only through a barrier reply that covers it. */
  lemma BarrierFiresByBarrier(s: System, b: Transaction)
    requires Inv(s) && b in s.issued && b.kind.Barrier? && s.ctl.current.Some?
    requires HasFired(Handle(s), b) && !HasFired(s, b)
    ensures s.ctl.current.value.BarrierReply? && b.xid <= s.ctl.current.value.xid
  {
    var m := s.ctl.current.value;
    var s' := Handle(s);
    BarrierSplitsBacklog(s.ctl.callbacks, m);
    MatchedReplySplitsBacklog(s.ctl.callbacks, m);
    var c :| c in s'.ctl.fired && c.txn == b;
    assert c !in s.ctl.fired;
  }

  /** A fresh xid has neither fired nor been answered. */
  lemma FreshXid(s: System, b: Transaction)
    requires Inv(s) && b.xid == s.ctl.nextXid
    ensures b !in s.issued && b !in s.waitingAt && !HasFired(s, b) && BarrierReply(b.xid) !in s.processed
  {
    RegisteredWasEnqueued(s);
    forall m | m in s.emitted && PerformsCallbacks(m) ensures m.xid < s.ctl.nextXid {
      var i: nat :| Answers(s, m, i);
      assert s.arrived[i] in s.issued;
    }
  }

  lemma WaitersKeptByBuild(s: System, u: Transaction)
    requires Outbound(s) && Xids(s) && Backlog(s) && Waiters(s) && u.xid == s.ctl.nextXid
    ensures Waiters(Build(s, u))
  {
    assert Registrations(Build(s, u)) == Registrations(s);
    RegisteredWasEnqueued(s);
  }

  lemma WaitersDependsOn(s: System, s': System)
    requires Waiters(s) && s'.waitingAt == s.waitingAt && s.issued <= s'.issued
    requires forall t :: t in Registrations(s) ==> t in Registrations(s')
    ensures Waiters(s')
  {
  }

  lemma WaitersKept(s: System, step: Step)
    requires Outbound(s) && Xids(s) && Backlog(s) && Waiters(s) && Enabled(s, step)
    ensures Waiters(Apply(s, step))
  {
    match step {
      case ClientReserve(kind, ack) => WaitersKeptByBuild(s, Transaction(s.ctl.nextXid, kind, ack));
      case MaintenancePost =>
        var t := Transaction(s.ctl.nextXid, Barrier, true);
        WaitersKeptByBuild(s, t);
        WaitersDependsOn(Build(s, t), Apply(s, step));
      case _ =>
        RegistrationsKept(s, step);
        WaitersDependsOn(s, Apply(s, step));
    }
  }

  /** Fired callbacks stay fired. */
  lemma FiredPersists(s: System, s': System, t: Transaction)
    requires s.ctl.fired <= s'.ctl.fired && HasFired(s, t)
    ensures HasFired(s', t)
  {
    var c :| c in s.ctl.fired && c.txn == t;
    assert c in s'.ctl.fired;
  }

  lemma BarrierReplyFires(s: System, t: Transaction)
    requires s.ctl.current.Some? && s.ctl.current.value.BarrierReply?
    requires t in s.ctl.callbacks && t.xid <= s.ctl.current.value.xid
    ensures HasFired(Handle(s), t)
  {
    BarrierSplitsBacklog(s.ctl.callbacks, s.ctl.current.value);
    assert BarrierCompletion(t, s.ctl.current.value) in Handle(s).ctl.fired;
  }

  lemma DrainsKeptByHandling(s: System, b: Transaction, t: Transaction)
    requires Inv(s) && s.ctl.current.Some? && b in s.waitingAt && t in s.waitingAt[b] && Settles(Handle(s), b)
    ensures HasFired(Handle(s), t)
  {
    if HasFired(s, t) {
      FiredPersists(s, Handle(s), t);
    } else {
      assert !Settles(s, b);
      if HasFired(Handle(s), b) {
        BarrierFiresByBarrier(s, b);
      }
      BarrierReplyFires(s, t);
    }
  }

  lemma DrainsKeptByBuild(s: System, u: Transaction)
    requires Inv(s) && u.xid == s.ctl.nextXid
    ensures Drains(Build(s, u))
  {
    FreshXid(s, u);
    var s' := Build(s, u);
    forall b, t | b in s'.waitingAt && t in s'.waitingAt[b] && Settles(s', b) ensures HasFired(s', t) {
      assert Settles(s, b) && b != u;
      assert HasFired(s, t);
    }
  }

  lemma DrainsKept(s: System, step: Step)
    requires Inv(s) && Enabled(s, step)
    ensures Drains(Apply(s, step))
  {
    var s' := Apply(s, step);
    if step.ClientReserve? {
      DrainsKeptByBuild(s, Transaction(s.ctl.nextXid, step.kind, step.acknowledged));
    } else if step.MaintenancePost? {
      var t := Transaction(s.ctl.nextXid, Barrier, true);
      DrainsKeptByBuild(s, t);
      DrainsDependsOn(Build(s, t), s');
    } else if step.ProcessLoopHandle? {
      forall b, t | b in s.waitingAt && t in s.waitingAt[b] && Settles(s', b) ensures HasFired(s', t) {
        DrainsKeptByHandling(s, b, t);
      }
    } else {
      DrainsDependsOn(s, s');
    }
  }

  lemma DrainsDependsOn(s: System, s': System)
    requires Drains(s)
    requires s'.ctl.fired == s.ctl.fired && s'.processed == s.processed && s'.waitingAt == s.waitingAt
    ensures Drains(s')
  {
    forall b, t | b in s'.waitingAt && t in s'.waitingAt[b] && Settles(s', b) ensures HasFired(s', t) {
      assert Settles(s, b) && HasFired(s, t);
    }
  }

  lemma MaintenanceWaitsKept(s: System, step: Step)
    requires Outbound(s) && Xids(s) && Backlog(s) && Waiters(s) && MaintenanceWaits(s) && Enabled(s, step)
    ensures MaintenanceWaits(Apply(s, step))
  {
    RegistrationsKept(s, step);
    if step.MaintenancePost? {
      PostingBlocks(s);
    } else if step != MaintenanceReturn && s.maintenance.Blocked? {
      BlockedKept(s, step);
    }
  }

  /** Whatever the thread saw in the backlog still waits when it posts the barrier, or fired. */
  lemma PostingBlocks(s: System)
    requires Outbound(s) && Xids(s) && Backlog(s) && MaintenanceWaits(s) && Enabled(s, MaintenancePost)
    ensures MaintenanceWaits(Apply(s, MaintenancePost))
  {
    var s' := Apply(s, MaintenancePost);
    forall t | t in s.maintenance.seen ensures t in s'.waitingAt[s'.maintenance.barrier] || HasFired(s', t) {
      assert t in Registrations(s) && t.acknowledged;
      if HasFired(s, t) {
        FiredPersists(s, s', t);
      }
    }
  }

  lemma BlockedKept(s: System, step: Step)
    requires Xids(s) && Waiters(s) && MaintenanceWaits(s) && Enabled(s, step) && s.maintenance.Blocked? && step != MaintenanceReturn
    ensures MaintenanceWaits(Apply(s, step))
  {
    var s' := Apply(s, step);
    var b := s.maintenance.barrier;
    assert b in s.issued && s'.waitingAt[b] == s.waitingAt[b];
    forall t | t in s.maintenance.seen ensures t in s'.waitingAt[b] || HasFired(s', t) {
      if HasFired(s, t) {
        FiredPersists(s, s', t);
      }
    }
  }

  lemma InvKept(s: System, step: Step)
    requires Inv(s) && Enabled(s, step)
    ensures Inv(Apply(s, step))
  {
    OutboundKept(s, step);
    HomewardKept(s, step);
    XidsKept(s, step);
    BacklogKept(s, step);
    SwitchOrderKept(s, step);
    AnsweredKept(s, step);
    BarrierCutsEmissionsKept(s, step);
    SettledKept(s, step);
    CausesKept(s, step);
    NoLateErrorsKept(s, step);
    WaitersKept(s, step);
    DrainsKept(s, step);
    MaintenanceWaitsKept(s, step);
  }

  lemma {:induction false} RunKeepsInv(s: System, steps: seq<Step>)
    requires Inv(s) && Runs(s, steps)
    ensures Inv(After(s, steps))
    decreases |steps|
  {
    if steps != [] {
      InvKept(s, steps[0]);
      RunKeepsInv(Apply(s, steps[0]), steps[1..]);
    }
  }

  lemma ReachableInv(s: System)
    requires Reachable(s)
    ensures Inv(s)
  {
    var init, steps :| Init(init) && Runs(init, steps) && After(init, steps) == s;
    InitInv(init);
    RunKeepsInv(init, steps);
  }

  // ---------- main results ----------

  function Count(b: bool): nat {
    if b then 1 else 0
  }

  /** Nothing awaiting registration has been registered. */
  lemma AwaitingAreUnregistered(s: System, t: Transaction)
    requires Outbound(s) && Xids(s) && t.acknowledged
    ensures t in s.enqueued <==> t in Registrations(s) || Awaiting(s, t)
    ensures t in Registrations(s) ==> !Awaiting(s, t)
  {
    var n := |Registrations(s)|;
    var rest := (if s.ctl.hand.Taken? then [s.ctl.hand.txn] else []) + s.ctl.pending;
    assert s.enqueued == Registrations(s) + rest;
    assert Awaiting(s, t) <==> t in rest;
    forall j | 0 <= j < |rest| && rest[j].acknowledged ensures rest[j] !in Registrations(s) {
      forall i | 0 <= i < n ensures Registrations(s)[i] != rest[j] {
        assert s.enqueued[i] == Registrations(s)[i] && s.enqueued[n + j] == rest[j];
      }
    }
  }

  ghost predicate Awaiting(s: System, t: Transaction) {
    t in s.ctl.pending || s.ctl.hand == Taken(t)
  }

  /** Every acknowledged transaction ever built is, in every reachable state, in exactly one
      place: not yet enqueued, on its way to registration, waiting for its callback, or
      completed. */
  lemma ExactlyOnePlace(s: System, t: Transaction)
    requires Reachable(s) && t in s.issued && t.acknowledged
    ensures Count(t in s.reserved) + Count(Awaiting(s, t)) + Count(t in s.ctl.callbacks) + Count(HasFired(s, t)) == 1
  {
    ReachableInv(s);
    AwaitingAreUnregistered(s, t);
  }

  /** No callback fires twice, and the status flag always agrees with the verdict a blocking
      callback derives from the reply it is handed. */
  lemma CallbacksFireOnceAndAgree(s: System)
    requires Reachable(s)
    ensures forall k, l :: 0 <= k < l < |s.ctl.fired| ==> s.ctl.fired[k].txn != s.ctl.fired[l].txn
    ensures forall c :: c in s.ctl.fired ==> c.ok == Successful(c.reply)
  {
    ReachableInv(s);
  }

  /** A reply never overtakes the registration of its transaction: whatever performs callbacks
      and is still on its way answers a transaction that went through registration. */
  lemma RepliesFindRegistrations(s: System, m: Message)
    requires Reachable(s) && PerformsCallbacks(m)
    requires m in s.toController || m in s.ctl.inbound || s.ctl.current == Some(m)
    ensures exists t :: t in Registrations(s) && Own(t) && t.xid == m.xid
                        && (t.acknowledged ==> t in s.ctl.callbacks || HasFired(s, t))
  {
    ReachableInv(s);
    assert m in s.emitted;
    var i: nat :| Answers(s, m, i);
    assert s.arrived[i] in Registrations(s);
  }

  ghost predicate ExecutedBefore(s: System, i: nat, j: nat) {
    exists p, q :: 0 <= p < q < |s.executed| && s.executed[p] == i && s.executed[q] == j
  }

  /** Section 5.3.7, read off the execution log: what was received ahead of an executed barrier was
      executed before it, and nothing received behind it was. */
  lemma BarrierExecutesAfter(s: System, i: nat, j: nat)
    requires SwitchOrder(s) && i < j < |s.arrived| && s.arrived[j].kind.Barrier? && j in s.executed
    ensures ExecutedBefore(s, i, j)
  {
    var q :| 0 <= q < |s.executed| && s.executed[q] == j;
    assert Ordered(s, i, s.executed[q]);
    var p :| 0 <= p < q && s.executed[..q][p] == i;
    assert s.executed[p] == i;
  }

  lemma BarrierExecutesBefore(s: System, j: nat, i: nat)
    requires SwitchOrder(s) && j < i && j < |s.arrived| && s.arrived[j].kind.Barrier?
    ensures !ExecutedBefore(s, i, j)
  {
    forall p, q | 0 <= p < q < |s.executed| && s.executed[p] == i ensures s.executed[q] != j {
      assert Ordered(s, j, s.executed[p]);
      var r :| 0 <= r < p && s.executed[..p][r] == j;
      assert s.executed[r] == j;
    }
  }

  /** The exact condition for barrier completion to be sound. A transaction completed by the
      reply of another barrier was executed before that barrier if and only if it was
      enqueued ahead of it; and then the switch never reports an error for it. */
  lemma BarrierCompletionExact(s: System, c: Completion, i: nat, j: nat)
    requires Reachable(s) && c in s.ctl.fired && c.cause.BarrierReply? && c.txn.xid != c.cause.xid
    requires i < |s.enqueued| && s.enqueued[i] == c.txn
    requires j < |s.enqueued| && Own(s.enqueued[j]) && s.enqueued[j].xid == c.cause.xid
    ensures i < j <==> ExecutedBefore(s, i, j)
    ensures i < j ==> ErrorReply(c.txn.xid) !in s.emitted
  {
    ReachableInv(s);
    FinishedWasEmitted(s, c);
    var k: nat :| Answers(s, c.cause, k);
    assert s.arrived[k] == s.enqueued[k] && s.enqueued[k] in s.issued && s.enqueued[j] in s.issued;
    assert k == j;
    if i < j {
      BarrierExecutesAfter(s, i, j);
      assert s.arrived[i] == c.txn;
    } else {
      BarrierExecutesBefore(s, j, i);
    }
  }

  /** Clients enqueue their transactions in the order in which they took the xids. */
  ghost predicate EnqueuedInXidOrder(s: System) {
    forall i, j :: 0 <= i < j < |s.enqueued| && Own(s.enqueued[i]) && Own(s.enqueued[j])
                   ==> s.enqueued[i].xid < s.enqueued[j].xid
  }

  /** Barrier soundness, under the ordering discipline. */
  lemma BarrierSoundness(s: System, c: Completion)
    requires Reachable(s) && EnqueuedInXidOrder(s)
    requires c in s.ctl.fired && c.cause.BarrierReply? && c.txn.xid != c.cause.xid
    ensures c.ok && ErrorReply(c.txn.xid) !in s.emitted
    ensures exists i: nat, j: nat :: i < j < |s.arrived| && s.arrived[i] == c.txn
                                     && s.arrived[j].kind.Barrier? && s.arrived[j].xid == c.cause.xid
                                     && ExecutedBefore(s, i, j)
  {
    var i, j := CompletedAheadOfBarrier(s, c);
    BarrierCompletionExact(s, c, i, j);
  }

  lemma CompletedAheadOfBarrier(s: System, c: Completion) returns (i: nat, j: nat)
    requires Reachable(s) && EnqueuedInXidOrder(s)
    requires c in s.ctl.fired && c.cause.BarrierReply? && c.txn.xid != c.cause.xid
    ensures c.ok && i < j < |s.arrived| <= |s.enqueued|
    ensures s.arrived[i] == s.enqueued[i] == c.txn
    ensures s.arrived[j] == s.enqueued[j] && Own(s.arrived[j]) && s.arrived[j].kind.Barrier? && s.arrived[j].xid == c.cause.xid
  {
    ReachableInv(s);
    FinishedWasEmitted(s, c);
    FiredIsOwn(s, c);
    RegisteredWasEnqueued(s);
    j :| Answers(s, c.cause, j);
    i :| i < |s.enqueued| && s.enqueued[i] == c.txn;
    assert s.arrived[j] == s.enqueued[j] && i < j;
  }

  /** Barrier drain, with no ordering hypothesis: everything that waited for its callback when
      a barrier's xid was reserved is completed once the barrier's reply has been handled, and
      already once the barrier's own callback has fired. */
  lemma BarrierDrains(s: System, b: Transaction, t: Transaction)
    requires Reachable(s) && b in s.waitingAt && t in s.waitingAt[b]
    requires HasFired(s, b) || BarrierReply(b.xid) in s.processed
    ensures HasFired(s, t) && t !in s.ctl.callbacks
  {
    ReachableInv(s);
    assert Settles(s, b);
  }

  /** When the maintenance thread's `send_barrier_request` returns, everything it saw in the
      backlog when it decided to post the barrier has been completed. */
  lemma MaintenanceBarrierFlushes(s: System, t: Transaction)
    requires Reachable(s) && Enabled(s, MaintenanceReturn) && t in s.maintenance.seen
    ensures HasFired(s, t) && t !in s.ctl.callbacks
  {
    ReachableInv(s);
    assert Settles(s, s.maintenance.barrier);
  }

  /** Handling a barrier reply keeps exactly the transactions with larger xids, in order. */
  lemma LargerXidsSurvive(s: System)
    requires s.ctl.current.Some? && s.ctl.current.value.BarrierReply?
    ensures var s' := Apply(s, ProcessLoopHandle);
            && KeepsOrder(s'.ctl.callbacks, s.ctl.callbacks)
            && forall t :: t in s'.ctl.callbacks <==> t in s.ctl.callbacks && t.xid > s.ctl.current.value.xid
  {
    BarrierSplitsBacklog(s.ctl.callbacks, s.ctl.current.value);
    SurvivorsKeepOrder(s.ctl.callbacks, s.ctl.current.value.xid);
  }

  // ---------- the ordering hypothesis is needed ----------

  lemma {:induction false} RunsExtend(s: System, steps: seq<Step>, step: Step)
    requires Runs(s, steps) && Enabled(After(s, steps), step)
    ensures Runs(s, steps + [step]) && After(s, steps + [step]) == Apply(After(s, steps), step)
    decreases |steps|
  {
    var longer := steps + [step];
    if steps == [] {
      assert longer == [step] && longer[1..] == [];
    } else {
      assert longer[0] == steps[0] && longer[1..] == steps[1..] + [step];
      RunsExtend(Apply(s, steps[0]), steps[1..], step);
    }
  }

  lemma Extend(s: System, step: Step) returns (s': System)
    requires Reachable(s) && Enabled(s, step)
    ensures Reachable(s') && s' == Apply(s, step)
  {
    var init, steps :| Init(init) && Runs(init, steps) && After(init, steps) == s;
    RunsExtend(init, steps, step);
    s' := Apply(s, step);
    assert Init(init) && Runs(init, steps + [step]) && After(init, steps + [step]) == s';
  }

  /** A client takes xid 1 and is delayed; the maintenance thread (or any other client) posts a
      barrier with xid 2; the client enqueues while the barrier's reply is under way. The reply
      completes the command successfully before it is even written to the socket, and the
      switch then rejects it. */
  lemma OvertakenTransactionFails() returns (s: System, c: Completion)
    ensures Reachable(s) && c in s.ctl.fired && c.cause.BarrierReply? && c.txn.xid < c.cause.xid
    ensures c.ok && ErrorReply(c.txn.xid) in s.emitted
  {
    var t, b := Transaction(1, Command, true), Transaction(2, Barrier, true);
    s := TwoClients(t, b);
    s := BarrierCrosses(s, b);
    s := LateRegistration(s, t, b);
    c := BarrierCompletion(t, BarrierReply(2));
    s := Rejection(s, t, b);
  }

  /** The switch receives a command behind an executed barrier and rejects it. */
  lemma Rejection(s: System, t: Transaction, b: Transaction) returns (s': System)
    requires Reachable(s) && t.kind.Command? && s.ctl.hand == Registered(t)
    requires s.toSwitch == [] && s.arrived == [b] && s.executed == [0]
    ensures Reachable(s') && s'.ctl.fired == s.ctl.fired && ErrorReply(t.xid) in s'.emitted
  {
    s' := Delivery(s, t, b);
    s' := Extend(s', SwitchExecute(1, [ErrorReply(t.xid)]));
  }

  lemma Delivery(s: System, t: Transaction, b: Transaction) returns (s': System)
    requires Reachable(s) && s.ctl.hand == Registered(t) && s.toSwitch == [] && s.arrived == [b]
    ensures Reachable(s') && s' == s.(ctl := s.ctl.(hand := Idle), arrived := [b, t])
  {
    s' := Extend(s, SendLoopWrite);
    assert s'.toSwitch == [t];
    s' := Extend(s', SwitchReceive);
    assert s'.arrived == [b, t] && s'.toSwitch == [];
  }

  lemma TwoClients(t: Transaction, b: Transaction) returns (s: System)
    requires t == Transaction(1, Command, true) && b == Transaction(2, Barrier, true)
    ensures Reachable(s)
    ensures s == System(Controller(3, [b], Idle, [], [], None, []), {t}, Asleep, [], [], [], [], {t, b}, [b], [], [], map[b := []])
  {
    s := System(Controller(1, [], Idle, [], [], None, []), {}, Asleep, [], [], [], [], {}, [], [], [], map[]);
    assert Init(s) && Runs(s, []) && After(s, []) == s;
    s := Extend(s, ClientReserve(Command, true));
    s := Extend(s, ClientReserve(Barrier, true));
    assert s.reserved == {t, b} && s.issued == {t, b};
    s := Extend(s, ClientEnqueue(b));
    assert s.reserved == {t};
  }

  lemma LateRegistration(s: System, t: Transaction, b: Transaction) returns (s': System)
    requires Reachable(s) && t.acknowledged && t in s.reserved && b.acknowledged && t.xid < b.xid
    requires s.ctl.pending == [] && s.ctl.hand.Idle? && s.ctl.callbacks == [b]
    requires s.ctl.current.None? && s.ctl.inbound == [BarrierReply(b.xid)]
    ensures Reachable(s') && BarrierCompletion(t, BarrierReply(b.xid)) in s'.ctl.fired
    ensures s'.ctl.hand == Registered(t) && s'.toSwitch == s.toSwitch && s'.arrived == s.arrived
    ensures s'.executed == s.executed && s'.emitted == s.emitted
  {
    s' := Register(s, t);
    assert s'.ctl.callbacks == [b, t];
    s' := Extend(s', ProcessLoopTake);
    s' := ReplyCompletes(s', t);
  }

  lemma ReplyCompletes(s: System, t: Transaction) returns (s': System)
    requires Reachable(s) && s.ctl.current.Some? && s.ctl.current.value.BarrierReply?
    requires t in s.ctl.callbacks && t.xid <= s.ctl.current.value.xid
    ensures Reachable(s') && BarrierCompletion(t, s.ctl.current.value) in s'.ctl.fired
    ensures s'.ctl.hand == s.ctl.hand && s'.toSwitch == s.toSwitch && s'.arrived == s.arrived
    ensures s'.executed == s.executed && s'.emitted == s.emitted
  {
    BarrierSplitsBacklog(s.ctl.callbacks, s.ctl.current.value);
    s' := Extend(s, ProcessLoopHandle);
  }

  /** A reserved transaction goes through the pending queue into the backlog. */
  lemma Register(s: System, t: Transaction) returns (s': System)
    requires Reachable(s) && t.acknowledged && t in s.reserved && s.ctl.pending == [] && s.ctl.hand.Idle?
    ensures Reachable(s')
    ensures s' == s.(ctl := s.ctl.(hand := Registered(t), callbacks := s.ctl.callbacks + [t]),
                     reserved := s.reserved - {t}, enqueued := s.enqueued + [t])
  {
    s' := Extend(s, ClientEnqueue(t));
    assert s'.ctl.pending == [t];
    s' := Extend(s', SendLoopTake);
    s' := Extend(s', SendLoopRegister);
  }

  /** A lone barrier goes from the pending queue to the switch, and its reply comes back as
      far as the receive loop. */
  lemma BarrierCrosses(s: System, b: Transaction) returns (s': System)
    requires Reachable(s) && b.kind.Barrier? && b.acknowledged && s.ctl.pending == [b] && s.ctl.hand.Idle?
    requires s.ctl.callbacks == [] && s.toSwitch == [] && s.arrived == [] && s.executed == [] && s.toController == []
    ensures Reachable(s')
    ensures s' == s.(ctl := s.ctl.(pending := [], callbacks := [b], inbound := s.ctl.inbound + [BarrierReply(b.xid)]),
                     arrived := [b], executed := [0], emitted := s.emitted + [BarrierReply(b.xid)])
  {
    s' := BarrierArrives(s, b);
    s' := Extend(s', SwitchExecute(0, [BarrierReply(b.xid)]));
    assert s'.executed == [0] && s'.toController == [BarrierReply(b.xid)];
    s' := Extend(s', RecvLoop);
    assert s'.toController == [];
  }

  lemma BarrierArrives(s: System, b: Transaction) returns (s': System)
    requires Reachable(s) && b.acknowledged && s.ctl.pending == [b] && s.ctl.hand.Idle?
    requires s.ctl.callbacks == [] && s.toSwitch == [] && s.arrived == []
    ensures Reachable(s')
    ensures s' == s.(ctl := s.ctl.(pending := [], callbacks := [b]), arrived := [b])
  {
    s' := Extend(s, SendLoopTake);
    s' := Extend(s', SendLoopRegister);
    assert s'.ctl == s.ctl.(pending := [], hand := Registered(b), callbacks := [b]);
    s' := Extend(s', SendLoopWrite);
    assert s'.toSwitch == [b];
    s' := Extend(s', SwitchReceive);
    assert s'.arrived == [b] && s'.toSwitch == [];
  }
}
