/** No transaction is ever stuck: from every reachable state of the HAL protocol, and as long as
    an xid is left for a barrier, some run performs its callback.
    Source: controller/hal/hal.cpp (the thread loops and `send_barrier_request`). */
module HalProgress {
  import opened Common
  import opened HalController
  import opened HalProtocol

  ghost predicate LeadsTo(s: System, s': System) {
    exists steps :: Runs(s, steps) && After(s, steps) == s'
  }

  /** `s` lies on a run from `start`. */
  ghost predicate OnRun(start: System, s: System) {
    LeadsTo(start, s) && Inv(s)
  }

  lemma StartOnRun(s: System)
    requires Reachable(s)
    ensures OnRun(s, s)
  {
    ReachableInv(s);
    assert Runs(s, []) && After(s, []) == s;
  }

  lemma Go(start: System, s: System, step: Step) returns (s': System)
    requires OnRun(start, s) && Enabled(s, step)
    ensures OnRun(start, s') && s' == Apply(s, step)
  {
    var steps :| Runs(start, steps) && After(start, steps) == s;
    RunsExtend(start, steps, step);
    s' := Apply(s, step);
    assert Runs(start, steps + [step]) && After(start, steps + [step]) == s';
    InvKept(s, step);
  }

  // ---------- everything enqueued reaches the switch ----------

  function OutboundWork(s: System): nat {
    4 * |s.ctl.pending| + (match s.ctl.hand case Idle => 0 case Taken(t) => 3 case Registered(t) => 2) + |s.toSwitch|
  }

  /** Delivering does not touch what the switch executed or said, nor what happens at home. */
  ghost predicate SameExceptOutbound(s: System, s': System) {
    && s'.enqueued == s.enqueued && s'.waitingAt == s.waitingAt
    && s'.executed == s.executed && s'.emitted == s.emitted && s'.ctl.nextXid == s.ctl.nextXid
  }

  /** The step that moves the foremost transaction on. */
  function OutboundStep(s: System): Step
    requires OutboundWork(s) > 0
  {
    if s.toSwitch != [] then SwitchReceive
    else match s.ctl.hand
         case Registered(t) => Step.SendLoopWrite
         case Taken(t) => Step.SendLoopRegister
         case Idle => SendLoopTake
  }

  lemma {:induction false} DeliverAll(start: System, s: System) returns (s': System)
    requires OnRun(start, s)
    ensures OnRun(start, s') && SameExceptOutbound(s, s') && s'.arrived == s'.enqueued
    decreases OutboundWork(s)
  {
    if OutboundWork(s) == 0 {
      s' := s;
    } else {
      s' := Go(start, s, OutboundStep(s));
      s' := DeliverAll(start, s');
    }
  }

  // ---------- the switch executes everything it received ----------

  /** A barrier's position, and that its reply was sent if it was executed. */
  ghost predicate Answerable(s: System, b: Transaction, k: nat) {
    && k < |s.enqueued| && s.enqueued[k] == b && b.kind.Barrier?
    && (k in s.executed ==> BarrierReply(b.xid) in s.emitted)
  }

  function Quietly(t: Transaction): (output: seq<Message>)
    ensures LegalOutput(t, output)
  {
    if t.kind.Barrier? then [BarrierReply(t.xid)] else []
  }

  lemma {:induction false} ExecuteAll(start: System, s: System, n: nat, b: Transaction, k: nat) returns (s': System)
    requires OnRun(start, s) && s.arrived == s.enqueued && Answerable(s, b, k)
    requires n <= |s.arrived| && forall j: nat :: j < n ==> j in s.executed
    ensures OnRun(start, s') && s'.waitingAt == s.waitingAt && BarrierReply(b.xid) in s'.emitted
    decreases |s.arrived| - n
  {
    if n == |s.arrived| {
      s' := s;
    } else if n in s.executed {
      s' := ExecuteAll(start, s, n + 1, b, k);
    } else {
      s' := Go(start, s, SwitchExecute(n, Quietly(s.arrived[n])));
      s' := ExecuteAll(start, s', n + 1, b, k);
    }
  }

  // ---------- everything the switch said is handled ----------

  function HomewardWork(s: System): nat {
    3 * |s.toController| + 2 * |s.ctl.inbound| + if s.ctl.current.Some? then 1 else 0
  }

  function HomewardStep(s: System): Step
    requires HomewardWork(s) > 0
  {
    if s.ctl.current.Some? then Step.ProcessLoopHandle
    else if s.ctl.inbound != [] then ProcessLoopTake
    else RecvLoop
  }

  lemma {:induction false} HandleAll(start: System, s: System) returns (s': System)
    requires OnRun(start, s)
    ensures OnRun(start, s') && s'.waitingAt == s.waitingAt && s'.processed == s'.emitted == s.emitted
    decreases HomewardWork(s)
  {
    if HomewardWork(s) == 0 {
      s' := s;
    } else {
      s' := Go(start, s, HomewardStep(s));
      s' := HandleAll(start, s');
    }
  }

  // ---------- a barrier flushes the backlog ----------

  /** A client posts a barrier. */
  lemma Post(start: System, s: System) returns (s': System, b: Transaction)
    requires OnRun(start, s) && s.ctl.nextXid + 1 < XID_LIMIT
    ensures OnRun(start, s') && Answerable(s', b, |s.enqueued|)
    ensures b in s'.waitingAt && s'.waitingAt[b] == s.ctl.callbacks
  {
    b := Transaction(s.ctl.nextXid, Barrier, true);
    s' := Go(start, s, ClientReserve(Barrier, true));
    s' := Go(start, s', ClientEnqueue(b));
    assert |s.enqueued| !in s.executed by {
      RegisteredWasEnqueued(s);
    }
  }

  lemma Flush(start: System, s: System) returns (s': System)
    requires OnRun(start, s) && s.ctl.nextXid + 1 < XID_LIMIT
    ensures OnRun(start, s') && forall t :: t in s.ctl.callbacks ==> HasFired(s', t)
  {
    var b;
    s', b := Post(start, s);
    var k := |s.enqueued|;
    s' := DeliverAll(start, s');
    s' := ExecuteAll(start, s', 0, b, k);
    s' := HandleAll(start, s');
    assert Settles(s', b);
  }

  /** From every reachable state, some run performs the callbacks of everything that waits. */
  lemma BacklogCanDrain(s: System)
    requires Reachable(s) && s.ctl.nextXid + 1 < XID_LIMIT
    ensures exists s' :: LeadsTo(s, s') && forall t :: t in s.ctl.callbacks ==> HasFired(s', t)
  {
    StartOnRun(s);
    var s' := Flush(s, s);
    assert LeadsTo(s, s');
  }

  /** An acknowledged transaction that a client has built can get into the backlog. */
  lemma CanRegister(start: System, s: System, t: Transaction) returns (s': System)
    requires OnRun(start, s) && t in s.issued && t.acknowledged
    ensures OnRun(start, s') && s'.ctl.nextXid == s.ctl.nextXid && (t in s'.ctl.callbacks || HasFired(s', t))
  {
    s' := s;
    if t in s.reserved {
      s' := Go(start, s, ClientEnqueue(t));
    }
    assert t in s'.enqueued;
    s' := DeliverAll(start, s');
    assert t in Registrations(s');
  }

  /** No acknowledged transaction is ever stuck, wherever it is. */
  lemma CanComplete(s: System, t: Transaction)
    requires Reachable(s) && t in s.issued && t.acknowledged && s.ctl.nextXid + 1 < XID_LIMIT
    ensures exists s' :: LeadsTo(s, s') && HasFired(s', t)
  {
    StartOnRun(s);
    var s' := CanRegister(s, s, t);
    if !HasFired(s', t) {
      s' := Flush(s, s');
    }
    assert LeadsTo(s, s');
  }
}
