/** The controller side of the OpenFlow channel: transactions, the queues between
    the HAL threads, and the callback backlog.
    Source: controller/hal/hal.cpp, controller/hal/hal_transaction.cpp. */
module HalController {
  import opened Common

  /** What a transaction asks of the switch. `Query` covers the requests whose replies
      (features, configuration) the process loop handles without callbacks; `Command`
      covers the messages the switch acts on without replying; `EchoAnswer` is the
      controller's answer to an echo request of the switch. */
  datatype Kind = Barrier | Echo | Stats | Query | Command | EchoAnswer

  datatype Transaction = Transaction(xid: nat, kind: Kind, acknowledged: bool)

  /** Messages read from the switch. `Notification` stands for every message type that
      performs no callback (packet-in, features, configuration, flow-removed, port-status). */
  datatype Message =
    | BarrierReply(xid: nat)
    | ErrorReply(xid: nat)
    | EchoReply(xid: nat)
    | StatsReply(xid: nat)
    | EchoQuestion(xid: nat)
    | Notification(xid: nat)

  /** One call of `hal_callback`: the transaction, the reply handed over (if any), the
      status flag, and the message whose processing made the call. */
  datatype Completion = Completion(txn: Transaction, reply: Option<Message>, ok: bool, cause: Message)

  /** The send loop's local variable: nothing, a dequeued transaction, or one that went
      through the registration in the callback backlog and awaits the socket write. */
  datatype Hand = Idle | Taken(txn: Transaction) | Registered(txn: Transaction)

  datatype Controller = Controller(
    nextXid: nat,
    pending: seq<Transaction>,
    hand: Hand,
    callbacks: seq<Transaction>,
    inbound: seq<Message>,
    current: Option<Message>,
    fired: seq<Completion>)

  const XID_LIMIT: nat := 0x1_0000_0000

  predicate PerformsCallbacks(m: Message) {
    m.BarrierReply? || m.ErrorReply? || m.EchoReply? || m.StatsReply?
  }

  /** The outcome a blocking callback derives from the reply it is handed. */
  predicate Successful(reply: Option<Message>) {
    !(reply.Some? && reply.value.ErrorReply?)
  }

  // ---------- what a barrier reply does to the backlog ----------

  function Survivors(callbacks: seq<Transaction>, xid: nat): seq<Transaction> {
    if callbacks == [] then []
    else (if callbacks[0].xid <= xid then [] else [callbacks[0]]) + Survivors(callbacks[1..], xid)
  }

  function BarrierCompletion(t: Transaction, m: Message): Completion {
    Completion(t, if t.xid == m.xid then Some(m) else None, true, m)
  }

  function Drained(callbacks: seq<Transaction>, m: Message): seq<Completion> {
    if callbacks == [] then []
    else (if callbacks[0].xid <= m.xid then [BarrierCompletion(callbacks[0], m)] else [])
         + Drained(callbacks[1..], m)
  }

  /** A barrier reply splits the backlog: what stays is an order-preserving selection of the
      larger xids, what leaves is everything else, one completion each. */
  lemma {:induction false} BarrierSplitsBacklog(callbacks: seq<Transaction>, m: Message)
    ensures forall t :: t in Survivors(callbacks, m.xid) <==> t in callbacks && t.xid > m.xid
    ensures forall c :: c in Drained(callbacks, m)
                        <==> c.txn in callbacks && c.txn.xid <= m.xid && c == BarrierCompletion(c.txn, m)
    ensures |Survivors(callbacks, m.xid)| + |Drained(callbacks, m)| == |callbacks|
  {
    if callbacks != [] {
      BarrierSplitsBacklog(callbacks[1..], m);
      assert callbacks == [callbacks[0]] + callbacks[1..];
    }
  }

  lemma {:induction false} SurvivorsOfAppend(a: seq<Transaction>, t: Transaction, xid: nat)
    ensures Survivors(a + [t], xid) == Survivors(a, xid) + if t.xid <= xid then [] else [t]
  {
    if a == [] {
      assert a + [t] == [t];
    } else {
      var longer := a + [t];
      assert longer[0] == a[0] && longer[1..] == a[1..] + [t];
      SurvivorsOfAppend(a[1..], t, xid);
      Regroup(if a[0].xid <= xid then [] else [a[0]], Survivors(a[1..], xid), if t.xid <= xid then [] else [t]);
    }
  }

  lemma {:induction false} DrainedOfAppend(a: seq<Transaction>, t: Transaction, m: Message)
    ensures Drained(a + [t], m) == Drained(a, m) + if t.xid <= m.xid then [BarrierCompletion(t, m)] else []
  {
    var last := if t.xid <= m.xid then [BarrierCompletion(t, m)] else [];
    if a == [] {
      assert a + [t] == [t];
    } else {
      var first := if a[0].xid <= m.xid then [BarrierCompletion(a[0], m)] else [];
      var all := a + [t];
      assert all[0] == a[0] && all[1..] == a[1..] + [t];
      DrainedOfAppend(a[1..], t, m);
      assert first + (Drained(a[1..], m) + last) == (first + Drained(a[1..], m)) + last;
    }
  }

  ghost predicate DistinctXids(ts: seq<Transaction>) {
    forall i, j :: 0 <= i < j < |ts| ==> ts[i].xid != ts[j].xid
  }

  ghost predicate FiredOnce(cs: seq<Completion>) {
    forall i, j :: 0 <= i < j < |cs| ==> cs[i].txn.xid != cs[j].txn.xid
  }

  /** `sub` picks elements of `all` at increasing positions. */
  ghost predicate KeepsOrder(sub: seq<Transaction>, all: seq<Transaction>) {
    exists at: seq<nat> :: SelectsAt(sub, all, at)
  }

  ghost predicate SelectsAt(sub: seq<Transaction>, all: seq<Transaction>, at: seq<nat>) {
    && |at| == |sub|
    && (forall k :: 0 <= k < |at| ==> at[k] < |all| && sub[k] == all[at[k]])
    && (forall k, l :: 0 <= k < l < |at| ==> at[k] < at[l])
  }

  lemma {:induction false} SurvivorsKeepOrder(callbacks: seq<Transaction>, xid: nat)
    ensures KeepsOrder(Survivors(callbacks, xid), callbacks)
    ensures DistinctXids(callbacks) ==> DistinctXids(Survivors(callbacks, xid))
  {
    var at := SurvivorPositions(callbacks, xid);
  }

  lemma {:induction false} SurvivorPositions(callbacks: seq<Transaction>, xid: nat) returns (at: seq<nat>)
    ensures SelectsAt(Survivors(callbacks, xid), callbacks, at)
  {
    if callbacks == [] {
      at := [];
    } else {
      var later := SurvivorPositions(callbacks[1..], xid);
      at := SelectsFromTail(Survivors(callbacks[1..], xid), callbacks, later);
      if callbacks[0].xid > xid {
        SelectsHead(Survivors(callbacks[1..], xid), callbacks, at);
        at := [0] + at;
      }
    }
  }

  lemma SelectsFromTail(sub: seq<Transaction>, all: seq<Transaction>, later: seq<nat>) returns (at: seq<nat>)
    requires all != [] && SelectsAt(sub, all[1..], later)
    ensures SelectsAt(sub, all, at) && forall k :: 0 <= k < |at| ==> at[k] > 0
  {
    at := seq(|later|, k requires 0 <= k < |later| => later[k] + 1);
  }

  lemma SelectsHead(sub: seq<Transaction>, all: seq<Transaction>, at: seq<nat>)
    requires all != [] && SelectsAt(sub, all, at) && forall k :: 0 <= k < |at| ==> at[k] > 0
    ensures SelectsAt([all[0]] + sub, all, [0] + at)
  {
  }

  function TransactionsOf(cs: seq<Completion>): seq<Transaction> {
    if cs == [] then [] else [cs[0].txn] + TransactionsOf(cs[1..])
  }

  lemma TransactionsOfNext(c: Completion, cs: seq<Completion>)
    ensures TransactionsOf([c] + cs) == [c.txn] + TransactionsOf(cs)
  {
    assert ([c] + cs)[1..] == cs;
  }

  /** Callbacks fire in the order of the backlog. */
  lemma DrainedInOrder(callbacks: seq<Transaction>, m: Message)
    ensures KeepsOrder(TransactionsOf(Drained(callbacks, m)), callbacks)
  {
    var at := DrainedPositions(callbacks, m);
  }

  lemma {:induction false} DrainedPositions(callbacks: seq<Transaction>, m: Message) returns (at: seq<nat>)
    ensures SelectsAt(TransactionsOf(Drained(callbacks, m)), callbacks, at)
  {
    if callbacks == [] {
      at := [];
    } else {
      var drained := Drained(callbacks[1..], m);
      var rest := TransactionsOf(drained);
      var later := DrainedPositions(callbacks[1..], m);
      at := SelectsFromTail(rest, callbacks, later);
      if callbacks[0].xid <= m.xid {
        SelectsHead(rest, callbacks, at);
        at := [0] + at;
        TransactionsOfNext(BarrierCompletion(callbacks[0], m), drained);
      } else {
        assert Drained(callbacks, m) == [] + drained == drained;
      }
    }
  }

  lemma {:induction false} DrainedOnce(callbacks: seq<Transaction>, m: Message)
    requires DistinctXids(callbacks)
    ensures FiredOnce(Drained(callbacks, m))
  {
    if callbacks != [] {
      DrainedOnce(callbacks[1..], m);
      BarrierSplitsBacklog(callbacks[1..], m);
      assert forall c :: c in Drained(callbacks[1..], m) ==> c.txn in callbacks[1..];
    }
  }

  // ---------- what any other reply does to the backlog ----------

  function FirstWith(callbacks: seq<Transaction>, xid: nat): (k: nat)
    ensures k <= |callbacks|
    ensures k < |callbacks| ==> callbacks[k].xid == xid
    ensures forall i :: 0 <= i < k ==> callbacks[i].xid != xid
  {
    if callbacks == [] || callbacks[0].xid == xid then 0 else 1 + FirstWith(callbacks[1..], xid)
  }

  function WithoutFirst(callbacks: seq<Transaction>, xid: nat): seq<Transaction> {
    var k := FirstWith(callbacks, xid);
    if k == |callbacks| then callbacks else callbacks[..k] + callbacks[k + 1..]
  }

  function MatchedBy(callbacks: seq<Transaction>, m: Message): seq<Completion> {
    var k := FirstWith(callbacks, m.xid);
    if k == |callbacks| then []
    else [Completion(callbacks[k], Some(m), !m.ErrorReply?, m)]
  }

  lemma MatchedReplySplitsBacklog(callbacks: seq<Transaction>, m: Message)
    requires DistinctXids(callbacks)
    ensures forall t :: t in WithoutFirst(callbacks, m.xid) <==> t in callbacks && t.xid != m.xid
    ensures DistinctXids(WithoutFirst(callbacks, m.xid))
    ensures forall c :: c in MatchedBy(callbacks, m)
                        <==> c.txn in callbacks && c.txn.xid == m.xid && c == Completion(c.txn, Some(m), !m.ErrorReply?, m)
    ensures |MatchedBy(callbacks, m)| <= 1
  {
    WithoutFirstDropsMatch(callbacks, m.xid);
    var k := FirstWith(callbacks, m.xid);
    assert forall t :: t in callbacks && t.xid == m.xid ==> k < |callbacks| && t == callbacks[k];
  }

  lemma WithoutFirstDropsMatch(callbacks: seq<Transaction>, xid: nat)
    requires DistinctXids(callbacks)
    ensures forall t :: t in WithoutFirst(callbacks, xid) <==> t in callbacks && t.xid != xid
    ensures DistinctXids(WithoutFirst(callbacks, xid))
  {
    var k := FirstWith(callbacks, xid);
    if k < |callbacks| {
      assert callbacks == callbacks[..k] + [callbacks[k]] + callbacks[k + 1..];
    }
  }

  // ---------- the controller's atomic steps, as functions on its state ----------

  function Reserve(c: Controller): Controller {
    c.(nextXid := if c.nextXid + 1 < XID_LIMIT then c.nextXid + 1 else 0)
  }

  function Enqueue(c: Controller, t: Transaction): Controller {
    c.(pending := c.pending + [t])
  }

  function SendTake(c: Controller): Controller
    requires c.hand.Idle? && c.pending != []
  {
    c.(hand := Taken(c.pending[0]), pending := c.pending[1..])
  }

  function SendRegister(c: Controller): Controller
    requires c.hand.Taken?
  {
    c.(hand := Registered(c.hand.txn),
       callbacks := if c.hand.txn.acknowledged then c.callbacks + [c.hand.txn] else c.callbacks)
  }

  function SendWrite(c: Controller): Controller
    requires c.hand.Registered?
  {
    c.(hand := Idle)
  }

  function Receive(c: Controller, m: Message): Controller {
    c.(inbound := c.inbound + [m])
  }

  function ProcessTake(c: Controller): Controller
    requires c.current.None? && c.inbound != []
  {
    c.(current := Some(c.inbound[0]), inbound := c.inbound[1..])
  }

  function AnswerTo(m: Message): Transaction {
    Transaction(m.xid, EchoAnswer, false)
  }

  function ProcessMessage(c: Controller): Controller
    requires c.current.Some?
  {
    var m := c.current.value;
    var d := c.(current := None);
    if m.BarrierReply? then
      d.(callbacks := Survivors(c.callbacks, m.xid), fired := c.fired + Drained(c.callbacks, m))
    else if PerformsCallbacks(m) then
      d.(callbacks := WithoutFirst(c.callbacks, m.xid), fired := c.fired + MatchedBy(c.callbacks, m))
    else if m.EchoQuestion? then
      d.(pending := c.pending + [AnswerTo(m)])
    else d
  }

  // ---------- what each message does ----------

  /** A reply that is not a barrier's completes the waiting transaction it answers, with the reply
      and the status its type stands for, and no other. */
  lemma MatchingReplyCompletes(c: Controller, t: Transaction, m: Message)
    requires c.current == Some(m) && DistinctXids(c.callbacks) && t in c.callbacks && t.xid == m.xid
    requires m.ErrorReply? || m.EchoReply? || m.StatsReply?
    ensures var d := ProcessMessage(c);
            && d.fired == c.fired + [Completion(t, Some(m), m.EchoReply? || m.StatsReply?, m)]
            && (forall u :: u in d.callbacks <==> u in c.callbacks && u != t)
            && d == c.(current := None, callbacks := d.callbacks, fired := d.fired)
  {
    MatchedReplySplitsBacklog(c.callbacks, m);
    assert Completion(t, Some(m), !m.ErrorReply?, m) in MatchedBy(c.callbacks, m);
    assert forall i, j :: 0 <= i < |c.callbacks| && 0 <= j < |c.callbacks| && c.callbacks[i].xid == c.callbacks[j].xid ==> i == j;
  }

  /** A reply nobody waits for changes nothing. */
  lemma StrayReplyIsDropped(c: Controller, m: Message)
    requires c.current == Some(m) && (m.ErrorReply? || m.EchoReply? || m.StatsReply?)
    requires forall t :: t in c.callbacks ==> t.xid != m.xid
    ensures ProcessMessage(c) == c.(current := None)
  {
  }

  /** A barrier reply completes its own barrier with the reply, and every transaction with a smaller
      xid successfully and without one. */
  lemma BarrierReplyCompletes(c: Controller, t: Transaction, x: nat)
    requires c.current == Some(BarrierReply(x)) && t in c.callbacks && t.xid <= x
    ensures var d := ProcessMessage(c);
            && t !in d.callbacks
            && (t.xid == x ==> Completion(t, Some(BarrierReply(x)), true, BarrierReply(x)) in d.fired)
            && (t.xid < x ==> Completion(t, None, true, BarrierReply(x)) in d.fired)
            && d == c.(current := None, callbacks := d.callbacks, fired := d.fired)
  {
    BarrierSplitsBacklog(c.callbacks, BarrierReply(x));
    assert BarrierCompletion(t, BarrierReply(x)) in Drained(c.callbacks, BarrierReply(x));
  }

  /** An echo request of the switch is answered under the switch's own xid; every other message only
      goes to the services. Neither touches the backlog. */
  lemma OtherMessages(c: Controller, x: nat)
    ensures c.current == Some(EchoQuestion(x))
            ==> ProcessMessage(c) == c.(current := None, pending := c.pending + [Transaction(x, EchoAnswer, false)])
    ensures c.current == Some(Notification(x)) ==> ProcessMessage(c) == c.(current := None)
  {
  }

  /** Reserving takes the next xid modulo 2^32 and changes nothing else. */
  lemma ReserveAdvances(c: Controller)
    requires c.nextXid < 0x1_0000_0000
    ensures Reserve(c) == c.(nextXid := (c.nextXid + 1) % 0x1_0000_0000)
  {
  }

  // ---------- the controller object ----------

  /** The fields the HAL threads share, with one method for each stretch of code that runs
      between two points where another thread can interfere. The queues are unbounded, as
      the default-constructed `rwqueue` is. */
  class Hal {
    var xidCounter: nat
    var pendingTransactions: seq<Transaction>
    var sendLoopMessage: Hand
    var callbackTransactions: seq<Transaction>
    var asynchronousMessages: seq<Message>
    var processLoopMessage: Option<Message>
    var completions: seq<Completion>

    ghost function View(): Controller
      reads this
    {
      Controller(xidCounter, pendingTransactions, sendLoopMessage, callbackTransactions,
                 asynchronousMessages, processLoopMessage, completions)
    }

    constructor ()
      ensures View() == Controller(1, [], Idle, [], [], None, [])
    {
      xidCounter := 1;
      pendingTransactions, callbackTransactions, asynchronousMessages, completions := [], [], [], [];
      sendLoopMessage := Idle;
      processLoopMessage := None;
    }

    /** `assign_and_serialize`: the xid is taken when the transaction is built. The counter is an
        unsigned 32-bit number and wraps around. */
    method AssignXid(kind: Kind, acknowledged: bool) returns (t: Transaction)
      modifies this
      ensures View() == Reserve(old(View()))
      ensures t == Transaction(old(xidCounter), kind, acknowledged)
    {
      t := Transaction(xidCounter, kind, acknowledged);
      xidCounter := if xidCounter + 1 < XID_LIMIT then xidCounter + 1 else 0;
    }

    method EnqueueTransaction(t: Transaction)
      modifies this
      ensures View() == Enqueue(old(View()), t)
      ensures pendingTransactions == old(pendingTransactions) + [t]
    {
      pendingTransactions := pendingTransactions + [t];
    }

    method SendLoopDequeue()
      requires sendLoopMessage.Idle? && pendingTransactions != []
      modifies this
      ensures View() == SendTake(old(View()))
      ensures sendLoopMessage.Taken? && [sendLoopMessage.txn] + pendingTransactions == old(pendingTransactions)
    {
      sendLoopMessage := Taken(pendingTransactions[0]);
      pendingTransactions := pendingTransactions[1..];
    }

    method SendLoopRegister()
      requires sendLoopMessage.Taken?
      modifies this
      ensures View() == SendRegister(old(View()))
      ensures var t := old(sendLoopMessage).txn;
              callbackTransactions == old(callbackTransactions) + if t.acknowledged then [t] else []
    {
      if sendLoopMessage.txn.acknowledged {
        callbackTransactions := callbackTransactions + [sendLoopMessage.txn];
      }
      sendLoopMessage := Registered(sendLoopMessage.txn);
    }

    /** `send_raw`: the transaction returned is what reaches the wire. */
    method SendLoopWrite() returns (written: Transaction)
      requires sendLoopMessage.Registered?
      modifies this
      ensures View() == SendWrite(old(View())) && written == old(sendLoopMessage).txn
    {
      written := sendLoopMessage.txn;
      sendLoopMessage := Idle;
    }

    method RecvLoopEnqueue(m: Message)
      modifies this
      ensures View() == Receive(old(View()), m)
      ensures asynchronousMessages == old(asynchronousMessages) + [m]
    {
      asynchronousMessages := asynchronousMessages + [m];
    }

    method ProcessLoopDequeue()
      requires processLoopMessage.None? && asynchronousMessages != []
      modifies this
      ensures View() == ProcessTake(old(View()))
      ensures processLoopMessage.Some? && [processLoopMessage.value] + asynchronousMessages == old(asynchronousMessages)
    {
      processLoopMessage := Some(asynchronousMessages[0]);
      asynchronousMessages := asynchronousMessages[1..];
    }

    /** The body of the process loop. Each backlog scan runs with the callback lock held,
        erases list elements while it iterates, and is one atomic step. */
    method ProcessLoopHandle()
      requires processLoopMessage.Some?
      modifies this
      ensures View() == ProcessMessage(old(View()))
    {
      var m := processLoopMessage.value;
      processLoopMessage := None;
      if m.EchoQuestion? {
        pendingTransactions := pendingTransactions + [AnswerTo(m)];
      }
      if PerformsCallbacks(m) {
        if m.BarrierReply? {
          FireAllThrough(m);
        } else {
          FireMatching(m);
        }
      }
    }

    method FireAllThrough(m: Message)
      requires m.BarrierReply?
      modifies this`callbackTransactions, this`completions
      ensures callbackTransactions == Survivors(old(callbackTransactions), m.xid)
      ensures completions == old(completions) + Drained(old(callbackTransactions), m)
    {
      ghost var all := callbackTransactions;
      ghost var seen := 0;
      var cursor := 0;
      while cursor < |callbackTransactions|
        invariant cursor <= |callbackTransactions| && seen <= |all|
        invariant callbackTransactions[..cursor] == Survivors(all[..seen], m.xid)
        invariant callbackTransactions[cursor..] == all[seen..]
        invariant completions == old(completions) + Drained(all[..seen], m)
        decreases |callbackTransactions| - cursor
      {
        var t := callbackTransactions[cursor];
        assert t == all[seen] && all[..seen + 1] == all[..seen] + [t];
        SurvivorsOfAppend(all[..seen], t, m.xid);
        DrainedOfAppend(all[..seen], t, m);
        if t.xid <= m.xid {
          if t.xid == m.xid {
            completions := completions + [Completion(t, Some(m), true, m)];
          } else {
            completions := completions + [Completion(t, None, true, m)];
          }
          callbackTransactions := callbackTransactions[..cursor] + callbackTransactions[cursor + 1..];
        } else {
          cursor := cursor + 1;
        }
        seen := seen + 1;
      }
      assert all[..seen] == all;
    }

    method FireMatching(m: Message)
      modifies this`callbackTransactions, this`completions
      ensures callbackTransactions == WithoutFirst(old(callbackTransactions), m.xid)
      ensures completions == old(completions) + MatchedBy(old(callbackTransactions), m)
    {
      var cursor := 0;
      while cursor < |callbackTransactions|
        invariant cursor <= FirstWith(callbackTransactions, m.xid)
        invariant callbackTransactions == old(callbackTransactions) && completions == old(completions)
      {
        var t := callbackTransactions[cursor];
        if t.xid == m.xid {
          completions := completions + [Completion(t, Some(m), !m.ErrorReply?, m)];
          callbackTransactions := callbackTransactions[..cursor] + callbackTransactions[cursor + 1..];
          return;
        }
        cursor := cursor + 1;
      }
    }
  }

  /** `blocking_hal_callback`: the object a caller of `send_barrier_request` waits on. */
  class BlockingCallback {
    var done: bool
    var successful: bool

    constructor ()
      ensures !done && !successful
    {
      done, successful := false, false;
    }

    method HalCallback(c: Completion)
      modifies this
      ensures done && successful == Successful(c.reply)
    {
      done := true;
      if c.reply.Some? && c.reply.value.ErrorReply? {
        successful := false;
      } else {
        successful := true;
      }
    }
  }
}
