/** A blocking byte pipe between producers and consumers.
    Source: common/bounded_buffer.cpp, common/bounded_buffer.h. */
module BoundedBuffer {
  import opened Bytes
  import opened Common

  import A = Autobuf

  /** The wait condition of `enqueue`: a zero maximum means no limit, and the sizes are added in
      32 bits. */
  predicate HasRoom(maxSize: uint32, stored: nat, incoming: nat) {
    !(maxSize > 0 && (stored + incoming) % A.WORD >= maxSize)
  }

  /** Without a maximum nobody waits. */
  lemma UnlimitedAdmits(stored: nat, incoming: nat)
    ensures HasRoom(0, stored, incoming)
  {
  }

  /** Below the maximum, an offer is let in if and only if the result stays below it, or the
      32-bit sum wraps around. */
  lemma AdmittedExactly(maxSize: uint32, stored: nat, incoming: nat)
    requires stored < maxSize && incoming < 0x1_0000_0000
    ensures HasRoom(maxSize, stored, incoming) <==> stored + incoming < maxSize || stored + incoming >= 0x1_0000_0000
  {
  }

  /** The buffer object. Each method is the critical section of its counterpart, entered once the
      condition it waits for holds. */
  class BoundedBuffer {
    var maxSize: uint32
    var buf: A.Autobuf

    ghost predicate Valid()
      reads this, buf, buf.writeableBuf
    {
      buf.Valid()
    }

    ghost function Contents(): seq<byte>
      requires Valid()
      reads this, buf, buf.writeableBuf
    {
      buf.Contents()
    }

    constructor (max: uint32)
      ensures Valid() && Contents() == [] && maxSize == max && fresh(buf) && fresh(buf.writeableBuf)
    {
      maxSize := max;
      buf := new A.Autobuf();
    }

    method Enqueue(incoming: A.Autobuf)
      requires Valid() && incoming.Valid() && incoming != buf && incoming.writeableBuf != buf.writeableBuf
      requires HasRoom(maxSize, buf.contentSize, incoming.contentSize)
      requires buf.contentSize + incoming.contentSize <= A.MAX_SIZE
      modifies buf, buf.writeableBuf
      ensures Valid() && buf.KeepsMemory()
      ensures Contents() == old(Contents()) + old(incoming.Contents())
    {
      buf.Concatenate(incoming);
    }

    method ForceEnqueue(incoming: A.Autobuf)
      requires Valid() && incoming.Valid() && incoming != buf && incoming.writeableBuf != buf.writeableBuf
      requires buf.contentSize + incoming.contentSize <= A.MAX_SIZE
      modifies buf, buf.writeableBuf
      ensures Valid() && buf.KeepsMemory()
      ensures Contents() == old(Contents()) + old(incoming.Contents())
    {
      buf.Concatenate(incoming);
    }

    /** `dequeue`: waits for any content and delivers at most `maxReadSize` bytes of it. */
    method Dequeue(maxReadSize: nat) returns (result: A.Autobuf)
      requires Valid() && buf.contentSize > 0
      modifies buf
      ensures Valid() && buf.writeableBuf == old(buf.writeableBuf) && fresh(result) && result.Valid()
      ensures result.Contents() + Contents() == old(Contents())
      ensures |result.Contents()| == Min(maxReadSize, |old(Contents())|)
    {
      var readSize := if buf.contentSize >= maxReadSize then maxReadSize else buf.contentSize;
      result := Take(readSize);
    }

    /** `dequeue_exact`: waits until `readSize` bytes are there. */
    method DequeueExact(readSize: nat) returns (result: A.Autobuf)
      requires Valid() && buf.contentSize >= readSize
      modifies buf
      ensures Valid() && buf.writeableBuf == old(buf.writeableBuf) && fresh(result) && result.Valid()
      ensures result.Contents() + Contents() == old(Contents())
      ensures |result.Contents()| == readSize
    {
      result := Take(readSize);
    }

    method Take(readSize: nat) returns (result: A.Autobuf)
      requires Valid() && buf.contentSize >= readSize
      modifies buf
      ensures Valid() && buf.writeableBuf == old(buf.writeableBuf) && fresh(result) && result.Valid()
      ensures result.Contents() == old(Contents())[..readSize] && Contents() == old(Contents())[readSize..]
    {
      result := new A.Autobuf();
      var ok := buf.ReadFront(result, readSize);
      assert ok;
      buf.TrimFront(readSize);
    }

    method SetMax(max: uint32)
      requires Valid()
      modifies this
      ensures Valid() && buf == old(buf) && Contents() == old(Contents()) && maxSize == max
    {
      if maxSize != max {
        maxSize := max;
      }
    }
  }

  // ---------- every interleaving of producers and consumers ----------

  /** `accepted` and `delivered` record, in lock order, what producers handed over and what
      consumers got. */
  datatype Pipe = Pipe(maxSize: uint32, stored: seq<byte>, accepted: seq<byte>, delivered: seq<byte>)

  datatype Step =
    | Enqueue(data: seq<byte>)
    | ForceEnqueue(data: seq<byte>)
    | Dequeue(limit: nat)
    | DequeueExact(size: nat)
    | SetMax(max: uint32)

  /** A step that can be taken: a consumer or a producer that does not have to wait, and for a
      producer a result whose size a 32-bit field can hold. */
  predicate Enabled(p: Pipe, step: Step) {
    match step
    case Enqueue(data) => HasRoom(p.maxSize, |p.stored|, |data|) && Holds(p, data)
    case ForceEnqueue(data) => Holds(p, data)
    case Dequeue(limit) => p.stored != []
    case DequeueExact(size) => |p.stored| >= size
    case SetMax(max) => true
  }

  predicate Holds(p: Pipe, data: seq<byte>) {
    |p.stored| + |data| < A.WORD
  }

  /** How many bytes a consumer's step takes. */
  function Taken(p: Pipe, step: Step): (n: nat)
    requires Enabled(p, step)
    ensures n <= |p.stored|
  {
    match step
    case Dequeue(limit) => Min(limit, |p.stored|)
    case DequeueExact(size) => size
    case _ => 0
  }

  function Given(step: Step): seq<byte> {
    match step
    case Enqueue(data) => data
    case ForceEnqueue(data) => data
    case _ => []
  }

  function Apply(p: Pipe, step: Step): Pipe
    requires Enabled(p, step)
  {
    var n := Taken(p, step);
    Pipe(if step.SetMax? then step.max else p.maxSize,
         p.stored[n..] + Given(step), p.accepted + Given(step), p.delivered + p.stored[..n])
  }

  ghost predicate Runs(p: Pipe, steps: seq<Step>)
    decreases |steps|, 0
  {
    steps == [] || (Runs(p, steps[..|steps| - 1]) && Enabled(After(p, steps[..|steps| - 1]), steps[|steps| - 1]))
  }

  ghost function After(p: Pipe, steps: seq<Step>): Pipe
    requires Runs(p, steps)
    decreases |steps|, 1
  {
    if steps == [] then p else Apply(After(p, steps[..|steps| - 1]), steps[|steps| - 1])
  }

  function AllGiven(steps: seq<Step>): seq<byte> {
    if steps == [] then [] else AllGiven(steps[..|steps| - 1]) + Given(steps[|steps| - 1])
  }

  function NewPipe(max: uint32): Pipe {
    Pipe(max, [], [], [])
  }

  predicate Delivers(step: Step) {
    step.Dequeue? || step.DequeueExact?
  }

  /** The object performs exactly these steps: `p` is the pipe it stands for, and what a consumer
      is handed is what the pipe delivers. */
  method Perform(b: BoundedBuffer, step: Step, ghost p: Pipe) returns (ghost q: Pipe, result: Option<A.Autobuf>)
    requires b.Valid() && p.maxSize == b.maxSize && p.stored == b.Contents() && Enabled(p, step)
    requires |p.stored| + |Given(step)| <= A.MAX_SIZE
    modifies b, b.buf, b.buf.writeableBuf
    ensures b.Valid() && q == Apply(p, step)
    ensures q.maxSize == b.maxSize && q.stored == b.Contents()
    ensures result.Some? <==> Delivers(step)
    ensures result.Some? ==> result.value.Valid() && q.delivered == p.delivered + result.value.Contents()
  {
    q := Apply(p, step);
    result := None;
    if step.SetMax? {
      b.SetMax(step.max);
    } else if Delivers(step) {
      var front := Consume(b, step, p);
      result := Some(front);
    } else {
      Produce(b, step, p);
    }
  }

  method Produce(b: BoundedBuffer, step: Step, ghost p: Pipe)
    requires b.Valid() && p.maxSize == b.maxSize && p.stored == b.Contents() && Enabled(p, step)
    requires (step.Enqueue? || step.ForceEnqueue?) && |p.stored| + |step.data| <= A.MAX_SIZE
    modifies b.buf, b.buf.writeableBuf
    ensures b.Valid() && b.Contents() == Apply(p, step).stored
  {
    var incoming := new A.Autobuf();
    incoming.SetContent(step.data);
    if step.Enqueue? {
      b.Enqueue(incoming);
    } else {
      b.ForceEnqueue(incoming);
    }
  }

  method Consume(b: BoundedBuffer, step: Step, ghost p: Pipe) returns (front: A.Autobuf)
    requires b.Valid() && p.maxSize == b.maxSize && p.stored == b.Contents() && Enabled(p, step) && Delivers(step)
    modifies b.buf
    ensures b.Valid() && b.Contents() == Apply(p, step).stored
    ensures front.Valid() && Apply(p, step).delivered == p.delivered + front.Contents()
  {
    if step.Dequeue? {
      front := b.Dequeue(step.limit);
    } else {
      front := b.DequeueExact(step.size);
    }
    DeliveredPart(front.Contents(), b.Contents(), p.stored);
  }

  lemma DeliveredPart(result: seq<byte>, rest: seq<byte>, all: seq<byte>)
    requires result + rest == all
    ensures result == all[..|result|] && rest == all[|result|..]
  {
  }

  lemma StepConserves(p: Pipe, step: Step)
    requires Enabled(p, step) && p.delivered + p.stored == p.accepted
    ensures var q := Apply(p, step);
            q.delivered + q.stored == q.accepted == p.accepted + Given(step)
  {
    Transfer(p.delivered, p.stored, Given(step), Taken(p, step));
  }

  lemma Transfer(delivered: seq<byte>, stored: seq<byte>, given: seq<byte>, n: nat)
    requires n <= |stored|
    ensures (delivered + stored[..n]) + (stored[n..] + given) == (delivered + stored) + given
  {
  }

  /** For every interleaving: what was delivered, followed by what is stored, is everything that
      was handed over, in lock order. */
  lemma {:induction false} StreamConservation(max: uint32, steps: seq<Step>)
    requires Runs(NewPipe(max), steps)
    ensures var p := After(NewPipe(max), steps);
            p.delivered + p.stored == p.accepted == AllGiven(steps)
    decreases |steps|
  {
    if steps != [] {
      var n := |steps| - 1;
      StreamConservation(max, steps[..n]);
      StepConserves(After(NewPipe(max), steps[..n]), steps[n]);
    }
  }

  /** Producers that respect the limit and nobody changing it. */
  predicate Polite(steps: seq<Step>) {
    forall i :: 0 <= i < |steps| ==> !steps[i].ForceEnqueue? && !steps[i].SetMax?
  }

  lemma {:induction false} SizeStaysBelowMaximum(max: uint32, steps: seq<Step>)
    requires max > 0 && Runs(NewPipe(max), steps) && Polite(steps)
    ensures var p := After(NewPipe(max), steps);
            p.maxSize == max && |p.stored| < max
  {
    if steps != [] {
      SizeStaysBelowMaximum(max, steps[..|steps| - 1]);
    }
  }

  /** Some polite run leads to a state in which a consumer's request for `size` bytes at once is
      served. */
  ghost predicate EverServed(max: uint32, size: nat) {
    exists steps :: Runs(NewPipe(max), steps) && Polite(steps) && Enabled(After(NewPipe(max), steps), DequeueExact(size))
  }

  /** Some polite run leads to a state in which an offer is let in, and its bytes fit. */
  ghost predicate EverAdmitted(max: uint32, data: seq<byte>) {
    exists steps :: Runs(NewPipe(max), steps) && Polite(steps) && Enabled(After(NewPipe(max), steps), Enqueue(data))
  }

  /** A request for an exact size can be served if and only if it stays below the maximum. */
  lemma ServedExactly(max: uint32, size: nat)
    requires max > 0
    ensures EverServed(max, size) <==> size < max
  {
    var p := NewPipe(max);
    if size < max {
      var data: seq<byte> := seq(size, _ => 0);
      var steps := [Enqueue(data)];
      assert steps[..0] == [] && Runs(p, steps[..0]) && After(p, steps[..0]) == p;
      assert Runs(p, steps) && After(p, steps) == Apply(p, Enqueue(data));
      assert Polite(steps);
    }
    if EverServed(max, size) {
      var steps :| Runs(p, steps) && Polite(steps) && Enabled(After(p, steps), DequeueExact(size));
      SizeStaysBelowMaximum(max, steps);
    }
  }

  /** And so can an offer. */
  lemma OffersAdmittedExactly(max: uint32, data: seq<byte>)
    requires max > 0
    ensures EverAdmitted(max, data) <==> |data| < max
  {
    var p := NewPipe(max);
    if |data| < max {
      assert Runs(p, []) && After(p, []) == p && Polite([]);
    }
    if EverAdmitted(max, data) {
      var steps :| Runs(p, steps) && Polite(steps) && Enabled(After(p, steps), Enqueue(data));
      SizeStaysBelowMaximum(max, steps);
    }
  }

  /** A producer that offers the maximum or more waits in every state, as long as the 32-bit sum
      does not wrap around. */
  lemma OversizedRequestsStarve(max: uint32, steps: seq<Step>, size: nat, data: seq<byte>)
    requires max > 0 && Runs(NewPipe(max), steps) && Polite(steps)
    requires size >= max && |data| >= max && Holds(After(NewPipe(max), steps), data)
    ensures !Enabled(After(NewPipe(max), steps), DequeueExact(size))
    ensures !HasRoom(max, |After(NewPipe(max), steps).stored|, |data|)
  {
    SizeStaysBelowMaximum(max, steps);
    AdmittedExactly(max, |After(NewPipe(max), steps).stored|, |data|);
  }
}
