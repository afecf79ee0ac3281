/** The blocking object queue that links the controller's threads.
    Source: common/rwqueue.h. */
module RwQueue {
  import opened Common

  const WORD: int := 0x1_0000_0000

  /** `max_` is an unsigned 32-bit field: the -1 that stands for "unlimited" becomes the largest
      value it can hold, and the test `max_ >= 0` is always true. */
  function StoredMax(max: int): (m: nat)
    ensures 0 <= max < 0x1_0000_0000 ==> m == max
    ensures max < 0 ==> m == 0xffff_ffff
    ensures m < WORD
  {
    (if max >= -1 then max else -1) % WORD
  }

  /** The queue object. Each method is the critical section of its counterpart, entered once the
      condition it waits for holds. */
  class RwQueue<T> {
    var max: nat
    var objects: seq<T>

    constructor (max: int)
      ensures objects == [] && this.max == max % 0x1_0000_0000
    {
      this.max := max % WORD;
      objects := [];
    }

    method Enqueue(obj: T)
      requires |objects| < max
      modifies this
      ensures objects == old(objects) + [obj] && max == old(max)
    {
      objects := objects + [obj];
    }

    method Dequeue() returns (obj: T)
      requires objects != []
      modifies this
      ensures [obj] + objects == old(objects) && max == old(max)
    {
      obj := objects[0];
      objects := objects[1..];
    }

    method SetMax(newMax: int)
      modifies this
      ensures objects == old(objects) && max == StoredMax(newMax)
    {
      max := (if newMax >= -1 then newMax else -1) % WORD;
    }

    /** Clearing also lifts the limit, as far as the field allows. */
    method Clear()
      modifies this
      ensures objects == [] && max == 0xffff_ffff
    {
      while |objects| > 0 {
        objects := objects[..|objects| - 1];
      }
      max := (-1) % WORD;
    }
  }

  // ---------- every interleaving of producers and consumers ----------

  datatype Link<T> = Link(max: nat, stored: seq<T>, accepted: seq<T>, delivered: seq<T>)

  datatype Step<T> = Put(obj: T) | Get | Limit(max: int)

  predicate Enabled<T>(l: Link<T>, step: Step<T>) {
    match step
    case Put(obj) => |l.stored| < l.max
    case Get => |l.stored| > 0
    case Limit(max) => true
  }

  function Apply<T>(l: Link<T>, step: Step<T>): Link<T>
    requires Enabled(l, step)
  {
    match step
    case Put(obj) => l.(stored := l.stored + [obj], accepted := l.accepted + [obj])
    case Get => l.(stored := l.stored[1..], delivered := l.delivered + [l.stored[0]])
    case Limit(max) => l.(max := StoredMax(max))
  }

  /** The object performs exactly these steps: `l` is the link it stands for, and what a consumer
      is handed is what the link delivers. */
  method Perform<T>(q: RwQueue<T>, step: Step<T>, ghost l: Link<T>) returns (ghost next: Link<T>, obj: Option<T>)
    requires l.max == q.max && l.stored == q.objects && Enabled(l, step)
    modifies q
    ensures next == Apply(l, step) && next.max == q.max && next.stored == q.objects
    ensures next.delivered == l.delivered + if obj.Some? then [obj.value] else []
    ensures obj.Some? <==> step.Get?
  {
    next := Apply(l, step);
    obj := None;
    match step {
      case Put(o) => q.Enqueue(o);
      case Get =>
        var front := q.Dequeue();
        assert l.stored[0] == front && l.stored[1..] == q.objects;
        obj := Some(front);
      case Limit(max) => q.SetMax(max);
    }
  }

  ghost predicate Runs<T>(l: Link<T>, steps: seq<Step<T>>)
    decreases |steps|
  {
    steps == [] || (Enabled(l, steps[0]) && Runs(Apply(l, steps[0]), steps[1..]))
  }

  ghost function After<T>(l: Link<T>, steps: seq<Step<T>>): Link<T>
    requires Runs(l, steps)
    decreases |steps|
  {
    if steps == [] then l else After(Apply(l, steps[0]), steps[1..])
  }

  function Given<T>(step: Step<T>): seq<T> {
    if step.Put? then [step.obj] else []
  }

  function PutIn<T>(steps: seq<Step<T>>): seq<T> {
    if steps == [] then [] else Given(steps[0]) + PutIn(steps[1..])
  }

  /** A producer waits exactly while the queue is full. */
  lemma PutWaitsExactly<T>(l: Link<T>, obj: T)
    ensures !Enabled(l, Put(obj)) <==> |l.stored| >= l.max
  {
  }

  lemma StepConserves<T>(l: Link<T>, step: Step<T>)
    requires Enabled(l, step) && l.delivered + l.stored == l.accepted
    ensures var next := Apply(l, step);
            next.delivered + next.stored == next.accepted == l.accepted + Given(step)
  {
    if step.Get? {
      assert l.stored == [l.stored[0]] + l.stored[1..];
    }
  }

  /** The queue is a FIFO link: at any time, what came out followed by what is stored is what went
      in before, followed by what was put in since, in lock order. */
  lemma {:induction false} FifoConservation<T>(l: Link<T>, steps: seq<Step<T>>)
    requires Runs(l, steps) && l.delivered + l.stored == l.accepted
    ensures var end := After(l, steps);
            end.delivered + end.stored == end.accepted == l.accepted + PutIn(steps)
    decreases |steps|
  {
    if steps != [] {
      StepConserves(l, steps[0]);
      FifoConservation(Apply(l, steps[0]), steps[1..]);
      Regroup(l.accepted, Given(steps[0]), PutIn(steps[1..]));
    }
  }

  /** Without a change of the limit the queue never grows beyond it, not even beyond what the
      field can express when it was meant to be unlimited. */
  lemma {:induction false} LimitHolds<T>(l: Link<T>, steps: seq<Step<T>>)
    requires Runs(l, steps) && |l.stored| <= l.max && forall i :: 0 <= i < |steps| ==> !steps[i].Limit?
    ensures |After(l, steps).stored| <= l.max && After(l, steps).max == l.max
    decreases |steps|
  {
    if steps != [] {
      LimitHolds(Apply(l, steps[0]), steps[1..]);
    }
  }
}
