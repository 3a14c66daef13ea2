/** The single-producer single-consumer ring of one shared-memory channel.

    It is modelled at the granularity of its atomic loads and stores: the producer and the consumer
    live in different processes, and a schedule (a sequence of actions) fixes how their steps
    interleave.
 */
module SpscRing {

  /** Where the producer is inside `enqueue`; `target` is the tail it is going to publish. */
  datatype Producer<T> =
    | Ready
    | TailLoaded(value: T, target: nat)
    | HasRoom(value: T, target: nat)
    | SlotWritten(value: T, target: nat)
    | Returned(ok: bool)

  /** Where the consumer is inside `consume`, `updatesAvailable` or `consumeAvailable`. */
  datatype Consumer =
    | Idle
    | ConsumeHeadLoaded(at: nat)
    | PollHeadLoaded(at: nat)
    | Available
    | Reading(at: nat)
    | Handled(at: nat)

  /** `sent` and `handled` are histories: the values whose tail was published, and the values the
      handler was called on, each with the verdict the handler returned. */
  datatype Ring<T> = Ring(
    size: nat,
    head: nat,
    tail: nat,
    storage: seq<T>,
    producer: Producer<T>,
    consumer: Consumer,
    sent: seq<T>,
    handled: seq<T>,
    verdicts: seq<bool>)

  datatype Action<T> =
    | StartEnqueue(value: T)
    | ProducerStep
    | StartConsume
    | StartPoll
    | ConsumerStep(ok: bool)

  /** A freshly constructed channel: one slot more than the requested capacity. */
  function Fresh<T>(queueSize: nat, storage: seq<T>): Ring<T>
    requires |storage| == queueSize + 1
  {
    Ring(queueSize + 1, 0, 0, storage, Ready, Idle, [], [], [])
  }

  ghost predicate Shape<T>(r: Ring<T>) {
    r.head < r.size && r.tail < r.size && |r.storage| == r.size
  }

  function Advance(at: nat, size: nat): (next: nat)
    requires at < size
    ensures next == if at + 1 == size then 0 else at + 1
  {
    (at + 1) % size
  }

  /** The unread slots, oldest first. */
  function Contents<T>(r: Ring<T>): seq<T>
    requires Shape(r)
  {
    Between(r.storage, r.head, r.tail)
  }

  function Between<T>(storage: seq<T>, head: nat, tail: nat): seq<T>
    requires head < |storage| && tail < |storage|
  {
    if head <= tail then storage[head..tail] else storage[head..] + storage[..tail]
  }

  // ---- the machine ------------------------------------------------------------------------------

  predicate MayStart<T>(p: Producer<T>) { p.Ready? || p.Returned? }

  function ProducerNext<T>(r: Ring<T>): Ring<T>
    requires Shape(r)
  {
    match r.producer
    case TailLoaded(value, target) =>
      r.(producer := if target == r.head then Returned(false) else HasRoom(value, target))
    case HasRoom(value, target) =>
      r.(storage := r.storage[r.tail := value], producer := SlotWritten(value, target))
    case SlotWritten(value, target) =>
      r.(tail := target, producer := Returned(true), sent := r.sent + [value])
    case _ => r
  }

  function ConsumerNext<T>(r: Ring<T>, ok: bool): Ring<T>
    requires Shape(r)
  {
    match r.consumer
    case Idle => r
    case ConsumeHeadLoaded(at) => r.(consumer := if at == r.tail then Idle else Reading(at))
    case PollHeadLoaded(at) => r.(consumer := if at == r.tail then Idle else Available)
    case Available => r.(consumer := Reading(r.head))
    case Reading(at) =>
      if at < r.size
      then r.(consumer := Handled(at), handled := r.handled + [r.storage[at]], verdicts := r.verdicts + [ok])
      else r
    case Handled(at) =>
      if at < r.size then r.(consumer := Idle, head := Advance(at, r.size)) else r
  }

  function Next<T>(r: Ring<T>, a: Action<T>): Ring<T>
    requires Shape(r)
  {
    match a
    case StartEnqueue(value) =>
      if MayStart(r.producer) then r.(producer := TailLoaded(value, Advance(r.tail, r.size))) else r
    case ProducerStep => ProducerNext(r)
    case StartConsume => if r.consumer.Idle? then r.(consumer := ConsumeHeadLoaded(r.head)) else r
    case StartPoll => if r.consumer.Idle? then r.(consumer := PollHeadLoaded(r.head)) else r
    case ConsumerStep(ok) => ConsumerNext(r, ok)
  }

  // ---- the invariant ----------------------------------------------------------------------------

  /** What is in the ring but has not been handed to the handler yet: while the consumer stands
      between the handler's return and its store of the head, the first slot no longer counts. */
  function Unhandled<T>(r: Ring<T>): seq<T>
    requires Shape(r)
  {
    var contents := Contents(r);
    if r.consumer.Handled? && contents != [] then contents[1..] else contents
  }

  ghost predicate ProducerInv<T>(r: Ring<T>)
    requires Shape(r)
  {
    match r.producer
    case TailLoaded(_, target) => target == Advance(r.tail, r.size)
    case HasRoom(_, target) => target == Advance(r.tail, r.size) && target != r.head
    case SlotWritten(value, target) =>
      target == Advance(r.tail, r.size) && target != r.head && r.storage[r.tail] == value
    case _ => true
  }

  ghost predicate ConsumerInv<T>(r: Ring<T>)
    requires Shape(r)
  {
    match r.consumer
    case Idle => true
    case ConsumeHeadLoaded(at) => at == r.head
    case PollHeadLoaded(at) => at == r.head
    case Available => r.head != r.tail
    case Reading(at) => at == r.head && r.head != r.tail
    case Handled(at) => at == r.head && r.head != r.tail
  }

  ghost predicate Inv<T>(r: Ring<T>) {
    && Shape(r)
    && ProducerInv(r)
    && ConsumerInv(r)
    && |r.verdicts| == |r.handled|
    && r.handled + Unhandled(r) == r.sent
  }

  /** Publishing the written slot appends its value to the unread slots. */
  lemma PublishAppends<T>(r: Ring<T>)
    requires Shape(r) && Advance(r.tail, r.size) != r.head
    ensures Between(r.storage, r.head, Advance(r.tail, r.size)) == Contents(r) + [r.storage[r.tail]]
  {
  }

  /** Storing the head drops the oldest unread slot. */
  lemma StoreHeadDrops<T>(r: Ring<T>)
    requires Shape(r) && r.head != r.tail
    ensures Contents(r) == [r.storage[r.head]] + Between(r.storage, Advance(r.head, r.size), r.tail)
  {
  }

  lemma FreshInv<T>(queueSize: nat, storage: seq<T>)
    requires |storage| == queueSize + 1
    ensures Inv(Fresh(queueSize, storage))
    ensures Contents(Fresh(queueSize, storage)) == []
  {
  }

  lemma ProducerNextInv<T>(r: Ring<T>)
    requires Inv(r)
    ensures Inv(ProducerNext(r))
    ensures Contents(ProducerNext(r)) ==
            Contents(r) + if r.producer.SlotWritten? then [r.producer.value] else []
  {
    var q := ProducerNext(r);
    match r.producer
    case HasRoom(value, target) =>
      assert Contents(q) == Contents(r);
    case SlotWritten(value, target) =>
      PublishAppends(r);
      assert Unhandled(q) == Unhandled(r) + [value];
    case _ =>
  }

  lemma HandlerRuns<T>(r: Ring<T>, ok: bool)
    requires Inv(r) && r.consumer.Reading?
    ensures Inv(ConsumerNext(r, ok)) && Contents(ConsumerNext(r, ok)) == Contents(r)
  {
    var q := ConsumerNext(r, ok);
    StoreHeadDrops(r);
    assert Contents(q) == Contents(r) == [r.storage[r.head]] + Unhandled(q);
    assert q.handled + Unhandled(q) == r.handled + Unhandled(r);
  }

  lemma HeadStored<T>(r: Ring<T>, ok: bool)
    requires Inv(r) && r.consumer.Handled?
    ensures Inv(ConsumerNext(r, ok)) && Contents(ConsumerNext(r, ok)) == Contents(r)[1..]
  {
    var q := ConsumerNext(r, ok);
    StoreHeadDrops(r);
    assert Contents(r)[1..] == Contents(q);
    assert ProducerInv(q);
  }

  lemma ConsumerNextInv<T>(r: Ring<T>, ok: bool)
    requires Inv(r)
    ensures Inv(ConsumerNext(r, ok))
    ensures Contents(ConsumerNext(r, ok)) == if r.consumer.Handled? then Contents(r)[1..] else Contents(r)
  {
    match r.consumer
    case Reading(_) => HandlerRuns(r, ok);
    case Handled(_) => HeadStored(r, ok);
    case _ => assert Unhandled(ConsumerNext(r, ok)) == Unhandled(r);
  }

  lemma NextInv<T>(r: Ring<T>, a: Action<T>)
    requires Inv(r)
    ensures Inv(Next(r, a))
  {
    match a
    case ProducerStep => ProducerNextInv(r);
    case ConsumerStep(ok) => ConsumerNextInv(r, ok);
    case _ => assert Unhandled(Next(r, a)) == Unhandled(r);
  }

  // ---- refinement of a bounded FIFO -------------------------------------------------------------

  datatype Fifo<T> = Fifo(capacity: nat, queue: seq<T>)

  datatype Event<T> = Stutter | Accepted(value: T) | Refused(value: T) | Removed(value: T)

  ghost predicate FifoStep<T>(f: Fifo<T>, e: Event<T>, g: Fifo<T>) {
    match e
    case Stutter => g == f
    case Accepted(value) => |f.queue| < f.capacity && g == f.(queue := f.queue + [value])
    case Refused(value) => |f.queue| == f.capacity && g == f
    case Removed(value) => f.queue != [] && f.queue[0] == value && g == f.(queue := f.queue[1..])
  }

  function Abstraction<T>(r: Ring<T>): Fifo<T>
    requires Shape(r)
  {
    Fifo(r.size - 1, Contents(r))
  }

  /** The abstract event a step stands for.  An enqueue takes effect when it stores the tail and is
      refused when it loads the head; a value leaves when the consumer stores the head. */
  function EventOf<T>(r: Ring<T>, a: Action<T>): Event<T>
    requires Shape(r)
  {
    match a
    case ProducerStep =>
      if r.producer.TailLoaded? && r.producer.target == r.head then Refused(r.producer.value)
      else if r.producer.SlotWritten? then Accepted(r.producer.value)
      else Stutter
    case ConsumerStep(_) =>
      if r.consumer.Handled? && Contents(r) != [] then Removed(Contents(r)[0]) else Stutter
    case _ => Stutter
  }

  lemma ProducerRefinesFifo<T>(r: Ring<T>)
    requires Inv(r)
    ensures Inv(ProducerNext(r)) && FifoStep(Abstraction(r), EventOf(r, ProducerStep), Abstraction(ProducerNext(r)))
  {
    ProducerNextInv(r);
    FullMeansCapacity(r);
    hide Contents, Inv, Unhandled;
  }

  lemma ConsumerRefinesFifo<T>(r: Ring<T>, ok: bool)
    requires Inv(r)
    ensures Inv(ConsumerNext(r, ok)) && FifoStep(Abstraction(r), EventOf(r, ConsumerStep(ok)), Abstraction(ConsumerNext(r, ok)))
  {
    ConsumerNextInv(r, ok);
    if r.consumer.Handled? {
      StoreHeadDrops(r);
    }
    hide Contents, Inv, Unhandled;
  }

  /** Every step of every process is a step of a FIFO of capacity `queueSize`. */
  lemma NextRefinesFifo<T>(r: Ring<T>, a: Action<T>)
    requires Inv(r)
    ensures Inv(Next(r, a))
    ensures FifoStep(Abstraction(r), EventOf(r, a), Abstraction(Next(r, a)))
  {
    NextInv(r, a);
    match a
    case ProducerStep => ProducerRefinesFifo(r);
    case ConsumerStep(ok) => ConsumerRefinesFifo(r, ok);
    case _ => assert Contents(Next(r, a)) == Contents(r);
  }

  lemma FullMeansCapacity<T>(r: Ring<T>)
    requires Shape(r)
    ensures |Contents(r)| <= r.size - 1
    ensures Advance(r.tail, r.size) == r.head <==> |Contents(r)| == r.size - 1
  {
  }

  // ---- whole runs -------------------------------------------------------------------------------

  ghost function Run<T>(r: Ring<T>, schedule: seq<Action<T>>): (end: Ring<T>)
    requires Inv(r)
    ensures Inv(end) && end.size == r.size
    decreases |schedule|
  {
    if schedule == [] then r
    else
      var before := Run(r, schedule[..|schedule| - 1]);
      NextInv(before, schedule[|schedule| - 1]);
      Next(before, schedule[|schedule| - 1])
  }

  /** Under every schedule the handler sees a prefix of what was published, in order, each value
      once; what it has not seen is still in the ring. */
  lemma EverySchedule<T>(queueSize: nat, storage: seq<T>, schedule: seq<Action<T>>)
    requires |storage| == queueSize + 1
    ensures var end := (FreshInv(queueSize, storage); Run(Fresh(queueSize, storage), schedule));
            && end.handled + Unhandled(end) == end.sent
            && end.handled <= end.sent
            && |Contents(end)| <= queueSize
            && |end.verdicts| == |end.handled|
  {
    FreshInv(queueSize, storage);
    var end := Run(Fresh(queueSize, storage), schedule);
    FullMeansCapacity(end);
  }

  /** The slot the producer may write is neither unread nor the one the consumer is reading. */
  lemma NoSlotShared<T>(r: Ring<T>, v: T)
    requires Inv(r) && (r.producer.HasRoom? || r.producer.SlotWritten?)
    ensures r.consumer.Reading? ==> r.consumer.at != r.tail
    ensures Between(r.storage[r.tail := v], r.head, r.tail) == Contents(r)
  {
  }

  /** Once a poll has seen the ring non-empty, no step of the producer can make it empty again or
      change the value that is going to be read: only the consumer's own store of the head does. */
  lemma AvailabilityPersists<T>(r: Ring<T>, a: Action<T>)
    requires Inv(r) && (r.consumer.Available? || r.consumer.Reading?)
    ensures Contents(r) != [] && Contents(Next(r, a)) != []
    ensures Contents(Next(r, a))[0] == Contents(r)[0]
    ensures a.ConsumerStep? && r.consumer.Reading? ==> Next(r, a).handled == r.handled + [Contents(r)[0]]
  {
    StoreHeadDrops(r);
    match a
    case ProducerStep => ProducerNextInv(r);
    case ConsumerStep(ok) => ConsumerNextInv(r, ok);
    case _ =>
  }

  // ---- one call at a time -----------------------------------------------------------------------

  /** An `enqueue` call whose steps are not interleaved with the consumer's. */
  function EnqueueCall<T>(r: Ring<T>, value: T): (end: Ring<T>)
    requires Shape(r) && MayStart(r.producer)
    ensures end.producer.Returned?
  {
    ProducerNext(ProducerNext(ProducerNext(Next(r, StartEnqueue(value)))))
  }

  /** A `consumeAvailable` call whose steps are not interleaved with the producer's. */
  function ConsumeAvailableCall<T>(r: Ring<T>, handler: T -> bool): Ring<T>
    requires Shape(r) && r.head != r.tail
  {
    var reading := ConsumerNext(r.(consumer := Available), false);
    ConsumerNext(ConsumerNext(reading, handler(r.storage[r.head])), false)
  }

  lemma EnqueueCallEffect<T>(r: Ring<T>, value: T)
    requires Inv(r) && MayStart(r.producer)
    ensures var end := EnqueueCall(r, value);
            && Inv(end) && end.size == r.size
            && end.producer.ok == (|Contents(r)| != r.size - 1)
            && Contents(end) == if end.producer.ok then Contents(r) + [value] else Contents(r)
  {
    var a := Next(r, StartEnqueue(value));
    NextInv(r, StartEnqueue(value));
    FullMeansCapacity(r);
    ProducerNextInv(a);
    ProducerNextInv(ProducerNext(a));
    ProducerNextInv(ProducerNext(ProducerNext(a)));
  }

  lemma ConsumeAvailableCallEffect<T>(r: Ring<T>, handler: T -> bool)
    requires Inv(r) && r.consumer.Idle? && r.head != r.tail
    ensures var end := ConsumeAvailableCall(r, handler);
            && Inv(end) && end.consumer.Idle? && end.sent == r.sent && Contents(r) != []
            && Contents(end) == Contents(r)[1..]
            && end.handled == r.handled + [Contents(r)[0]]
            && end.verdicts == r.verdicts + [handler(Contents(r)[0])]
  {
    StoreHeadDrops(r);
    var reading := r.(consumer := Reading(r.head));
    var ok := handler(r.storage[r.head]);
    assert ConsumerNext(r.(consumer := Available), false) == reading;
    assert Unhandled(reading) == Unhandled(r);
    HandlerRuns(reading, ok);
    HeadStored(ConsumerNext(reading, ok), false);
  }

  // ---- polls ------------------------------------------------------------------------------------

  /** What a handler is called on: the entries up to the first that it fails, and that one too. */
  function Taken<M>(contents: seq<M>, handler: M -> bool): (taken: seq<M>)
    ensures |taken| <= |contents|
  {
    if contents == [] then []
    else if handler(contents[0]) then [contents[0]] + Taken(contents[1..], handler)
    else [contents[0]]
  }

  /** These are all entries, or the front of them of which just the last one fails. */
  lemma {:induction false} TakenStops<M>(contents: seq<M>, handler: M -> bool)
    ensures var taken := Taken(contents, handler);
            && taken <= contents && (forall i :: 0 <= i < |taken| - 1 ==> handler(taken[i]))
            && if AllHandled(contents, handler) then taken == contents
               else taken != [] && !handler(taken[|taken| - 1])
  {
    if contents != [] {
      TakenStops(contents[1..], handler);
      TakenFirst(contents, handler);
      assert contents == [contents[0]] + contents[1..];
    }
  }

  predicate AllHandled<M>(contents: seq<M>, handler: M -> bool) {
    forall i :: 0 <= i < |contents| ==> handler(contents[i])
  }

  /** Taking one entry, and then the others if it is handled. */
  lemma TakenFirst<M>(contents: seq<M>, handler: M -> bool)
    requires contents != []
    ensures AllHandled(contents, handler) <==> handler(contents[0]) && AllHandled(contents[1..], handler)
    ensures Taken(contents, handler)
            == [contents[0]] + if handler(contents[0]) then Taken(contents[1..], handler) else []
  {
    assert handler(contents[0]) && AllHandled(contents[1..], handler) ==> AllHandled(contents, handler) by {
      assert forall i :: 0 < i < |contents| ==> contents[i] == contents[1..][i - 1];
    }
  }
}
