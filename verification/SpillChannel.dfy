/** One channel as its producer process sees it: the shared ring, the back-pressure ("spill") deque
    behind it, and the drain task that the default back-pressure handler posts on the event queue.

    The producer process is single threaded, so a push and a drain run never overlap; both are
    interrupted between any two atomic steps by the consumer.  An asynchronous post is rejected by
    the event queue while one of its payload slots is prepared; every step that may post takes that
    as the input `prepared`.
 */
module SpillChannel {
  import opened SpscRing

  datatype Pc<M> =
    | Quiet
    | Offering(msg: M)
    | Overflowed(msg: M)
    | Draining
    | DrainEnqueue

  /** `drains` counts the drain tasks of this channel that sit in the event queue (the running one
      included); `stranded` records that such a post was rejected; `pushed` is the history of the
      messages pushed to this channel. */
  datatype Channel<M> = Channel(
    ring: Ring<M>,
    spill: seq<M>,
    drains: nat,
    stranded: bool,
    pc: Pc<M>,
    pushed: seq<M>)

  datatype Step<M> =
    | Push(msg: M)
    | Produce(prepared: bool)
    | RunDrain
    | Consume(action: Action<M>)

  function FreshChannel<M>(queueSize: nat, storage: seq<M>): Channel<M>
    requires |storage| == queueSize + 1
  {
    Channel(Fresh(queueSize, storage), [], 0, false, Quiet, [])
  }

  /** A channel as the segment's constructor leaves it, of whatever size. */
  ghost predicate IsFresh<M>(c: Channel<M>) {
    c.ring.size > 0 && |c.ring.storage| == c.ring.size && c == FreshChannel(c.ring.size - 1, c.ring.storage)
  }

  predicate ConsumerAction<M>(a: Action<M>) {
    a.StartConsume? || a.StartPoll? || a.ConsumerStep?
  }

  // ---- the machine ------------------------------------------------------------------------------

  /** The start of a push: direct enqueue only if nothing is waiting in the spill deque. */
  function Offer<M>(c: Channel<M>, msg: M): Channel<M>
    requires Shape(c.ring)
  {
    var accepted := c.(pushed := c.pushed + [msg]);
    if c.spill != [] then accepted.(pc := Overflowed(msg))
    else accepted.(ring := Next(c.ring, StartEnqueue(msg)), pc := Offering(msg))
  }

  function OfferStep<M>(c: Channel<M>): Channel<M>
    requires Shape(c.ring) && c.pc.Offering?
  {
    match c.ring.producer
    case Returned(ok) => c.(pc := if ok then Quiet else Overflowed(c.pc.msg))
    case _ => c.(ring := Next(c.ring, ProducerStep))
  }

  /** The default back-pressure handler. */
  function SpillMessage<M>(c: Channel<M>, msg: M, prepared: bool): Channel<M> {
    var buffered := c.(spill := c.spill + [msg]);
    if c.spill != [] then buffered
    else if prepared then buffered.(stranded := true)
    else buffered.(drains := c.drains + 1)
  }

  /** The body of the drain task, one atomic step at a time.  Returning false posts it again. */
  function DrainStep<M>(c: Channel<M>, prepared: bool): Channel<M>
    requires Shape(c.ring)
  {
    match c.pc
    case Draining =>
      if c.spill == [] then c.(pc := Quiet, drains := Less(c.drains))
      else c.(ring := Next(c.ring, StartEnqueue(c.spill[0])), pc := DrainEnqueue)
    case DrainEnqueue =>
      (match c.ring.producer
       case Returned(ok) =>
         if ok then (if c.spill != [] then c.(spill := c.spill[1..], pc := Draining) else c)
         else if prepared then c.(pc := Quiet, drains := Less(c.drains), stranded := true)
         else c.(pc := Quiet)
       case _ => c.(ring := Next(c.ring, ProducerStep)))
    case _ => c
  }

  function Less(n: nat): nat { if n == 0 then 0 else n - 1 }

  function Produced<M>(c: Channel<M>, prepared: bool): Channel<M>
    requires Shape(c.ring)
  {
    match c.pc
    case Quiet => c
    case Offering(_) => OfferStep(c)
    case Overflowed(msg) => SpillMessage(c, msg, prepared).(pc := Quiet)
    case _ => DrainStep(c, prepared)
  }

  function StartDrain<M>(c: Channel<M>): Channel<M> {
    if c.pc.Quiet? && c.drains > 0 then c.(pc := Draining) else c
  }

  function Advanced<M>(c: Channel<M>, s: Step<M>): Channel<M>
    requires Shape(c.ring)
  {
    match s
    case Push(msg) => if c.pc.Quiet? then Offer(c, msg) else c
    case Produce(prepared) => Produced(c, prepared)
    case RunDrain => StartDrain(c)
    case Consume(a) => if ConsumerAction(a) then c.(ring := Next(c.ring, a)) else c
  }

  // ---- the invariant ----------------------------------------------------------------------------

  /** What was pushed and has not been published in the ring yet. */
  function Waiting<M>(c: Channel<M>): seq<M> {
    match c.pc
    case Offering(msg) => if c.ring.producer == Returned(true) then c.spill else c.spill + [msg]
    case Overflowed(msg) => c.spill + [msg]
    case DrainEnqueue =>
      if c.ring.producer == Returned(true) && c.spill != [] then c.spill[1..] else c.spill
    case _ => c.spill
  }

  ghost predicate EnqueuesValue<M>(r: Ring<M>, msg: M) {
    match r.producer
    case Ready => false
    case TailLoaded(value, _) => value == msg
    case HasRoom(value, _) => value == msg
    case SlotWritten(value, _) => value == msg
    case Returned(_) => true
  }

  ghost predicate PcInv<M>(c: Channel<M>) {
    match c.pc
    case Quiet => MayStart(c.ring.producer)
    case Offering(msg) => c.spill == [] && EnqueuesValue(c.ring, msg)
    case Overflowed(_) => MayStart(c.ring.producer)
    case Draining => MayStart(c.ring.producer) && c.drains == 1
    case DrainEnqueue => c.spill != [] && c.drains == 1 && EnqueuesValue(c.ring, c.spill[0])
  }

  ghost predicate ChannelInv<M>(c: Channel<M>) {
    && Inv(c.ring)
    && PcInv(c)
    && c.drains <= 1
    && (c.stranded ==> c.drains == 0 && c.spill != [])
    && (!c.pc.Draining? ==> (c.spill != [] <==> c.drains == 1 || c.stranded))
    && c.ring.sent + Waiting(c) == c.pushed
  }

  lemma FreshChannelInv<M>(queueSize: nat, storage: seq<M>)
    requires |storage| == queueSize + 1
    ensures ChannelInv(FreshChannel(queueSize, storage))
  {
    FreshInv(queueSize, storage);
  }

  lemma OfferInv<M>(c: Channel<M>, msg: M)
    requires ChannelInv(c) && c.pc.Quiet?
    ensures ChannelInv(Offer(c, msg))
  {
    NextInv(c.ring, StartEnqueue(msg));
    assert c.ring.sent + (c.spill + [msg]) == c.pushed + [msg];
  }

  lemma OfferStepInv<M>(c: Channel<M>)
    requires ChannelInv(c) && c.pc.Offering?
    ensures ChannelInv(OfferStep(c))
  {
    NextInv(c.ring, ProducerStep);
  }

  lemma SpillMessageInv<M>(c: Channel<M>, prepared: bool)
    requires ChannelInv(c) && c.pc.Overflowed?
    ensures ChannelInv(SpillMessage(c, c.pc.msg, prepared).(pc := Quiet))
  {
  }

  lemma DrainBegins<M>(c: Channel<M>, prepared: bool)
    requires ChannelInv(c) && c.pc.Draining?
    ensures ChannelInv(DrainStep(c, prepared))
  {
    if c.spill != [] {
      NextInv(c.ring, StartEnqueue(c.spill[0]));
    }
  }

  lemma DrainReturns<M>(c: Channel<M>, prepared: bool)
    requires ChannelInv(c) && c.pc.DrainEnqueue? && c.ring.producer.Returned?
    ensures ChannelInv(DrainStep(c, prepared))
  {
  }

  lemma DrainAdvances<M>(c: Channel<M>, prepared: bool)
    requires ChannelInv(c) && c.pc.DrainEnqueue? && !c.ring.producer.Returned?
    ensures ChannelInv(DrainStep(c, prepared))
  {
    var d := DrainStep(c, prepared);
    NextInv(c.ring, ProducerStep);
    if c.ring.producer.SlotWritten? {
      assert (c.ring.sent + [c.spill[0]]) + c.spill[1..] == c.ring.sent + c.spill;
    } else {
      assert d.ring.sent + Waiting(d) == c.ring.sent + Waiting(c);
    }
  }

  lemma DrainStepInv<M>(c: Channel<M>, prepared: bool)
    requires ChannelInv(c) && (c.pc.Draining? || c.pc.DrainEnqueue?)
    ensures ChannelInv(DrainStep(c, prepared))
  {
    if c.pc.Draining? {
      DrainBegins(c, prepared);
    } else if c.ring.producer.Returned? {
      DrainReturns(c, prepared);
    } else {
      DrainAdvances(c, prepared);
    }
  }

  lemma ConsumerLeavesProducer<M>(r: Ring<M>, a: Action<M>)
    requires Inv(r) && ConsumerAction(a)
    ensures Inv(Next(r, a))
    ensures Next(r, a).producer == r.producer && Next(r, a).sent == r.sent
  {
    NextInv(r, a);
  }

  lemma AdvancedInv<M>(c: Channel<M>, s: Step<M>)
    requires ChannelInv(c)
    ensures ChannelInv(Advanced(c, s))
  {
    match s
    case Push(msg) => if c.pc.Quiet? { OfferInv(c, msg); }
    case Produce(prepared) =>
      match c.pc {
        case Quiet =>
        case Offering(_) => OfferStepInv(c);
        case Overflowed(_) => SpillMessageInv(c, prepared);
        case _ => DrainStepInv(c, prepared);
      }
    case RunDrain =>
    case Consume(a) => if ConsumerAction(a) { ConsumerLeavesProducer(c.ring, a); }
  }

  /** The producer's own steps leave the consumer's side of the ring alone. */
  lemma ProducerLeavesConsumer<M>(c: Channel<M>, s: Step<M>)
    requires ChannelInv(c) && !s.Consume?
    ensures Advanced(c, s).ring.consumer == c.ring.consumer && Advanced(c, s).ring.handled == c.ring.handled
  {
  }

  // ---- what the invariant says ------------------------------------------------------------------

  /** What a step pushes: the producer takes a push only between others and drain runs. */
  function PushedBy<M>(c: Channel<M>, s: Step<M>): seq<M> {
    if s.Push? && c.pc.Quiet? then [s.msg] else []
  }

  lemma PushedByStep<M>(c: Channel<M>, s: Step<M>)
    requires Shape(c.ring)
    ensures Advanced(c, s).pushed == c.pushed + PushedBy(c, s)
  {
    assert c.pushed + [] == c.pushed;
  }

  /** Nothing is lost, duplicated or reordered across the ring and the spill deque. */
  lemma Conserved<M>(c: Channel<M>)
    requires ChannelInv(c)
    ensures c.ring.handled + Unhandled(c.ring) + Waiting(c) == c.pushed
  {
  }

  /** Between runs of the producer's code the spill deque is non-empty exactly when one drain task
      is pending, unless and only unless a post was rejected. */
  lemma OneDrainIffSpilled<M>(c: Channel<M>)
    requires ChannelInv(c) && c.pc.Quiet?
    ensures (c.spill != [] <==> c.drains == 1) <==> !c.stranded
    ensures c.spill == [] ==> c.drains == 0
  {
  }

  /** Whether the next step of the producer posts a drain task. */
  predicate PostsDrain<M>(c: Channel<M>) {
    || (c.pc.Overflowed? && c.spill == [])
    || (c.pc.DrainEnqueue? && c.ring.producer == Returned(false))
  }

  lemma StrandedExactly<M>(c: Channel<M>, s: Step<M>)
    requires ChannelInv(c)
    ensures Advanced(c, s).stranded <==> c.stranded || (s == Produce(true) && PostsDrain(c))
  {
  }

  lemma StrandedStep<M>(c: Channel<M>, s: Step<M>)
    requires ChannelInv(c) && c.stranded
    ensures Advanced(c, s).stranded && c.spill <= Advanced(c, s).spill
  {
  }

  ghost function RunChannel<M>(c: Channel<M>, schedule: seq<Step<M>>): (end: Channel<M>)
    requires ChannelInv(c)
    ensures ChannelInv(end)
    decreases |schedule|
  {
    if schedule == [] then c
    else
      var before := RunChannel(c, schedule[..|schedule| - 1]);
      AdvancedInv(before, schedule[|schedule| - 1]);
      Advanced(before, schedule[|schedule| - 1])
  }

  /** Once stranded, no schedule ever takes a message out of the spill deque again. */
  lemma {:induction false} StrandedForever<M>(c: Channel<M>, schedule: seq<Step<M>>)
    requires ChannelInv(c) && c.stranded
    ensures RunChannel(c, schedule).stranded
    ensures c.spill <= RunChannel(c, schedule).spill
    decreases |schedule|
  {
    if schedule != [] {
      var last := |schedule| - 1;
      StrandedForever(c, schedule[..last]);
      StrandedStep(RunChannel(c, schedule[..last]), schedule[last]);
    }
  }

  /** When the producer is quiet, no drain is pending and the consumer has emptied the ring, the
      handler has seen exactly what was pushed. */
  lemma DeliveredAtRest<M>(c: Channel<M>)
    requires ChannelInv(c) && !c.stranded
    requires c.pc.Quiet? && c.drains == 0 && c.ring.consumer.Idle? && Contents(c.ring) == []
    ensures c.ring.handled == c.pushed
  {
  }

  // ---- whole calls ------------------------------------------------------------------------------

  /** No call is in progress on the channel, and no drain is posted for an empty spill deque. */
  ghost predicate Callable<M>(c: Channel<M>) {
    Shape(c.ring) && MayStart(c.ring.producer) && (c.spill == [] ==> c.drains == 0)
  }

  /** A push during which the consumer does not move. */
  function PushCall<M>(c: Channel<M>, msg: M, prepared: bool): (d: Channel<M>)
    requires Shape(c.ring) && MayStart(c.ring.producer)
  {
    var (offered, accepted) := Offered(c, msg);
    if accepted then offered else SpillMessage(offered, msg, prepared)
  }

  /** The message is offered to the ring if nothing is spilled; and whether the ring took it. */
  function Offered<M>(c: Channel<M>, msg: M): (Channel<M>, bool)
    requires Shape(c.ring) && MayStart(c.ring.producer)
  {
    var pushed := c.(pushed := c.pushed + [msg]);
    if c.spill != [] then (pushed, false)
    else (pushed.(ring := EnqueueCall(c.ring, msg)), EnqueueCall(c.ring, msg).producer.ok)
  }

  /** A drain run during which the consumer does not move. */
  ghost function DrainCall<M>(c: Channel<M>, prepared: bool): Channel<M>
    requires Inv(c.ring) && MayStart(c.ring.producer)
    decreases |c.spill|
  {
    if c.spill == [] then c.(drains := Less(c.drains))
    else
      EnqueueCallEffect(c.ring, c.spill[0]);
      var offered := c.(ring := EnqueueCall(c.ring, c.spill[0]));
      if offered.ring.producer.ok then DrainCall(offered.(spill := c.spill[1..]), prepared)
      else if prepared then offered.(drains := Less(c.drains), stranded := true)
      else offered
  }

  /** Everything accepted for a channel and not taken out of its ring yet, oldest first. */
  function Backlog<M>(c: Channel<M>): seq<M>
    requires Shape(c.ring)
  {
    Contents(c.ring) + c.spill
  }

  /** A push puts its message behind all others of the channel; it does not pass those that are spilled,
      and spills only if it must. */
  lemma PushCallBacklog<M>(c: Channel<M>, msg: M, prepared: bool)
    requires ChannelInv(c) && c.pc.Quiet?
    ensures var d := PushCall(c, msg, prepared);
            && Inv(d.ring) && MayStart(d.ring.producer) && d.ring.size == c.ring.size
            && Backlog(d) == Backlog(c) + [msg]
            && (Contents(d.ring) != Contents(c.ring) <==> c.spill == [] && |Contents(c.ring)| != c.ring.size - 1)
            && (d.spill != [] ==> d.drains == 1 || d.stranded)
            && (d.stranded <==> c.stranded || (prepared && d.spill != [] && c.spill == []))
  {
    if c.spill == [] {
      EnqueueCallEffect(c.ring, msg);
    }
  }

  lemma DrainCallUnfolds<M>(c: Channel<M>, prepared: bool)
    requires Inv(c.ring) && MayStart(c.ring.producer)
    ensures c.spill == [] ==> DrainCall(c, prepared) == c.(drains := Less(c.drains))
    ensures c.spill != [] ==>
              var r := EnqueueCall(c.ring, c.spill[0]);
              && Inv(r)
              && DrainCall(c, prepared)
                 == if r.producer.ok then DrainCall(c.(ring := r, spill := c.spill[1..]), prepared)
                    else if prepared then c.(ring := r, drains := Less(c.drains), stranded := true)
                    else c.(ring := r)
  {
    if c.spill != [] {
      EnqueueCallEffect(c.ring, c.spill[0]);
    }
  }

  lemma FrontMoved<T>(contents: seq<T>, spill: seq<T>)
    requires spill != []
    ensures (contents + [spill[0]]) + spill[1..] == contents + spill
  {
  }

  /** A drain run keeps the backlog and its order: it moves messages into the ring until none is spilled or
      the ring is full, and in the second case its post again decides whether the channel is stranded. */
  lemma {:induction false} DrainCallBacklog<M>(c: Channel<M>, prepared: bool)
    requires Inv(c.ring) && MayStart(c.ring.producer) && c.drains == 1 && !c.stranded
    ensures var d := DrainCall(c, prepared);
            && Inv(d.ring) && MayStart(d.ring.producer) && d.ring.size == c.ring.size
            && Backlog(d) == Backlog(c)
            && (d.spill != [] ==> |Contents(d.ring)| == d.ring.size - 1)
            && (d.drains == 1 <==> d.spill != [] && !prepared)
            && (d.stranded <==> d.spill != [] && prepared)
    decreases |c.spill|
  {
    hide DrainCall, EnqueueCall, Contents, ProducerInv, ConsumerInv;
    DrainCallUnfolds(c, prepared);
    if c.spill != [] {
      EnqueueCallEffect(c.ring, c.spill[0]);
      var r := EnqueueCall(c.ring, c.spill[0]);
      if r.producer.ok {
        DrainCallBacklog(c.(ring := r, spill := c.spill[1..]), prepared);
        FrontMoved(Contents(c.ring), c.spill);
      }
    }
  }

  // ---- from steps to calls ----------------------------------------------------------------------

  /** Steps of the producer with nothing between them. */
  ghost function Work<M>(c: Channel<M>, prepared: bool, n: nat): (d: Channel<M>)
    requires ChannelInv(c)
    ensures ChannelInv(d)
    decreases n
  {
    if n == 0 then c
    else
      AdvancedInv(c, Produce(prepared));
      Work(Advanced(c, Produce(prepared)), prepared, n - 1)
  }

  lemma WorkStep<M>(c: Channel<M>, prepared: bool, n: nat)
    requires ChannelInv(c) && n > 0
    ensures Shape(c.ring) && ChannelInv(Advanced(c, Produce(prepared)))
    ensures Work(c, prepared, n) == Work(Advanced(c, Produce(prepared)), prepared, n - 1)
  {
    AdvancedInv(c, Produce(prepared));
  }

  lemma {:induction false} QuietRests<M>(c: Channel<M>, prepared: bool, n: nat)
    requires ChannelInv(c) && c.pc.Quiet?
    ensures Work(c, prepared, n) == c
  {
    hide ChannelInv;
    if n > 0 {
      WorkStep(c, prepared, n);
      QuietRests(c, prepared, n - 1);
    }
  }

  /** Within four steps a push is done as the call does it. */
  lemma PushIsCall<M>(c: Channel<M>, msg: M, prepared: bool)
    requires ChannelInv(c) && c.pc.Quiet?
    ensures ChannelInv(Advanced(c, Push(msg)))
    ensures Work(Advanced(c, Push(msg)), prepared, 4) == PushCall(c, msg, prepared)
  {
    AdvancedInv(c, Push(msg));
    var a := Advanced(c, Push(msg));
    WorkStep(a, prepared, 4);
    var b := Advanced(a, Produce(prepared));
    if b.pc.Quiet? {
      QuietRests(b, prepared, 3);
    } else {
      WorkStep(b, prepared, 3);
      var d := Advanced(b, Produce(prepared));
      WorkStep(d, prepared, 2);
      var e := Advanced(d, Produce(prepared));
      if e.pc.Quiet? {
        QuietRests(e, prepared, 1);
      } else {
        WorkStep(e, prepared, 1);
        QuietRests(Advanced(e, Produce(prepared)), prepared, 0);
      }
    }
  }

  /** The channel once the ring has taken the front message, and once it has refused it. */
  function Moved<M>(c: Channel<M>): Channel<M>
    requires Shape(c.ring) && MayStart(c.ring.producer) && c.spill != []
  {
    c.(ring := EnqueueCall(c.ring, c.spill[0]), spill := c.spill[1..])
  }

  function GivenUp<M>(c: Channel<M>, prepared: bool): Channel<M>
    requires Shape(c.ring) && MayStart(c.ring.producer) && c.spill != []
  {
    var offered := c.(ring := EnqueueCall(c.ring, c.spill[0]), pc := Quiet);
    if prepared then offered.(drains := Less(c.drains), stranded := true) else offered
  }

  /** The channel while the ring has not answered yet whether it has room for the front message. */
  function Asking<M>(c: Channel<M>): Channel<M>
    requires Shape(c.ring) && c.spill != []
  {
    c.(pc := DrainEnqueue, ring := ProducerNext(Next(c.ring, StartEnqueue(c.spill[0]))))
  }

  lemma FrontAsked<M>(c: Channel<M>, prepared: bool, n: nat)
    requires ChannelInv(c) && c.pc.Draining? && c.spill != [] && n >= 5
    ensures Inv(c.ring) && Shape(c.ring) && MayStart(c.ring.producer)
    ensures ChannelInv(Asking(c)) && Work(c, prepared, n) == Work(Asking(c), prepared, n - 2)
  {
    assert Inv(c.ring) && MayStart(c.ring.producer);
    hide ChannelInv, Inv, Work;
    WorkStep(c, prepared, n);
    var a := Advanced(c, Produce(prepared));
    WorkStep(a, prepared, n - 1);
    AdvancedInv(a, Produce(prepared));
    assert Advanced(a, Produce(prepared)) == Asking(c);
  }

  /** One message's part of a drain run: five steps if the ring takes it, and else three to the end. */
  lemma FrontIsCall<M>(c: Channel<M>, prepared: bool, n: nat)
    requires ChannelInv(c) && c.pc.Draining? && c.spill != [] && n >= 5
    ensures Inv(c.ring) && Shape(c.ring) && MayStart(c.ring.producer)
    ensures if EnqueueCall(c.ring, c.spill[0]).producer.ok
            then && ChannelInv(Moved(c)) && Moved(c).pc.Draining? && Moved(c).spill == c.spill[1..]
                 && Work(c, prepared, n) == Work(Moved(c), prepared, n - 5)
            else Work(c, prepared, n) == GivenUp(c, prepared)
  {
    hide ChannelInv, Inv, Work;
    FrontAsked(c, prepared, n);
    var b := Asking(c);
    WorkStep(b, prepared, n - 2);
    var d := Advanced(b, Produce(prepared));
    if b.ring.producer.Returned? {
      QuietRests(d, prepared, n - 3);
    } else {
      WorkStep(d, prepared, n - 3);
      var e := Advanced(d, Produce(prepared));
      WorkStep(e, prepared, n - 4);
      assert Advanced(e, Produce(prepared)) == Moved(c);
    }
  }

  lemma DrainCallFront<M>(c: Channel<M>, prepared: bool)
    requires Inv(c.ring) && MayStart(c.ring.producer) && c.spill != []
    ensures DrainCall(c, prepared).(pc := Quiet)
            == if EnqueueCall(c.ring, c.spill[0]).producer.ok
               then (EnqueueCallEffect(c.ring, c.spill[0]); DrainCall(Moved(c), prepared).(pc := Quiet))
               else GivenUp(c, prepared)
  {
    DrainCallUnfolds(c, prepared);
    hide Inv, EnqueueCall, DrainCall;
  }

  lemma NoneLeftIsCall<M>(c: Channel<M>, prepared: bool, n: nat)
    requires ChannelInv(c) && c.pc.Draining? && c.spill == [] && n > 0
    ensures Inv(c.ring) && MayStart(c.ring.producer) && Work(c, prepared, n) == DrainCall(c, prepared).(pc := Quiet)
  {
    WorkStep(c, prepared, n);
    QuietRests(Advanced(c, Produce(prepared)), prepared, n - 1);
  }

  lemma {:induction false} DrainingIsCall<M>(c: Channel<M>, prepared: bool, n: nat)
    requires ChannelInv(c) && c.pc.Draining? && n > 5 * |c.spill|
    ensures Inv(c.ring) && MayStart(c.ring.producer) && Work(c, prepared, n) == DrainCall(c, prepared).(pc := Quiet)
    decreases |c.spill|
  {
    hide *;
    if c.spill == [] {
      NoneLeftIsCall(c, prepared, n);
    } else {
      FrontIsCall(c, prepared, n);
      DrainCallFront(c, prepared);
      if EnqueueCall(c.ring, c.spill[0]).producer.ok {
        DrainingIsCall(Moved(c), prepared, n - 5);
      }
    }
  }

  /** A pending drain run is done, as the call does it, within five steps for each spilled message and one
      more. */
  lemma DrainRunIsCall<M>(c: Channel<M>, prepared: bool)
    requires ChannelInv(c) && c.pc.Quiet? && c.drains > 0
    ensures ChannelInv(Advanced(c, RunDrain)) && Inv(c.ring) && MayStart(c.ring.producer)
    ensures Work(Advanced(c, RunDrain), prepared, 5 * |c.spill| + 1) == DrainCall(c, prepared)
  {
    AdvancedInv(c, RunDrain);
    DrainingIsCall(c.(pc := Draining), prepared, 5 * |c.spill| + 1);
    DrainCallAnyPc(c, prepared);
  }

  lemma {:induction false} DrainCallAnyPc<M>(c: Channel<M>, prepared: bool)
    requires Inv(c.ring) && MayStart(c.ring.producer)
    ensures DrainCall(c.(pc := Draining), prepared).(pc := Quiet) == DrainCall(c, prepared).(pc := Quiet)
    ensures DrainCall(c, prepared).pc == c.pc
    decreases |c.spill|
  {
    assert Shape(c.ring);
    hide EnqueueCall, Inv, Shape, DrainCall;
    DrainCallUnfolds(c, prepared);
    DrainCallUnfolds(c.(pc := Draining), prepared);
    if c.spill != [] && EnqueueCall(c.ring, c.spill[0]).producer.ok {
      EnqueueCallEffect(c.ring, c.spill[0]);
      var next := c.(ring := EnqueueCall(c.ring, c.spill[0]), spill := c.spill[1..]);
      DrainCallAnyPc(next, prepared);
      assert next.(pc := Draining) == c.(pc := Draining).(ring := next.ring, spill := next.spill);
    }
  }
}
