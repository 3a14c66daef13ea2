/** The broadcast producer over all channels of one segment, with consumers that attach while it is
    running.  The producer's calls are loops over the channels; every atomic step of the producer,
    of each consumer and of each attach may interleave with all the others.
 */
module SpmcEndpoints {
  import opened SpscRing
  import opened SpillChannel

  datatype ServerPc<M> =
    | AtRest
    | Pushing(broadcast: bool, msg: M, next: nat, limit: nat)
    | InChannel(broadcast: bool, msg: M, next: nat, limit: nat)
    | DrainRun(channel: nat)

  /** A finished call of `pushMessage`: to the `count` channels that were active when it began, to
      one channel, or refused because its channel was not active. */
  datatype Call<M> =
    | Broadcast(msg: M, count: nat)
    | Direct(msg: M, channel: nat)
    | Invalid(msg: M, channel: nat)

  datatype Server<M> = Server(
    channels: seq<Channel<M>>,
    active: nat,
    outgoing: nat,
    pc: ServerPc<M>,
    log: seq<Call<M>>)

  datatype Action<M> =
    | PushAll(msg: M)
    | PushTo(channel: nat, msg: M)
    | StartTask(channel: nat)
    | ProducerAdvance(prepared: bool)
    | ConsumerAdvance(channel: nat, action: SpscRing.Action<M>)
    | Attach

  // ---- the machine ------------------------------------------------------------------------------

  /** One round of the loop: re-read the number of active channels, then offer the message. */
  function EnterChannel<M>(s: Server<M>): Server<M>
    requires s.pc.Pushing? && forall i :: 0 <= i < |s.channels| ==> Shape(s.channels[i].ring)
  {
    var Pushing(broadcast, msg, next, limit) := s.pc;
    if next == limit then
      s.(pc := AtRest, log := s.log + [if broadcast then Broadcast(msg, limit) else Direct(msg, Less(limit))])
    else if next >= s.active || next >= |s.channels| then
      s.(pc := AtRest, log := s.log + [Invalid(msg, next)])
    else
      s.(outgoing := next,
         channels := s.channels[next := Offer(s.channels[next], msg)],
         pc := InChannel(broadcast, msg, next, limit))
  }

  /** A step inside `pushMessageToChannel`.  The back-pressure handler is not told the channel: it
      takes the one named by `outgoing`. */
  function WithinChannel<M>(s: Server<M>): Server<M>
    requires s.pc.InChannel? && s.pc.next < |s.channels| && Shape(s.channels[s.pc.next].ring)
    requires s.channels[s.pc.next].pc.Offering?
  {
    var after := OfferStep(s.channels[s.pc.next]);
    s.(channels := s.channels[s.pc.next := after],
       pc := if after.pc.Quiet? then Pushing(s.pc.broadcast, s.pc.msg, s.pc.next + 1, s.pc.limit) else s.pc)
  }

  function CallHandler<M>(s: Server<M>, prepared: bool): Server<M>
    requires s.pc.InChannel? && s.pc.next < |s.channels| && s.outgoing < |s.channels|
  {
    var spilled := s.channels[s.outgoing := SpillMessage(s.channels[s.outgoing], s.pc.msg, prepared)];
    s.(channels := spilled[s.pc.next := spilled[s.pc.next].(pc := Quiet)],
       pc := Pushing(s.pc.broadcast, s.pc.msg, s.pc.next + 1, s.pc.limit))
  }

  function RunTask<M>(s: Server<M>, prepared: bool): Server<M>
    requires s.pc.DrainRun? && s.pc.channel < |s.channels| && Shape(s.channels[s.pc.channel].ring)
  {
    var after := DrainStep(s.channels[s.pc.channel], prepared);
    s.(channels := s.channels[s.pc.channel := after], pc := if after.pc.Quiet? then AtRest else s.pc)
  }

  ghost function NextState<M>(s: Server<M>, a: Action<M>): Server<M>
    requires ServerInv(s)
  {
    match a
    case PushAll(msg) =>
      if s.pc.AtRest? then s.(pc := Pushing(true, msg, 0, s.active)) else s
    case PushTo(channel, msg) =>
      if s.pc.AtRest? then s.(pc := Pushing(false, msg, channel, channel + 1)) else s
    case StartTask(channel) =>
      if s.pc.AtRest? && channel < |s.channels| && s.channels[channel].drains > 0
      then s.(pc := DrainRun(channel), channels := s.channels[channel := StartDrain(s.channels[channel])])
      else s
    case ProducerAdvance(prepared) =>
      (match s.pc
       case AtRest => s
       case Pushing(_, _, _, _) => EnterChannel(s)
       case InChannel(_, _, next, _) =>
         if s.channels[next].pc.Offering? then WithinChannel(s) else CallHandler(s, prepared)
       case DrainRun(_) => RunTask(s, prepared))
    case ConsumerAdvance(channel, action) =>
      if channel < s.active && ConsumerAction(action)
      then s.(channels := s.channels[channel := Advanced(s.channels[channel], Consume(action))])
      else s
    case Attach =>
      if s.active < |s.channels| then s.(active := s.active + 1) else s
  }

  // ---- what each channel should have received ---------------------------------------------------

  function Share<M>(call: Call<M>, channel: nat): seq<M> {
    match call
    case Broadcast(msg, count) => if channel < count then [msg] else []
    case Direct(msg, only) => if channel == only then [msg] else []
    case Invalid(_, _) => []
  }

  /** The messages of the finished calls that are meant for a channel, in call order. */
  function Expected<M>(log: seq<Call<M>>, channel: nat): seq<M> {
    if log == [] then []
    else Expected(log[..|log| - 1], channel) + Share(log[|log| - 1], channel)
  }

  /** The part of the call in progress that has already reached the channel. */
  function InProgress<M>(pc: ServerPc<M>, channel: nat): seq<M> {
    match pc
    case Pushing(broadcast, msg, next, limit) =>
      if (broadcast || channel + 1 == limit) && channel < next then [msg] else []
    case InChannel(broadcast, msg, next, limit) =>
      if (broadcast || channel + 1 == limit) && channel <= next then [msg] else []
    case _ => []
  }

  // ---- the invariant ----------------------------------------------------------------------------

  ghost predicate PcOf<M>(s: Server<M>, i: nat)
    requires i < |s.channels|
  {
    var pc := s.channels[i].pc;
    match s.pc
    case InChannel(_, msg, next, _) => if i == next then pc == Offering(msg) || pc == Overflowed(msg) else pc.Quiet?
    case DrainRun(channel) => if i == channel then pc.Draining? || pc.DrainEnqueue? else pc.Quiet?
    case _ => pc.Quiet?
  }

  ghost predicate ChannelOk<M>(s: Server<M>, i: nat)
    requires i < |s.channels|
  {
    && PcOf(s, i)
    && s.channels[i].pushed == Expected(s.log, i) + InProgress(s.pc, i)
  }

  ghost predicate PushInv<M>(s: Server<M>) {
    match s.pc
    case AtRest => true
    case Pushing(broadcast, _, next, limit) =>
      && next <= limit
      && if broadcast then limit <= s.active else limit <= next + 1 && (next == limit ==> 0 < limit <= s.active)
    case InChannel(broadcast, _, next, limit) =>
      && next < limit && next < s.active && s.outgoing == next
      && if broadcast then limit <= s.active else limit == next + 1
    case DrainRun(channel) => channel < |s.channels|
  }

  /** Broadcast calls only ever reach more channels than their predecessors, no broadcast is cut
      short, and a direct call is carried out only on an active channel. */
  ghost predicate LogInv<M>(s: Server<M>) {
    && (forall i :: 0 <= i < |s.log| && s.log[i].Broadcast? ==> s.log[i].count <= Bound(s))
    && (forall i :: 0 <= i < |s.log| && s.log[i].Direct? ==> s.log[i].channel < s.active)
    && (forall i, j :: 0 <= i < j < |s.log| && s.log[i].Broadcast? && s.log[j].Broadcast?
          ==> s.log[i].count <= s.log[j].count)
  }

  /** The number of channels the broadcast in progress counted, or the active ones. */
  function Bound<M>(s: Server<M>): nat {
    match s.pc
    case Pushing(broadcast, _, _, limit) => if broadcast then limit else s.active
    case InChannel(broadcast, _, _, limit) => if broadcast then limit else s.active
    case _ => s.active
  }

  ghost predicate ServerInv<M>(s: Server<M>) {
    && s.active <= |s.channels|
    && PushInv(s)
    && LogInv(s)
    && (forall i :: 0 <= i < |s.channels| ==> ChannelInv(s.channels[i]))
    && (forall i :: 0 <= i < |s.channels| ==> ChannelOk(s, i))
  }

  /** Logging a call whose shares are what the call in progress had already delivered. */
  lemma LoggedInv<M>(s: Server<M>, call: Call<M>)
    requires ServerInv(s) && s.pc.Pushing?
    requires forall i :: 0 <= i < |s.channels| ==> Share(call, i) == InProgress(s.pc, i)
    requires LogInv(s.(pc := AtRest, log := s.log + [call]))
    ensures ServerInv(s.(pc := AtRest, log := s.log + [call]))
  {
    var t := s.(pc := AtRest, log := s.log + [call]);
    assert t.log[..|s.log|] == s.log;
    forall i | 0 <= i < |s.channels|
      ensures ChannelOk(t, i)
    {
      assert ChannelOk(s, i);
    }
  }

  lemma CallEndsInv<M>(s: Server<M>)
    requires ServerInv(s) && s.pc.Pushing? && EnterChannel(s).pc.AtRest?
    ensures ServerInv(EnterChannel(s))
  {
    var Pushing(broadcast, msg, next, limit) := s.pc;
    if next == limit {
      LoggedInv(s, if broadcast then Broadcast(msg, limit) else Direct(msg, Less(limit)));
    } else {
      LoggedInv(s, Invalid(msg, next));
    }
  }

  lemma OfferStartsInv<M>(s: Server<M>)
    requires ServerInv(s) && s.pc.Pushing? && EnterChannel(s).pc.InChannel?
    ensures ServerInv(EnterChannel(s))
  {
    hide Expected;
    var t := EnterChannel(s);
    assert ChannelOk(s, s.pc.next);
    OfferInv(s.channels[s.pc.next], s.pc.msg);
    forall i | 0 <= i < |s.channels|
      ensures ChannelOk(t, i)
    {
      assert ChannelOk(s, i);
    }
  }

  lemma WithinChannelInv<M>(s: Server<M>)
    requires ServerInv(s) && s.pc.InChannel? && s.channels[s.pc.next].pc.Offering?
    ensures ServerInv(WithinChannel(s))
  {
    hide Expected;
    var t := WithinChannel(s);
    assert ChannelOk(s, s.pc.next);
    OfferStepInv(s.channels[s.pc.next]);
    forall i | 0 <= i < |s.channels|
      ensures ChannelOk(t, i)
    {
      assert ChannelOk(s, i);
    }
  }

  lemma CallHandlerInv<M>(s: Server<M>, prepared: bool)
    requires ServerInv(s) && s.pc.InChannel? && !s.channels[s.pc.next].pc.Offering?
    ensures ServerInv(CallHandler(s, prepared))
  {
    hide Expected;
    var t := CallHandler(s, prepared);
    assert ChannelOk(s, s.pc.next);
    SpillMessageInv(s.channels[s.pc.next], prepared);
    forall i | 0 <= i < |s.channels|
      ensures ChannelOk(t, i)
    {
      assert ChannelOk(s, i);
    }
  }

  lemma TaskMovedInv<M>(s: Server<M>, after: Channel<M>)
    requires ServerInv(s) && s.pc.DrainRun?
    requires ChannelInv(after) && after.pushed == s.channels[s.pc.channel].pushed
    requires after.pc.Quiet? || after.pc.Draining? || after.pc.DrainEnqueue?
    ensures ServerInv(s.(channels := s.channels[s.pc.channel := after], pc := if after.pc.Quiet? then AtRest else s.pc))
  {
    var t := s.(channels := s.channels[s.pc.channel := after], pc := if after.pc.Quiet? then AtRest else s.pc);
    forall i | 0 <= i < |s.channels|
      ensures ChannelOk(t, i)
    {
      assert ChannelOk(s, i);
    }
  }

  lemma RunTaskInv<M>(s: Server<M>, prepared: bool)
    requires ServerInv(s) && s.pc.DrainRun?
    ensures ServerInv(RunTask(s, prepared))
  {
    assert ChannelOk(s, s.pc.channel);
    DrainStepInv(s.channels[s.pc.channel], prepared);
    TaskMovedInv(s, DrainStep(s.channels[s.pc.channel], prepared));
  }

  lemma ConsumerInvKept<M>(s: Server<M>, channel: nat, action: SpscRing.Action<M>)
    requires ServerInv(s) && channel < s.active && ConsumerAction(action)
    ensures ServerInv(NextState(s, ConsumerAdvance(channel, action)))
  {
    var t := NextState(s, ConsumerAdvance(channel, action));
    assert ChannelOk(s, channel);
    AdvancedInv(s.channels[channel], Consume(action));
    forall i | 0 <= i < |s.channels|
      ensures ChannelOk(t, i)
    {
      assert ChannelOk(s, i);
    }
  }

  lemma CallStartsInv<M>(s: Server<M>, a: Action<M>)
    requires ServerInv(s) && (a.PushAll? || a.PushTo? || a.Attach?)
    ensures ServerInv(NextState(s, a))
  {
    var t := NextState(s, a);
    forall i | 0 <= i < |s.channels|
      ensures ChannelOk(t, i)
    {
      assert ChannelOk(s, i);
    }
  }

  lemma TaskStartsInv<M>(s: Server<M>, channel: nat)
    requires ServerInv(s)
    ensures ServerInv(NextState(s, StartTask(channel)))
  {
    var t := NextState(s, StartTask(channel));
    if t != s {
      assert ChannelOk(s, channel);
      AdvancedInv(s.channels[channel], RunDrain);
      forall i | 0 <= i < |s.channels|
        ensures ChannelOk(t, i)
      {
        assert ChannelOk(s, i);
      }
    }
  }

  lemma ProducerAdvanceInv<M>(s: Server<M>, prepared: bool)
    requires ServerInv(s)
    ensures ServerInv(NextState(s, ProducerAdvance(prepared)))
    ensures |NextState(s, ProducerAdvance(prepared)).channels| == |s.channels|
  {
    hide Expected, LogInv;
    match s.pc
    case AtRest =>
    case Pushing(_, _, _, _) =>
      if EnterChannel(s).pc.AtRest? { CallEndsInv(s); } else { OfferStartsInv(s); }
    case InChannel(_, _, next, _) =>
      if s.channels[next].pc.Offering? { WithinChannelInv(s); } else { CallHandlerInv(s, prepared); }
    case DrainRun(_) => RunTaskInv(s, prepared);
  }

  lemma NextStateInv<M>(s: Server<M>, a: Action<M>)
    requires ServerInv(s)
    ensures ServerInv(NextState(s, a))
    ensures |NextState(s, a).channels| == |s.channels|
  {
    match a
    case ProducerAdvance(prepared) => ProducerAdvanceInv(s, prepared);
    case ConsumerAdvance(channel, action) =>
      if channel < s.active && ConsumerAction(action) { ConsumerInvKept(s, channel, action); }
    case StartTask(channel) => TaskStartsInv(s, channel);
    case _ => CallStartsInv(s, a);
  }

  // ---- whole runs -------------------------------------------------------------------------------

  ghost predicate Initial<M>(s: Server<M>) {
    && s.active == 0 && s.pc.AtRest? && s.log == []
    && forall i :: 0 <= i < |s.channels| ==> IsFresh(s.channels[i])
  }

  ghost function Execute<M>(s: Server<M>, schedule: seq<Action<M>>): (end: Server<M>)
    requires ServerInv(s)
    ensures ServerInv(end) && |end.channels| == |s.channels|
    decreases |schedule|
  {
    if schedule == [] then s
    else
      var before := Execute(s, schedule[..|schedule| - 1]);
      NextStateInv(before, schedule[|schedule| - 1]);
      NextState(before, schedule[|schedule| - 1])
  }

  /** The index of the first broadcast that counted the channel. */
  function FirstCounted<M>(log: seq<Call<M>>, channel: nat): (cut: nat)
    ensures cut <= |log|
    ensures forall i :: 0 <= i < cut ==> !(log[i].Broadcast? && channel < log[i].count)
    ensures cut < |log| ==> log[cut].Broadcast? && channel < log[cut].count
  {
    if log == [] then 0
    else if log[0].Broadcast? && channel < log[0].count then 0
    else 1 + FirstCounted(log[1..], channel)
  }

  /** The main result.  After every schedule, for every channel: what its consumer has handled, what
      is in its ring and what is waiting behind the ring is, in this order, exactly what the calls
      so far pushed to it; and from the first broadcast that counted it, every broadcast is for it. */
  lemma BroadcastDelivery<M>(s: Server<M>, schedule: seq<Action<M>>, channel: nat)
    requires Initial(s) && channel < |s.channels|
    ensures var end := (InitialInv(s); Execute(s, schedule));
            var c := end.channels[channel];
            && c.ring.handled + Unhandled(c.ring) + Waiting(c)
               == Expected(end.log, channel) + InProgress(end.pc, channel)
            && forall i :: FirstCounted(end.log, channel) <= i < |end.log| && end.log[i].Broadcast?
                 ==> channel < end.log[i].count
  {
    InitialInv(s);
    var end := Execute(s, schedule);
    assert ChannelOk(end, channel);
    Conserved(end.channels[channel]);
    CountedFromThenOn(end.log, channel);
  }

  lemma InitialInv<M>(s: Server<M>)
    requires Initial(s)
    ensures ServerInv(s)
  {
    forall i | 0 <= i < |s.channels|
      ensures ChannelOk(s, i) && ChannelInv(s.channels[i])
    {
      FreshChannelInv(s.channels[i].ring.size - 1, s.channels[i].ring.storage);
    }
  }

  lemma CountedFromThenOn<M>(log: seq<Call<M>>, channel: nat)
    requires forall i, j :: 0 <= i < j < |log| && log[i].Broadcast? && log[j].Broadcast? ==> log[i].count <= log[j].count
    ensures forall i :: FirstCounted(log, channel) <= i < |log| && log[i].Broadcast? ==> channel < log[i].count
  {
  }

  /** At rest, each channel's spill deque is non-empty iff exactly one drain task for it is pending,
      for exactly those channels none of whose posts was rejected. */
  lemma DrainPendingIffSpilled<M>(s: Server<M>, schedule: seq<Action<M>>, channel: nat)
    requires ServerInv(s) && channel < |s.channels| && Execute(s, schedule).pc.AtRest?
    ensures var c := Execute(s, schedule).channels[channel];
            (c.spill != [] <==> c.drains == 1) <==> !c.stranded
  {
    var end := Execute(s, schedule);
    assert ChannelOk(end, channel);
    OneDrainIffSpilled(end.channels[channel]);
  }

  /** At rest, with no drain pending or rejected and an idle consumer on an empty ring, the consumer
      has handled exactly the messages of the calls meant for it. */
  lemma AllDelivered<M>(s: Server<M>, channel: nat)
    requires ServerInv(s) && s.pc.AtRest? && channel < |s.channels|
    requires var c := s.channels[channel];
             !c.stranded && c.drains == 0 && c.ring.consumer.Idle? && Shape(c.ring) && Contents(c.ring) == []
    ensures s.channels[channel].ring.handled == Expected(s.log, channel)
  {
    assert ChannelOk(s, channel);
    DeliveredAtRest(s.channels[channel]);
  }

  /** A client's steps, as the system's and as the ring's. */
  function ClientActions<M>(channel: nat, steps: seq<SpscRing.Action<M>>): seq<Action<M>> {
    seq(|steps|, i requires 0 <= i < |steps| => ConsumerAdvance(channel, steps[i]))
  }

  function RingRun<M>(ring: Ring<M>, steps: seq<SpscRing.Action<M>>): (end: Ring<M>)
    requires Shape(ring) && forall i :: 0 <= i < |steps| ==> ConsumerAction(steps[i])
    ensures Shape(end)
  {
    if steps == [] then ring
    else
      var before := RingRun(ring, steps[..|steps| - 1]);
      ConsumerKeepsShape(before, steps[|steps| - 1]);
      Next(before, steps[|steps| - 1])
  }

  lemma ConsumerKeepsShape<M>(ring: Ring<M>, action: SpscRing.Action<M>)
    requires Shape(ring) && ConsumerAction(action)
    ensures Shape(Next(ring, action))
  {
  }

  /** A round of a client's poll, which finds an entry and consumes it; and the one that finds none. */
  function ServingRound<M>(ok: bool): (steps: seq<SpscRing.Action<M>>)
    ensures forall i :: 0 <= i < |steps| ==> ConsumerAction(steps[i])
  {
    var step := SpscRing.ConsumerStep(ok);
    [SpscRing.StartPoll, step, step, step, step]
  }

  function LastRound<M>(): (steps: seq<SpscRing.Action<M>>)
    ensures forall i :: 0 <= i < |steps| ==> ConsumerAction(steps[i])
  {
    [SpscRing.StartPoll, SpscRing.ConsumerStep(true)]
  }

  /** A poll that finds these entries goes on until there are none, or one fails. */
  function PollSteps<M>(entries: seq<M>, handler: M -> bool): (steps: seq<SpscRing.Action<M>>)
    ensures forall i :: 0 <= i < |steps| ==> ConsumerAction(steps[i])
    decreases |entries|
  {
    if entries == [] then LastRound()
    else if handler(entries[0]) then ServingRound(true) + PollSteps(entries[1..], handler)
    else ServingRound(false)
  }

  function WithRing<M>(s: Server<M>, channel: nat, ring: Ring<M>): Server<M>
    requires channel < |s.channels|
  {
    s.(channels := s.channels[channel := s.channels[channel].(ring := ring)])
  }

  lemma WithRingTwice<M>(s: Server<M>, channel: nat, ring: Ring<M>, last: Ring<M>)
    requires channel < |s.channels|
    ensures WithRing(WithRing(s, channel, ring), channel, last) == WithRing(s, channel, last)
    ensures WithRing(s, channel, s.channels[channel].ring) == s
  {
  }

  lemma ClientStep<M>(s: Server<M>, channel: nat, action: SpscRing.Action<M>)
    requires ServerInv(s) && channel < s.active && ConsumerAction(action)
    ensures Shape(s.channels[channel].ring)
    ensures NextState(s, ConsumerAdvance(channel, action)) == WithRing(s, channel, Next(s.channels[channel].ring, action))
  {
    hide Next;
    assert ChannelInv(s.channels[channel]);
  }

  lemma {:induction false} ClientRuns<M>(s: Server<M>, channel: nat, steps: seq<SpscRing.Action<M>>)
    requires ServerInv(s) && channel < s.active <= |s.channels| && Shape(s.channels[channel].ring)
    requires forall i :: 0 <= i < |steps| ==> ConsumerAction(steps[i])
    ensures Execute(s, ClientActions(channel, steps)) == WithRing(s, channel, RingRun(s.channels[channel].ring, steps))
    decreases |steps|
  {
    hide ServerInv, NextState, Next;
    var r := s.channels[channel].ring;
    var client := ClientActions(channel, steps);
    if steps == [] {
      WithRingTwice(s, channel, r, r);
    } else {
      var front := steps[..|steps| - 1];
      ClientRuns(s, channel, front);
      assert client[..|steps| - 1] == ClientActions(channel, front);
      ClientStep(Execute(s, ClientActions(channel, front)), channel, steps[|steps| - 1]);
      WithRingTwice(s, channel, RingRun(r, front), RingRun(r, steps));
    }
  }

  lemma {:induction false} RingRunSplits<M>(r: Ring<M>, first: seq<SpscRing.Action<M>>, rest: seq<SpscRing.Action<M>>)
    requires Shape(r)
    requires forall i :: 0 <= i < |first| ==> ConsumerAction(first[i])
    requires forall i :: 0 <= i < |rest| ==> ConsumerAction(rest[i])
    ensures RingRun(r, first + rest) == RingRun(RingRun(r, first), rest)
    decreases |rest|
  {
    hide Next;
    if rest == [] {
      assert first + rest == first;
    } else {
      assert (first + rest)[..|first + rest| - 1] == first + rest[..|rest| - 1];
      RingRunSplits(r, first, rest[..|rest| - 1]);
    }
  }

  lemma OneMoreStep<M>(r: Ring<M>, steps: seq<SpscRing.Action<M>>, k: nat)
    requires Shape(r) && k < |steps| && forall i :: 0 <= i < |steps| ==> ConsumerAction(steps[i])
    ensures RingRun(r, steps[..k + 1]) == Next(RingRun(r, steps[..k]), steps[k])
    ensures RingRun(r, steps[..0]) == r && steps[..|steps|] == steps
  {
    hide Next;
    assert steps[..k + 1][..k] == steps[..k];
  }

  lemma RoundReads<M>(r: Ring<M>, ok: bool)
    requires Shape(r) && r.consumer.Idle? && r.head != r.tail
    ensures RingRun(r, ServingRound(ok)[..3]) == r.(consumer := SpscRing.Reading(r.head))
  {
    hide RingRun;
    var steps := ServingRound<M>(ok);
    OneMoreStep(r, steps, 0);
    assert RingRun(r, steps[..1]) == r.(consumer := SpscRing.PollHeadLoaded(r.head));
    OneMoreStep(r, steps, 1);
    assert RingRun(r, steps[..2]) == r.(consumer := SpscRing.Available);
    OneMoreStep(r, steps, 2);
  }

  lemma RoundIsCall<M>(r: Ring<M>, handler: M -> bool)
    requires Shape(r) && r.consumer.Idle? && r.head != r.tail
    ensures RingRun(r, ServingRound(handler(r.storage[r.head]))) == SpscRing.ConsumeAvailableCall(r, handler)
  {
    hide RingRun, Next, ConsumerNext;
    var ok := handler(r.storage[r.head]);
    var steps := ServingRound<M>(ok);
    RoundReads(r, ok);
    OneMoreStep(r, steps, 3);
    OneMoreStep(r, steps, 4);
    CallIs(r, handler);
  }

  lemma CallIs<M>(r: Ring<M>, handler: M -> bool)
    requires Shape(r) && r.consumer.Idle? && r.head != r.tail
    ensures var step: SpscRing.Action<M> := SpscRing.ConsumerStep(handler(r.storage[r.head]));
            SpscRing.ConsumeAvailableCall(r, handler) == Next(Next(r.(consumer := SpscRing.Reading(r.head)), step), step)
  {
  }

  lemma RoundServes<M>(r: Ring<M>, handler: M -> bool)
    requires SpscRing.Inv(r) && r.consumer.Idle? && Contents(r) != []
    ensures var q := RingRun(r, ServingRound(handler(Contents(r)[0])));
            && SpscRing.Inv(q) && q.consumer.Idle? && q.sent == r.sent
            && q.handled == r.handled + [Contents(r)[0]] && Contents(q) == Contents(r)[1..]
  {
    RoundIsCall(r, handler);
    SpscRing.ConsumeAvailableCallEffect(r, handler);
    SpscRing.StoreHeadDrops(r);
    hide SpscRing.ConsumeAvailableCall, Contents, SpscRing.Inv, RingRun, ServingRound;
  }

  lemma RoundFindsNone<M>(r: Ring<M>)
    requires SpscRing.Inv(r) && r.consumer.Idle? && Contents(r) == []
    ensures RingRun(r, LastRound()) == r
  {
    assert r.head == r.tail;
    hide RingRun, Contents;
    OneMoreStep(r, LastRound(), 0);
    OneMoreStep(r, LastRound(), 1);
  }

  /** The ring `q` is `r` after a poll: what the handler is called on has left it. */
  ghost predicate Polled<M>(r: Ring<M>, q: Ring<M>, handler: M -> bool)
    requires Shape(r)
  {
    var taken := Taken(Contents(r), handler);
    && SpscRing.Inv(q) && q.consumer.Idle? && q.sent == r.sent
    && q.handled == r.handled + taken && Contents(q) == Contents(r)[|taken|..]
  }

  lemma PolledFirst<M>(r: Ring<M>, m: Ring<M>, q: Ring<M>, handler: M -> bool)
    requires Shape(r) && Contents(r) != [] && SpscRing.Inv(m) && m.consumer.Idle? && m.sent == r.sent
    requires m.handled == r.handled + [Contents(r)[0]] && Contents(m) == Contents(r)[1..]
    requires if handler(Contents(r)[0]) then Polled(m, q, handler) else q == m
    ensures Polled(r, q, handler)
  {
    hide Contents, SpscRing.Inv, Taken;
    var contents := Contents(r);
    TakenFirst(contents, handler);
    if handler(contents[0]) {
      var rest := Taken(contents[1..], handler);
      assert r.handled + [contents[0]] + rest == r.handled + ([contents[0]] + rest);
      assert contents[1..][|rest|..] == contents[|rest| + 1..];
    }
  }

  lemma {:induction false} RingPolled<M>(r: Ring<M>, handler: M -> bool)
    requires SpscRing.Inv(r) && r.consumer.Idle?
    ensures Polled(r, RingRun(r, PollSteps(Contents(r), handler)), handler)
    decreases |Contents(r)|
  {
    assert Shape(r);
    var contents := Contents(r);
    if contents == [] {
      hide RingRun, LastRound;
      RoundFindsNone(r);
      assert r.handled + [] == r.handled;
    } else {
      hide SpscRing.Inv, Contents, RingRun, ServingRound, Taken, Polled;
      var ok := handler(contents[0]);
      var q := RingRun(r, ServingRound(ok));
      RoundServes(r, handler);
      if ok {
        RingPolled(q, handler);
        RingRunSplits(r, ServingRound(ok), PollSteps(contents[1..], handler));
      }
      PolledFirst(r, q, RingRun(r, PollSteps(contents, handler)), handler);
    }
  }

  /** Whatever the server is at, a client of an active channel that polls hands over exactly what its
      ring holds, oldest first, up to and with the first entry that its handler fails on; it frees those
      slots and touches nothing else. */
  lemma ClientPolls<M>(s: Server<M>, channel: nat, handler: M -> bool)
    requires ServerInv(s) && channel < s.active <= |s.channels|
    requires Shape(s.channels[channel].ring) && s.channels[channel].ring.consumer.Idle?
    ensures var r := s.channels[channel].ring;
            var t := Execute(s, ClientActions(channel, PollSteps(Contents(r), handler)));
            var q := t.channels[channel].ring;
            var taken := Taken(Contents(r), handler);
            && t == WithRing(s, channel, q)
            && Shape(q) && q.consumer.Idle? && q.sent == r.sent
            && q.handled == r.handled + taken && Contents(q) == Contents(r)[|taken|..]
  {
    assert ChannelInv(s.channels[channel]);
    hide ServerInv, Execute, Contents, Next, RingRun, PollSteps;
    ClientRuns(s, channel, PollSteps(Contents(s.channels[channel].ring), handler));
    RingPolled(s.channels[channel].ring, handler);
  }

  function Attaches<M>(schedule: seq<Action<M>>): nat {
    if schedule == [] then 0
    else Attaches(schedule[..|schedule| - 1]) + if schedule[|schedule| - 1].Attach? then 1 else 0
  }

  /** The active channels are those attached so far, as far as there are channels, whatever else is done. */
  lemma {:induction false} AttachesCount<M>(s: Server<M>, schedule: seq<Action<M>>)
    requires ServerInv(s)
    ensures var (active, attached) := (Execute(s, schedule).active, s.active + Attaches(schedule));
            active == if attached <= |s.channels| then attached else |s.channels|
    decreases |schedule|
  {
    if schedule != [] {
      var n := |schedule| - 1;
      AttachesCount(s, schedule[..n]);
      AttachCounts(Execute(s, schedule[..n]), schedule[n]);
      hide ServerInv, NextState;
    }
  }

  lemma AttachCounts<M>(s: Server<M>, a: Action<M>)
    requires ServerInv(s)
    ensures s.active <= |s.channels|
    ensures NextState(s, a).active == if a.Attach? && s.active < |s.channels| then s.active + 1 else s.active
  {
  }

  // ---- the calls that were made -----------------------------------------------------------------

  /** A call as it was made: to as many channels as were active when it began, or to one. */
  datatype Request<M> = ToAll(msg: M, count: nat) | ToOne(msg: M, channel: nat)

  function Requests<M>(log: seq<Call<M>>): seq<Request<M>> {
    seq(|log|, i requires 0 <= i < |log| =>
      match log[i]
      case Broadcast(msg, count) => ToAll(msg, count)
      case Direct(msg, channel) => ToOne(msg, channel)
      case Invalid(msg, channel) => ToOne(msg, channel))
  }

  /** The call in progress. */
  function Unfinished<M>(pc: ServerPc<M>): seq<Request<M>> {
    match pc
    case Pushing(broadcast, msg, _, limit) => [if broadcast then ToAll(msg, limit) else ToOne(msg, Less(limit))]
    case InChannel(broadcast, msg, _, limit) => [if broadcast then ToAll(msg, limit) else ToOne(msg, Less(limit))]
    case _ => []
  }

  /** The call that an action begins: the producer makes one only between calls and tasks. */
  function BegunBy<M>(s: Server<M>, a: Action<M>): seq<Request<M>> {
    if !s.pc.AtRest? then []
    else
      match a
      case PushAll(msg) => [ToAll(msg, s.active)]
      case PushTo(channel, msg) => [ToOne(msg, channel)]
      case _ => []
  }

  ghost function Begun<M>(s: Server<M>, schedule: seq<Action<M>>): seq<Request<M>>
    requires ServerInv(s)
    decreases |schedule|
  {
    if schedule == [] then []
    else
      var n := |schedule| - 1;
      Begun(s, schedule[..n]) + BegunBy(Execute(s, schedule[..n]), schedule[n])
  }

  lemma RequestsLast<M>(log: seq<Call<M>>, call: Call<M>)
    ensures Requests(log + [call]) == Requests(log) + Requests([call])
  {
  }

  lemma StepCarriesOn<M>(s: Server<M>, a: Action<M>)
    requires ServerInv(s)
    ensures var t := NextState(s, a);
            Requests(t.log) + Unfinished(t.pc) == Requests(s.log) + Unfinished(s.pc) + BegunBy(s, a)
  {
    hide LogInv, ChannelInv, Requests, OfferStep, DrainStep;
    var t := NextState(s, a);
    assert Requests(s.log) + [] == Requests(s.log);
    if t.log != s.log {
      var call := t.log[|s.log|];
      assert t.log == s.log + [call];
      RequestsLast(s.log, call);
      OneRequest(call);
    }
  }

  lemma OneRequest<M>(call: Call<M>)
    ensures Requests([call]) == [match call
                                 case Broadcast(msg, count) => ToAll(msg, count)
                                 case Direct(msg, channel) => ToOne(msg, channel)
                                 case Invalid(msg, channel) => ToOne(msg, channel)]
  {
  }

  /** Over every schedule, the calls that are logged and the one in progress are those that the schedule made,
      in order, each with its own message, to as many channels as were active when it began. */
  lemma {:induction false} CallsCarriedOut<M>(s: Server<M>, schedule: seq<Action<M>>)
    requires ServerInv(s)
    ensures var end := Execute(s, schedule);
            Requests(end.log) + Unfinished(end.pc) == Requests(s.log) + Unfinished(s.pc) + Begun(s, schedule)
    decreases |schedule|
  {
    hide ServerInv, NextState, Requests, BegunBy, Unfinished;
    if schedule != [] {
      var n := |schedule| - 1;
      CallsCarriedOut(s, schedule[..n]);
      StepCarriesOn(Execute(s, schedule[..n]), schedule[n]);
    }
  }

  // ---- whole calls on the machine ---------------------------------------------------------------

  /** The producer runs `n` steps while everything else stands still. */
  ghost function RunProducer<M>(s: Server<M>, prepared: bool, n: nat): (end: Server<M>)
    requires ServerInv(s)
    ensures ServerInv(end) && |end.channels| == |s.channels|
  {
    if n == 0 then s
    else
      var before := RunProducer(s, prepared, n - 1);
      NextStateInv(before, ProducerAdvance(prepared));
      NextState(before, ProducerAdvance(prepared))
  }

  lemma {:induction false} RunProducerAdds<M>(s: Server<M>, prepared: bool, m: nat, n: nat)
    requires ServerInv(s)
    ensures RunProducer(RunProducer(s, prepared, m), prepared, n) == RunProducer(s, prepared, m + n)
  {
    hide NextState, ServerInv;
    if n > 0 {
      RunProducerAdds(s, prepared, m, n - 1);
    }
  }

  /** The schedule of a call and `n` steps of the producer. */
  function CallSchedule<M>(call: Action<M>, prepared: bool, n: nat): seq<Action<M>> {
    if n == 0 then [call] else CallSchedule(call, prepared, n - 1) + [ProducerAdvance(prepared)]
  }

  lemma {:induction false} CallScheduleRuns<M>(s: Server<M>, call: Action<M>, prepared: bool, n: nat)
    requires ServerInv(s) && ServerInv(NextState(s, call))
    ensures Execute(s, CallSchedule(call, prepared, n)) == RunProducer(NextState(s, call), prepared, n)
  {
    hide NextState, ServerInv;
    var schedule := CallSchedule(call, prepared, n);
    if n == 0 {
      assert schedule[..0] == [];
      assert Execute(s, []) == s;
    } else {
      CallScheduleRuns(s, call, prepared, n - 1);
      assert schedule[..|schedule| - 1] == CallSchedule(call, prepared, n - 1);
    }
  }

  /** One run of the machine: the call and nothing but the producer's steps takes `s` to `end`. */
  ghost predicate Reaches<M>(s: Server<M>, call: Action<M>, prepared: bool, end: Server<M>)
    requires ServerInv(s)
  {
    exists n: nat :: Execute(s, CallSchedule(call, prepared, n)) == end
  }

  /** A push that is in the middle of its next channel, which has come to be `c`. */
  function Inside<M>(s: Server<M>, c: Channel<M>): Server<M>
    requires s.pc.Pushing? && s.pc.next < |s.channels|
  {
    var Pushing(broadcast, msg, next, limit) := s.pc;
    s.(outgoing := next, channels := s.channels[next := c], pc := InChannel(broadcast, msg, next, limit))
  }

  /** A push that is done with its next channel. */
  function Past<M>(s: Server<M>, c: Channel<M>): Server<M>
    requires s.pc.Pushing? && s.pc.next < |s.channels|
  {
    var Pushing(broadcast, msg, next, limit) := s.pc;
    s.(outgoing := next, channels := s.channels[next := c], pc := Pushing(broadcast, msg, next + 1, limit))
  }

  lemma InsideSpills<M>(s: Server<M>, c: Channel<M>, prepared: bool)
    requires s.pc.Pushing? && s.pc.next < |s.channels| && ServerInv(Inside(s, c)) && c.pc == Overflowed(s.pc.msg)
    ensures NextState(Inside(s, c), ProducerAdvance(prepared)) == Past(s, SpillMessage(c, s.pc.msg, prepared).(pc := Quiet))
  {
    hide SpillMessage, ChannelInv, LogInv, ChannelOk;
    var t, next := Inside(s, c), s.pc.next;
    assert t.channels[next] == c;
    var spilled := SpillMessage(c, s.pc.msg, prepared);
    assert t.channels[next := spilled][next := spilled.(pc := Quiet)] == s.channels[next := spilled.(pc := Quiet)];
  }

  lemma InsideOffers<M>(s: Server<M>, c: Channel<M>, prepared: bool)
    requires s.pc.Pushing? && s.pc.next < |s.channels| && ServerInv(Inside(s, c)) && c.pc.Offering?
    ensures Shape(c.ring)
    ensures NextState(Inside(s, c), ProducerAdvance(prepared))
            == if OfferStep(c).pc.Quiet? then Past(s, OfferStep(c)) else Inside(s, OfferStep(c))
  {
    var t, next := Inside(s, c), s.pc.next;
    assert t.channels[next] == c && ChannelInv(t.channels[next]);
    assert Shape(c.ring);
    hide OfferStep, ChannelInv, LogInv, ChannelOk, Shape;
    assert t.channels[next := OfferStep(c)] == s.channels[next := OfferStep(c)];
  }

  lemma InsideStep<M>(s: Server<M>, c: Channel<M>, prepared: bool)
    requires s.pc.Pushing? && s.pc.next < |s.channels| && ServerInv(Inside(s, c))
    requires c.pc.Offering? || c.pc == Overflowed(s.pc.msg)
    ensures c.pc.Offering? ==> Shape(c.ring)
    ensures NextState(Inside(s, c), ProducerAdvance(prepared))
            == if c.pc.Overflowed? then Past(s, SpillMessage(c, s.pc.msg, prepared).(pc := Quiet))
               else if OfferStep(c).pc.Quiet? then Past(s, OfferStep(c))
               else Inside(s, OfferStep(c))
  {
    hide NextState, ServerInv, Inside, Past;
    if c.pc.Overflowed? {
      InsideSpills(s, c, prepared);
    } else {
      InsideOffers(s, c, prepared);
    }
  }

  /** An upper bound of the steps that are left of an offer. */
  function OfferLeft<M>(c: Channel<M>): nat {
    match c.pc
    case Offering(_) =>
      (match c.ring.producer
       case TailLoaded(_, _) => 4
       case HasRoom(_, _) => 3
       case SlotWritten(_, _) => 2
       case _ => 1)
    case _ => 0
  }

  lemma OfferGoesOn<M>(c: Channel<M>)
    requires ChannelInv(c) && c.pc.Offering?
    ensures Shape(c.ring) && ChannelInv(OfferStep(c)) && OfferLeft(OfferStep(c)) < OfferLeft(c)
    ensures OfferStep(c).pc.Quiet? || OfferStep(c).pc == c.pc || OfferStep(c).pc == Overflowed(c.pc.msg)
  {
    OfferStepInv(c);
  }

  /** The channel when an offer has ended. */
  ghost function OfferEnd<M>(c: Channel<M>, prepared: bool): Channel<M>
    requires ChannelInv(c) && (c.pc.Offering? || c.pc.Overflowed?)
    decreases OfferLeft(c)
  {
    if c.pc.Overflowed? then SpillMessage(c, c.pc.msg, prepared).(pc := Quiet)
    else
      OfferGoesOn(c);
      if OfferStep(c).pc.Quiet? then OfferStep(c) else OfferEnd(OfferStep(c), prepared)
  }

  /** A channel that is offered a message, through the producer's steps to the end of the offer. */
  lemma OfferRuns<M>(s: Server<M>, prepared: bool, m: nat, c: Channel<M>) returns (n: nat)
    requires ServerInv(s) && s.pc.Pushing? && s.pc.next < |s.channels|
    requires RunProducer(s, prepared, m) == Inside(s, c) && ChannelInv(c)
    requires c.pc == Offering(s.pc.msg) || c.pc == Overflowed(s.pc.msg)
    ensures RunProducer(s, prepared, n) == Past(s, OfferEnd(c, prepared))
    decreases OfferLeft(c)
  {
    hide ServerInv, ChannelInv, NextState, Inside, Past, SpillMessage;
    InsideStep(s, c, prepared);
    n := m + 1;
    if c.pc.Offering? {
      OfferGoesOn(c);
      if !OfferStep(c).pc.Quiet? {
        n := OfferRuns(s, prepared, n, OfferStep(c));
      }
    }
  }

  /** Step by step, an offer does what a push without interruption does. */
  lemma OfferIsPush<M>(c: Channel<M>, msg: M, prepared: bool)
    requires ChannelInv(c) && c.pc.Quiet?
    ensures ChannelInv(Offer(c, msg)) && OfferEnd(Offer(c, msg), prepared) == PushCall(c, msg, prepared)
  {
    var a := Offer(c, msg);
    OfferInv(c, msg);
    if c.spill == [] {
      OfferGoesOn(a);
      var b := OfferStep(a);
      OfferGoesOn(b);
      if b.ring.producer.HasRoom? {
        var d := OfferStep(b);
        OfferGoesOn(d);
        OfferGoesOn(OfferStep(d));
        OfferEnds(OfferStep(d), prepared);
        OfferEnds(d, prepared);
      }
      OfferEnds(b, prepared);
      OfferEnds(a, prepared);
    }
  }

  lemma OfferEnds<M>(c: Channel<M>, prepared: bool)
    requires ChannelInv(c) && c.pc.Offering? && ChannelInv(OfferStep(c))
    requires OfferStep(c).pc.Quiet? || OfferStep(c).pc.Offering? || OfferStep(c).pc.Overflowed?
    ensures OfferEnd(c, prepared)
            == if OfferStep(c).pc.Quiet? then OfferStep(c)
               else if OfferStep(c).pc.Overflowed? then SpillMessage(OfferStep(c), OfferStep(c).pc.msg, prepared).(pc := Quiet)
               else OfferEnd(OfferStep(c), prepared)
  {
  }

  /** One round of a push, on a channel that is active. */
  lemma ChannelPushed<M>(s: Server<M>, prepared: bool) returns (n: nat)
    requires ServerInv(s) && s.pc.Pushing? && s.pc.next < s.pc.limit && s.pc.next < s.active
    ensures Shape(s.channels[s.pc.next].ring) && MayStart(s.channels[s.pc.next].ring.producer)
    ensures RunProducer(s, prepared, n) == Past(s, PushCall(s.channels[s.pc.next], s.pc.msg, prepared))
  {
    var c := s.channels[s.pc.next];
    assert ChannelOk(s, s.pc.next);
    OfferIsPush(c, s.pc.msg, prepared);
    assert RunProducer(s, prepared, 0) == s;
    assert RunProducer(s, prepared, 1) == EnterChannel(s) == Inside(s, Offer(c, s.pc.msg));
    n := OfferRuns(s, prepared, 1, Offer(c, s.pc.msg));
  }

  // ---- drain runs -------------------------------------------------------------------------------

  function DrainLeft<M>(c: Channel<M>): nat {
    match c.pc
    case DrainEnqueue =>
      (match c.ring.producer
       case TailLoaded(_, _) => 4
       case HasRoom(_, _) => 3
       case SlotWritten(_, _) => 2
       case _ => 1)
    case Draining => 5
    case _ => 0
  }

  lemma DrainGoesOn<M>(c: Channel<M>, prepared: bool)
    requires ChannelInv(c) && (c.pc.Draining? || c.pc.DrainEnqueue?)
    ensures var d := DrainStep(c, prepared);
            && ChannelInv(d) && (d.pc.Quiet? || d.pc.Draining? || d.pc.DrainEnqueue?)
            && (!d.pc.Quiet? ==> |d.spill| < |c.spill| || (|d.spill| == |c.spill| && DrainLeft(d) < DrainLeft(c)))
  {
    DrainStepInv(c, prepared);
  }

  /** The channel when a drain run has ended. */
  ghost function DrainEnd<M>(c: Channel<M>, prepared: bool): Channel<M>
    requires ChannelInv(c) && (c.pc.Draining? || c.pc.DrainEnqueue?)
    decreases |c.spill|, DrainLeft(c)
  {
    DrainGoesOn(c, prepared);
    if DrainStep(c, prepared).pc.Quiet? then DrainStep(c, prepared) else DrainEnd(DrainStep(c, prepared), prepared)
  }

  /** A drain run of channel `i`, which has come to be `c`; or its end. */
  function InTask<M>(s: Server<M>, i: nat, c: Channel<M>): Server<M>
    requires i < |s.channels|
  {
    s.(channels := s.channels[i := c], pc := if c.pc.Quiet? then AtRest else DrainRun(i))
  }

  lemma {:induction false} DrainRuns<M>(s: Server<M>, i: nat, prepared: bool, m: nat, first: Server<M>, c: Channel<M>) returns (n: nat)
    requires i < |s.channels| && ServerInv(first)
    requires RunProducer(first, prepared, m) == InTask(s, i, c)
    requires ChannelInv(c) && (c.pc.Draining? || c.pc.DrainEnqueue?)
    ensures RunProducer(first, prepared, n) == InTask(s, i, DrainEnd(c, prepared))
    decreases |c.spill|, DrainLeft(c)
  {
    TaskStep(s, i, c, prepared);
    hide ServerInv, ChannelInv, NextState, DrainStep, InTask;
    DrainGoesOn(c, prepared);
    n := m + 1;
    if !DrainStep(c, prepared).pc.Quiet? {
      n := DrainRuns(s, i, prepared, n, first, DrainStep(c, prepared));
    }
  }

  lemma TaskStep<M>(s: Server<M>, i: nat, c: Channel<M>, prepared: bool)
    requires i < |s.channels| && ServerInv(InTask(s, i, c)) && !c.pc.Quiet? && Shape(c.ring)
    ensures NextState(InTask(s, i, c), ProducerAdvance(prepared)) == InTask(s, i, DrainStep(c, prepared))
  {
    assert s.channels[i := c][i := DrainStep(c, prepared)] == s.channels[i := DrainStep(c, prepared)];
  }

  lemma DrainEnds<M>(c: Channel<M>, prepared: bool)
    requires ChannelInv(c) && (c.pc.Draining? || c.pc.DrainEnqueue?)
    ensures Shape(c.ring) && ChannelInv(DrainStep(c, prepared))
    ensures DrainStep(c, prepared).pc.Quiet? || DrainStep(c, prepared).pc.Draining? || DrainStep(c, prepared).pc.DrainEnqueue?
    ensures DrainEnd(c, prepared)
            == if DrainStep(c, prepared).pc.Quiet? then DrainStep(c, prepared) else DrainEnd(DrainStep(c, prepared), prepared)
  {
    DrainGoesOn(c, prepared);
  }

  /** One message of a drain run, step by step and at once. */
  lemma FrontDrained<M>(c: Channel<M>, prepared: bool)
    requires ChannelInv(c) && c.pc.Draining? && c.spill != []
    ensures MayStart(c.ring.producer)
    ensures var r := EnqueueCall(c.ring, c.spill[0]);
            if r.producer.ok then
              var d := c.(ring := r, spill := c.spill[1..]);
              ChannelInv(d) && DrainEnd(c, prepared) == DrainEnd(d, prepared)
            else if prepared then DrainEnd(c, prepared) == c.(ring := r, pc := Quiet, drains := Less(c.drains), stranded := true)
            else DrainEnd(c, prepared) == c.(ring := r, pc := Quiet)
  {
    hide ChannelInv, DrainEnd;
    assert MayStart(c.ring.producer) by {
      DrainingMayStart(c);
    }
    DrainEnds(c, prepared);
    var loaded := DrainStep(c, prepared);
    DrainEnds(loaded, prepared);
    var room := DrainStep(loaded, prepared);
    DrainEnds(room, prepared);
    if room.ring.producer.HasRoom? {
      var written := DrainStep(room, prepared);
      DrainEnds(written, prepared);
      DrainEnds(DrainStep(written, prepared), prepared);
    }
  }

  lemma DrainingMayStart<M>(c: Channel<M>)
    requires ChannelInv(c) && c.pc.Draining?
    ensures Inv(c.ring) && MayStart(c.ring.producer)
  {
  }

  lemma {:induction false} DrainIsCall<M>(c: Channel<M>, prepared: bool)
    requires ChannelInv(c) && c.pc.Draining?
    ensures Inv(c.ring) && MayStart(c.ring.producer)
    ensures DrainEnd(c, prepared) == DrainCall(c.(pc := Quiet), prepared)
    decreases |c.spill|
  {
    hide ChannelInv, EnqueueCall, DrainCall, Inv;
    DrainingMayStart(c);
    DrainCallUnfolds(c.(pc := Quiet), prepared);
    if c.spill == [] {
      DrainEnds(c, prepared);
    } else {
      hide DrainEnd;
      FrontDrained(c, prepared);
      var r := EnqueueCall(c.ring, c.spill[0]);
      if r.producer.ok {
        DrainIsCall(c.(ring := r, spill := c.spill[1..]), prepared);
      }
    }
  }

  /** A task runs through on the machine. */
  lemma TaskRuns<M>(s: Server<M>, i: nat, prepared: bool)
    requires ServerInv(s) && s.pc.AtRest? && i < |s.channels| && s.channels[i].drains > 0
    ensures Inv(s.channels[i].ring) && MayStart(s.channels[i].ring.producer)
    ensures Reaches(s, StartTask(i), prepared, s.(channels := s.channels[i := DrainCall(s.channels[i], prepared)]))
  {
    var c := s.channels[i];
    var first := NextState(s, StartTask(i));
    assert ChannelOk(s, i);
    NextStateInv(s, StartTask(i));
    AdvancedInv(c, RunDrain);
    var draining := c.(pc := Draining);
    DrainIsCall(draining, prepared);
    assert first == InTask(s, i, draining);
    assert RunProducer(first, prepared, 0) == first;
    var n := DrainRuns(s, i, prepared, 0, first, draining);
    CallScheduleRuns(s, StartTask(i), prepared, n);
    hide DrainCall, DrainEnd;
    DrainCallQuiet(c, prepared);
  }

  lemma {:induction false} DrainCallQuiet<M>(c: Channel<M>, prepared: bool)
    requires Inv(c.ring) && MayStart(c.ring.producer)
    ensures DrainCall(c, prepared).pc == c.pc
    decreases |c.spill|
  {
    if c.spill != [] {
      EnqueueCallEffect(c.ring, c.spill[0]);
      var r := EnqueueCall(c.ring, c.spill[0]);
      if r.producer.ok {
        DrainCallQuiet(c.(ring := r, spill := c.spill[1..]), prepared);
      }
    }
  }

  // ---- pushes -----------------------------------------------------------------------------------

  /** What `pushMessageToChannel` does. */
  function PushedTo<M>(s: Server<M>, i: nat, msg: M, prepared: bool): Server<M>
    requires i < s.active ==> i < |s.channels| && Shape(s.channels[i].ring) && MayStart(s.channels[i].ring.producer)
  {
    if i < s.active then s.(outgoing := i, channels := s.channels[i := PushCall(s.channels[i], msg, prepared)]) else s
  }

  lemma ChannelReady<M>(s: Server<M>, i: nat)
    requires ServerInv(s) && (s.pc.AtRest? || s.pc.Pushing?) && i < |s.channels|
    ensures ChannelInv(s.channels[i]) && s.channels[i].pc.Quiet?
    ensures Shape(s.channels[i].ring) && MayStart(s.channels[i].ring.producer)
  {
    assert ChannelOk(s, i);
  }

  /** The call in progress is over. */
  lemma CallEnds<M>(s: Server<M>, prepared: bool)
    requires ServerInv(s) && s.pc.Pushing? && (s.pc.next == s.pc.limit || s.pc.next >= s.active)
    ensures NextState(s, ProducerAdvance(prepared))
            == s.(pc := AtRest, log := s.log + [if s.pc.next != s.pc.limit then Invalid(s.pc.msg, s.pc.next)
                                                else if s.pc.broadcast then Broadcast(s.pc.msg, s.pc.limit)
                                                else Direct(s.pc.msg, Less(s.pc.limit))])
  {
  }

  lemma PushBegins<M>(s: Server<M>, i: nat, msg: M)
    requires ServerInv(s) && s.pc.AtRest?
    ensures NextState(s, PushTo(i, msg)) == s.(pc := Pushing(false, msg, i, i + 1)) && ServerInv(NextState(s, PushTo(i, msg)))
  {
    NextStateInv(s, PushTo(i, msg));
  }

  /** After the rounds of a push, its last step. */
  lemma PushEnds<M>(s: Server<M>, call: Action<M>, prepared: bool, n: nat, last: Server<M>, end: Server<M>)
    requires ServerInv(s) && ServerInv(NextState(s, call))
    requires RunProducer(NextState(s, call), prepared, n) == last && NextState(last, ProducerAdvance(prepared)) == end
    ensures Reaches(s, call, prepared, end)
  {
    hide NextState, ServerInv, Execute;
    CallScheduleRuns(s, call, prepared, n + 1);
  }

  lemma RunNothing<M>(s: Server<M>, prepared: bool)
    requires ServerInv(s)
    ensures RunProducer(s, prepared, 0) == s
  {
  }

  /** A push to one channel runs through on the machine. */
  lemma DirectPushRuns<M>(s: Server<M>, i: nat, msg: M, prepared: bool)
    requires ServerInv(s) && s.pc.AtRest?
    ensures i < s.active ==> i < |s.channels| && Shape(s.channels[i].ring) && MayStart(s.channels[i].ring.producer)
    ensures Reaches(s, PushTo(i, msg), prepared,
                    PushedTo(s, i, msg, prepared).(log := s.log + [if i < s.active then Direct(msg, i) else Invalid(msg, i)]))
  {
    var first := s.(pc := Pushing(false, msg, i, i + 1));
    PushBegins(s, i, msg);
    RunNothing(first, prepared);
    if i < s.active {
      ActiveIsThere(s, i);
      hide NextState, ServerInv, PushCall, Reaches, RunProducer;
      var n := ChannelPushed(first, prepared);
      var last := RunProducer(first, prepared, n);
      CallEnds(last, prepared);
      PushEnds(s, PushTo(i, msg), prepared, n, last, NextState(last, ProducerAdvance(prepared)));
    } else {
      hide NextState, ServerInv, Reaches, RunProducer;
      CallEnds(first, prepared);
      PushEnds(s, PushTo(i, msg), prepared, 0, first, NextState(first, ProducerAdvance(prepared)));
    }
  }

  lemma ActiveIsThere<M>(s: Server<M>, i: nat)
    requires ServerInv(s) && (s.pc.AtRest? || s.pc.Pushing?) && i < s.active
    ensures i < |s.channels| && Shape(s.channels[i].ring) && MayStart(s.channels[i].ring.producer)
  {
    ChannelReady(s, i);
  }

  lemma BroadcastBegins<M>(s: Server<M>, msg: M)
    requires ServerInv(s) && s.pc.AtRest?
    ensures NextState(s, PushAll(msg)) == s.(pc := Pushing(true, msg, 0, s.active)) && ServerInv(NextState(s, PushAll(msg)))
  {
    NextStateInv(s, PushAll(msg));
  }

  // ---- the producer endpoint as an object -------------------------------------------------------

  /** The channels of the machine, put together from the endpoint's fields. */
  ghost function Composed<M>(rings: seq<Ring<M>>, spills: seq<seq<M>>, posted: seq<nat>, stranded: set<nat>,
                             pushed: seq<seq<M>>): (channels: seq<Channel<M>>)
    requires |rings| == |spills| == |pushed|
  {
    seq(|rings|, i requires 0 <= i < |rings| =>
      Channel(rings[i], spills[i], if i in posted then 1 else 0, i in stranded, Quiet, pushed[i]))
  }

  /** The producer endpoint, from call to call: its rings, the spill deque of each, and the channels whose
      drain task sits in the event queue, oldest post first; with the histories of the machine.  Other
      processes do not move during a call.  `prepared` says whether a payload is engaged in the event
      queue, which makes it refuse posts. */
  class ServerShmPODProducerEndpoint<M> {
    var channels: seq<Ring<M>>
    var activeChannels: nat
    var activeOutgoingChannel: nat
    var backPressureChannels: seq<seq<M>>
    var postedDrains: seq<nat>
    ghost var stranded: set<nat>
    ghost var pushed: seq<seq<M>>
    ghost var log: seq<Call<M>>

    ghost predicate Shaped()
      reads this
    {
      && |channels| == |backPressureChannels| == |pushed|
      && (forall i :: 0 <= i < |postedDrains| ==> postedDrains[i] < |channels|)
      && (forall i, j :: 0 <= i < j < |postedDrains| ==> postedDrains[i] != postedDrains[j])
    }

    /** The channel of the machine that the fields stand for. */
    ghost function ChannelAt(i: nat): Channel<M>
      requires Shaped() && i < |channels|
      reads this
    {
      Channel(channels[i], backPressureChannels[i], if i in postedDrains then 1 else 0, i in stranded, Quiet, pushed[i])
    }

    ghost function Current(): (s: Server<M>)
      requires Shaped()
      reads this
      ensures |s.channels| == |channels| && forall i :: 0 <= i < |channels| ==> s.channels[i] == ChannelAt(i)
    {
      Server(Composed(channels, backPressureChannels, postedDrains, stranded, pushed), activeChannels,
             activeOutgoingChannel, AtRest, log)
    }

    ghost predicate Valid()
      reads this
    {
      Shaped() && ServerInv(Current())
    }

    constructor (rings: seq<Ring<M>>)
      requires forall i :: 0 <= i < |rings| ==> rings[i].size > 0 && |rings[i].storage| == rings[i].size
                                                && rings[i] == Fresh(rings[i].size - 1, rings[i].storage)
      ensures Valid() && channels == rings && Initial(Current())
    {
      channels := rings;
      activeChannels, activeOutgoingChannel := 0, 0;
      backPressureChannels := seq(|rings|, _ => []);
      postedDrains := [];
      stranded, pushed, log := {}, seq(|rings|, _ => []), [];
      new;
      InitialInv(Current());
    }

    /** Takes its channel from `activeOutgoingChannel`, as the default handler does. */
    method ApplyDefaultBackPressureHandler(msg: M, prepared: bool)
      requires Shaped() && activeOutgoingChannel < |channels|
      requires backPressureChannels[activeOutgoingChannel] == [] ==> activeOutgoingChannel !in postedDrains
      modifies this`backPressureChannels, this`postedDrains, this`stranded
      ensures Shaped()
      ensures var s, i := old(Current()), activeOutgoingChannel;
              Current() == s.(channels := s.channels[i := SpillMessage(s.channels[i], msg, prepared)])
    {
      ghost var s := Current();
      var i := activeOutgoingChannel;
      if backPressureChannels[i] == [] {
        if prepared {
          stranded := stranded + {i};
        } else {
          postedDrains := postedDrains + [i];
        }
      }
      backPressureChannels := backPressureChannels[i := backPressureChannels[i] + [msg]];
      assert forall j :: 0 <= j < |channels| && j != i ==> ChannelAt(j) == s.channels[j];
      assert ChannelAt(i) == SpillMessage(s.channels[i], msg, prepared);
    }

    method EnqueueOn(i: nat, msg: M) returns (ok: bool)
      requires Shaped() && i < |channels| && Shape(channels[i]) && MayStart(channels[i].producer)
      modifies this`channels
      ensures channels == old(channels)[i := EnqueueCall(old(channels)[i], msg)]
      ensures ok == EnqueueCall(old(channels)[i], msg).producer.ok
    {
      channels := channels[i := EnqueueCall(channels[i], msg)];
      ok := channels[i].producer.ok;
    }

    /** The message goes into the ring if nothing is spilled and there is room. */
    method OfferTo(i: nat, msg: M) returns (accepted: bool)
      requires Shaped() && i < |channels| && Callable(ChannelAt(i))
      modifies this`channels, this`activeOutgoingChannel, this`pushed
      ensures Shaped() && |channels| == old(|channels|) && activeOutgoingChannel == i
      ensures var s := old(Current());
              var offered := Offered(s.channels[i], msg);
              accepted == offered.1 && Current() == s.(outgoing := i, channels := s.channels[i := offered.0])
    {
      hide EnqueueCall, Shape, MayStart;
      ghost var s := Current();
      activeOutgoingChannel := i;
      pushed := pushed[i := pushed[i] + [msg]];
      accepted := false;
      if backPressureChannels[i] == [] {
        accepted := EnqueueOn(i, msg);
      }
      assert forall j :: 0 <= j < |channels| && j != i ==> ChannelAt(j) == s.channels[j];
      assert ChannelAt(i) == Offered(s.channels[i], msg).0;
    }

    /** The message goes into the ring, or to the back-pressure handler. */
    method PushMessageToChannel(i: nat, msg: M, prepared: bool) returns (ok: bool)
      requires Shaped() && activeChannels <= |channels|
      requires i < activeChannels ==> Callable(ChannelAt(i))
      modifies this
      ensures Shaped() && ok == (i < activeChannels)
      ensures Current() == PushedTo(old(Current()), i, msg, prepared)
    {
      if i >= activeChannels {
        return false;
      }
      hide Offered, SpillMessage, Shape, MayStart;
      ghost var s := Current();
      var accepted := OfferTo(i, msg);
      ghost var offered := Current().channels[i];
      if !accepted {
        ApplyDefaultBackPressureHandler(msg, prepared);
        assert s.channels[i := offered][i := SpillMessage(offered, msg, prepared)] == s.channels[i := SpillMessage(offered, msg, prepared)];
      }
      ok := true;
    }

    /** A push to one channel; the machine gets there with the same call. */
    method PushMessageTo(i: nat, msg: M, prepared: bool) returns (ok: bool)
      requires Valid()
      modifies this
      ensures Valid() && ok == (i < activeChannels) && activeChannels == old(activeChannels)
      ensures Reaches(old(Current()), PushTo(i, msg), prepared, Current())
      ensures Current() == PushedTo(old(Current()), i, msg, prepared)
                           .(log := old(log) + [if ok then Direct(msg, i) else Invalid(msg, i)])
    {
      hide ServerInv, PushCall;
      ghost var s := Current();
      DirectPushRuns(s, i, msg, prepared);
      MayCall();
      ok := PushMessageToChannel(i, msg, prepared);
      log := log + [if i < activeChannels then Direct(msg, i) else Invalid(msg, i)];
      assert Current().channels == PushedTo(s, i, msg, prepared).channels;
      ReachesInv(s, PushTo(i, msg), prepared, Current());
    }

    /** One round of a broadcast, `steps` steps after its first. */
    method PushRound(i: nat, msg: M, prepared: bool, ghost first: Server<M>, ghost steps: nat) returns (ghost after: nat)
      requires Shaped() && i < activeChannels <= |channels| && Callable(ChannelAt(i)) && ServerInv(first)
      requires RunProducer(first, prepared, steps) == Current().(pc := Pushing(true, msg, i, activeChannels))
      modifies this
      ensures Shaped() && Current() == PushedTo(old(Current()), i, msg, prepared)
      ensures RunProducer(first, prepared, after) == Current().(pc := Pushing(true, msg, i + 1, activeChannels))
    {
      hide ServerInv, PushCall, NextState, RunProducer, Shape, MayStart;
      ghost var mid := Current().(pc := Pushing(true, msg, i, activeChannels));
      ghost var n := ChannelPushed(mid, prepared);
      RunProducerAdds(first, prepared, steps, n);
      var _ := PushMessageToChannel(i, msg, prepared);
      after := steps + n;
    }

    /** A broadcast pushes its message to every active channel and to no other; the machine gets there with
        the same call. */
    method PushMessage(msg: M, prepared: bool)
      requires Valid()
      modifies this
      ensures Valid() && activeChannels == old(activeChannels) && |channels| == old(|channels|)
      ensures Reaches(old(Current()), PushAll(msg), prepared, Current())
      ensures log == old(log) + [Broadcast(msg, activeChannels)]
      ensures forall i :: 0 <= i < |channels| ==> Callable(old(ChannelAt(i)))
      ensures forall i :: 0 <= i < |channels| ==>
                ChannelAt(i) == if i < activeChannels then PushCall(old(ChannelAt(i)), msg, prepared) else old(ChannelAt(i))
    {
      hide ServerInv, PushCall, NextState, RunProducer, Reaches, Shape, MayStart, ChannelInv;
      ghost var s := Current();
      ghost var first := s.(pc := Pushing(true, msg, 0, s.active));
      ghost var steps := 0;
      BroadcastBegins(s, msg);
      RunNothing(first, prepared);
      MayCall();
      assert forall i :: 0 <= i < |channels| ==> Callable(s.channels[i]);
      var limit := activeChannels;
      var channelIndex := 0;
      while channelIndex < limit
        invariant Shaped() && activeChannels == limit == s.active <= |channels| == |s.channels| && channelIndex <= limit
        invariant log == s.log
        invariant RunProducer(first, prepared, steps) == Current().(pc := Pushing(true, msg, channelIndex, limit))
        invariant forall i :: 0 <= i < |channels| ==>
                    ChannelAt(i) == if i < channelIndex then PushCall(s.channels[i], msg, prepared) else s.channels[i]
      {
        steps := PushRound(channelIndex, msg, prepared, first, steps);
        channelIndex := channelIndex + 1;
      }
      ghost var last := Current().(pc := Pushing(true, msg, limit, limit));
      CallEnds(last, prepared);
      log := log + [Broadcast(msg, limit)];
      assert NextState(last, ProducerAdvance(prepared)) == Current();
      PushEnds(s, PushAll(msg), prepared, steps, last, Current());
      ReachesInv(s, PushAll(msg), prepared, Current());
    }

    /** The drain task that was posted first: moves messages from the spill deque into the ring until one of
        the two is exhausted, and in the second case posts itself again; the machine gets there with the
        same task. */
    method RunOldestDrain(prepared: bool) returns (finished: bool)
      requires Valid() && postedDrains != []
      modifies this
      ensures Valid() && activeChannels == old(activeChannels)
      ensures var s, i := old(Current()), old(postedDrains[0]);
              && Inv(s.channels[i].ring) && MayStart(s.channels[i].ring.producer)
              && Current() == s.(channels := s.channels[i := DrainCall(s.channels[i], prepared)])
              && Reaches(s, StartTask(i), prepared, Current())
              && finished == (backPressureChannels[i] == [])
              && postedDrains == if finished || prepared then old(postedDrains)[1..] else old(postedDrains)[1..] + [i]
    {
      hide ServerInv, DrainCall, Reaches, EnqueueCall, Inv, MayStart;
      var i := postedDrains[0];
      ghost var s := Current();
      TaskReady(s, i);
      TaskRuns(s, i, prepared);
      var moved := true;
      while backPressureChannels[i] != [] && moved
        invariant Shaped() && unchanged(`activeChannels, `activeOutgoingChannel, `postedDrains, `stranded, `pushed, `log)
        invariant Current() == s.(channels := s.channels[i := ChannelAt(i)]) && |channels| == |s.channels|
        invariant Inv(channels[i]) && MayStart(channels[i].producer)
        invariant DrainCall(s.channels[i], prepared)
                  == if moved then DrainCall(ChannelAt(i), prepared)
                     else if prepared then ChannelAt(i).(drains := 0, stranded := true) else ChannelAt(i)
        invariant !moved ==> backPressureChannels[i] != []
        decreases |backPressureChannels[i]|, moved
      {
        moved := MoveFront(i, prepared);
      }
      finished := backPressureChannels[i] == [];
      ghost var c := ChannelAt(i);
      DrainCallUnfolds(c, prepared);
      EndTask(i, finished, prepared);
      ghost var d := DrainCall(s.channels[i], prepared);
      assert s.channels[i := c][i := d] == s.channels[i := d];
      assert Current() == s.(channels := s.channels[i := d]);
      ReachesInv(s, StartTask(i), prepared, Current());
    }

    method MoveFront(i: nat, prepared: bool) returns (moved: bool)
      requires Shaped() && i < |channels| && backPressureChannels[i] != []
      requires Inv(channels[i]) && MayStart(channels[i].producer) && ChannelAt(i).drains == 1
      modifies this`channels, this`backPressureChannels
      ensures Shaped() && |channels| == old(|channels|) && Inv(channels[i]) && MayStart(channels[i].producer)
      ensures Current() == old(Current()).(channels := old(Current()).channels[i := ChannelAt(i)])
      ensures var c := old(ChannelAt(i));
              DrainCall(c, prepared)
              == if moved then DrainCall(ChannelAt(i), prepared)
                 else if prepared then ChannelAt(i).(drains := 0, stranded := true) else ChannelAt(i)
      ensures if moved then |backPressureChannels[i]| < old(|backPressureChannels[i]|)
              else backPressureChannels[i] == old(backPressureChannels[i])
    {
      FrontStep(ChannelAt(i), prepared);
      hide EnqueueCall, DrainCall, Inv, Shape, MayStart;
      ghost var s := Current();
      moved := EnqueueOn(i, backPressureChannels[i][0]);
      if moved {
        backPressureChannels := backPressureChannels[i := backPressureChannels[i][1..]];
      }
      assert forall j :: 0 <= j < |channels| && j != i ==> ChannelAt(j) == s.channels[j];
    }

    /** The task leaves the event queue, or stays in it behind the others. */
    method EndTask(i: nat, finished: bool, prepared: bool)
      requires Shaped() && postedDrains != [] && i == postedDrains[0]
      modifies this`postedDrains, this`stranded
      ensures Shaped()
      ensures var s, c := old(Current()), old(ChannelAt(i));
              Current() == s.(channels := s.channels[i := if finished then c.(drains := 0)
                                                          else if prepared then c.(drains := 0, stranded := true) else c])
      ensures postedDrains == if finished || prepared then old(postedDrains)[1..] else old(postedDrains)[1..] + [i]
    {
      ghost var s := Current();
      assert postedDrains == [i] + postedDrains[1..];
      if finished {
        postedDrains := postedDrains[1..];
      } else if prepared {
        postedDrains := postedDrains[1..];
        stranded := stranded + {i};
      } else {
        postedDrains := postedDrains[1..] + [i];
      }
      assert forall j :: 0 <= j < |channels| && j != i ==> ChannelAt(j) == s.channels[j];
    }

    lemma MayCall()
      requires Valid()
      ensures activeChannels <= |channels| && forall i :: 0 <= i < |channels| ==> Callable(ChannelAt(i))
    {
      forall i | 0 <= i < |channels|
        ensures Callable(ChannelAt(i))
      {
        ChannelReady(Current(), i);
      }
    }
  }

  /** The front of the spill deque is offered to the ring. */
  lemma FrontStep<M>(c: Channel<M>, prepared: bool)
    requires c.spill != [] && c.drains == 1 && Inv(c.ring) && MayStart(c.ring.producer)
    ensures Shape(c.ring)
    ensures var r := EnqueueCall(c.ring, c.spill[0]);
            && Inv(r) && MayStart(r.producer)
            && DrainCall(c, prepared)
               == if r.producer.ok then DrainCall(c.(ring := r, spill := c.spill[1..]), prepared)
                  else if prepared then c.(ring := r, drains := 0, stranded := true)
                  else c.(ring := r)
  {
    hide DrainCall, EnqueueCall;
    EnqueueCallEffect(c.ring, c.spill[0]);
    DrainCallUnfolds(c, prepared);
  }

  lemma TaskReady<M>(s: Server<M>, i: nat)
    requires ServerInv(s) && s.pc.AtRest? && i < |s.channels| && s.channels[i].drains > 0
    ensures Inv(s.channels[i].ring) && MayStart(s.channels[i].ring.producer) && !s.channels[i].stranded
    ensures s.channels[i].drains == 1
  {
    ChannelReady(s, i);
  }

  lemma ReachesInv<M>(s: Server<M>, call: Action<M>, prepared: bool, end: Server<M>)
    requires ServerInv(s) && Reaches(s, call, prepared, end)
    ensures ServerInv(end)
  {
  }
}
