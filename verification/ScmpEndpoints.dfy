/** Many client producers, one polling server.  Every client owns one channel with its own spill
    deque and its own event queue; the server walks over the channels and hands each entry to its
    handler, which may ask for the index of the channel being served.
 */
module ScmpEndpoints {
  import opened SpscRing
  import opened SpillChannel

  /** Where the server is inside `pollAndDispatch`. */
  datatype Poller =
    | Away
    | Visit(channel: nat, limit: nat)
    | Polling(channel: nat, limit: nat)
    | Serving(channel: nat, limit: nat, ok: bool)

  datatype Dispatch<M> = Dispatch(incoming: nat, msg: M)

  /** `dispatched` records each handler call with the incoming channel index visible to it. */
  datatype System<M> = System(
    clients: seq<Channel<M>>,
    active: nat,
    incoming: nat,
    poller: Poller,
    dispatched: seq<Dispatch<M>>)

  datatype Action<M> =
    | Attach
    | Client(channel: nat, step: Step<M>)
    | StartPolling
    | Poll(ok: bool)

  // ---- the machine ------------------------------------------------------------------------------

  function OnRing<M>(s: System<M>, channel: nat, a: SpscRing.Action<M>): seq<Channel<M>>
    requires channel < |s.clients| && Shape(s.clients[channel].ring)
  {
    s.clients[channel := s.clients[channel].(ring := Next(s.clients[channel].ring, a))]
  }

  function PollStep<M>(s: System<M>, ok: bool): System<M>
    requires !s.poller.Away? ==> s.poller.channel < |s.clients| || s.poller.channel == s.poller.limit
    requires forall i :: 0 <= i < |s.clients| ==> Shape(s.clients[i].ring)
  {
    match s.poller
    case Away => s
    case Visit(channel, limit) =>
      if channel >= limit || channel >= |s.clients| then s.(poller := Away)
      else s.(incoming := channel, clients := OnRing(s, channel, StartPoll), poller := Polling(channel, limit))
    case Polling(channel, limit) =>
      if channel >= |s.clients| then s
      else
        var after := OnRing(s, channel, ConsumerStep(ok));
        s.(clients := after,
           poller := if after[channel].ring.consumer.Available? then Serving(channel, limit, true)
                     else Visit(channel + 1, limit))
    case Serving(channel, limit, verdict) =>
      if channel >= |s.clients| then s
      else
        var consumer := s.clients[channel].ring.consumer;
        var after := OnRing(s, channel, ConsumerStep(ok));
        if consumer.Reading? && consumer.at < |s.clients[channel].ring.storage| then
          s.(clients := after, poller := Serving(channel, limit, ok),
             dispatched := s.dispatched + [Dispatch(s.incoming, s.clients[channel].ring.storage[consumer.at])])
        else if consumer.Handled? then
          (if verdict then
             s.(clients := after[channel := after[channel].(ring := Next(after[channel].ring, StartPoll))],
                poller := Polling(channel, limit))
           else s.(clients := after, poller := Away))
        else s.(clients := after)
  }

  ghost function NextState<M>(s: System<M>, a: Action<M>): System<M>
    requires SystemInv(s)
  {
    match a
    case Attach => if s.active < |s.clients| then s.(active := s.active + 1) else s
    case Client(channel, step) =>
      if channel < s.active && !step.Consume?
      then s.(clients := s.clients[channel := Advanced(s.clients[channel], step)])
      else s
    case StartPolling => if s.poller.Away? then s.(poller := Visit(0, s.active)) else s
    case Poll(ok) => PollStep(s, ok)
  }

  // ---- the invariant ----------------------------------------------------------------------------

  /** The dispatches made under one channel index. */
  function From<M>(dispatched: seq<Dispatch<M>>, channel: nat): seq<M> {
    if dispatched == [] then []
    else
      var last := dispatched[|dispatched| - 1];
      From(dispatched[..|dispatched| - 1], channel) + if last.incoming == channel then [last.msg] else []
  }

  ghost predicate ConsumerOf<M>(s: System<M>, i: nat)
    requires i < |s.clients|
  {
    var consumer := s.clients[i].ring.consumer;
    match s.poller
    case Polling(channel, _) => if i == channel then consumer.PollHeadLoaded? else consumer.Idle?
    case Serving(channel, _, _) =>
      if i == channel then consumer.Available? || consumer.Reading? || consumer.Handled? else consumer.Idle?
    case _ => consumer.Idle?
  }

  ghost predicate ClientOk<M>(s: System<M>, i: nat)
    requires i < |s.clients|
  {
    ConsumerOf(s, i) && From(s.dispatched, i) == s.clients[i].ring.handled
  }

  ghost predicate PollerInv<M>(s: System<M>) {
    match s.poller
    case Away => true
    case Visit(channel, limit) => channel <= limit <= s.active
    case Polling(channel, limit) => channel < limit <= s.active && s.incoming == channel
    case Serving(channel, limit, _) => channel < limit <= s.active && s.incoming == channel
  }

  ghost predicate SystemInv<M>(s: System<M>) {
    && s.active <= |s.clients|
    && PollerInv(s)
    && (forall i :: 0 <= i < |s.clients| ==> ChannelInv(s.clients[i]))
    && (forall i :: 0 <= i < |s.clients| ==> ClientOk(s, i))
  }

  /** A step that touches one client only. */
  lemma OneClientMoved<M>(s: System<M>, t: System<M>, k: nat)
    requires SystemInv(s) && k < |s.clients| == |t.clients|
    requires t.active == s.active && PollerInv(t)
    requires t.clients == s.clients[k := t.clients[k]] && ChannelInv(t.clients[k]) && ClientOk(t, k)
    requires forall i :: 0 <= i < |s.clients| && i != k ==> ConsumerOf(s, i) ==> ConsumerOf(t, i)
    requires forall i :: 0 <= i < |s.clients| && i != k ==> From(t.dispatched, i) == From(s.dispatched, i)
    ensures SystemInv(t)
  {
    forall i | 0 <= i < |s.clients|
      ensures ClientOk(t, i)
    {
      assert ClientOk(s, i);
    }
  }

  lemma VisitInv<M>(s: System<M>, ok: bool)
    requires SystemInv(s) && s.poller.Visit?
    ensures SystemInv(PollStep(s, ok)) && |PollStep(s, ok).clients| == |s.clients|
  {
    hide From;
    var t := PollStep(s, ok);
    var k := s.poller.channel;
    if k < s.poller.limit {
      assert ClientOk(s, k);
      AdvancedInv(s.clients[k], Consume(StartPoll));
      OneClientMoved(s, t, k);
    } else {
      forall i | 0 <= i < |s.clients|
        ensures ClientOk(t, i)
      {
        assert ClientOk(s, i);
      }
    }
  }

  lemma PollingInv<M>(s: System<M>, ok: bool)
    requires SystemInv(s) && s.poller.Polling?
    ensures SystemInv(PollStep(s, ok)) && |PollStep(s, ok).clients| == |s.clients|
  {
    hide From;
    var k := s.poller.channel;
    assert ClientOk(s, k);
    AdvancedInv(s.clients[k], Consume(ConsumerStep(ok)));
    OneClientMoved(s, PollStep(s, ok), k);
  }

  lemma FromAppends<M>(dispatched: seq<Dispatch<M>>, last: Dispatch<M>, i: nat)
    ensures From(dispatched + [last], i) == From(dispatched, i) + if last.incoming == i then [last.msg] else []
  {
    assert (dispatched + [last])[..|dispatched|] == dispatched;
  }

  /** The handler is about to be called. */
  lemma AvailableInv<M>(s: System<M>, ok: bool)
    requires SystemInv(s) && s.poller.Serving? && s.clients[s.poller.channel].ring.consumer.Available?
    ensures SystemInv(PollStep(s, ok)) && |PollStep(s, ok).clients| == |s.clients|
  {
    hide From;
    var k := s.poller.channel;
    assert ClientOk(s, k);
    AdvancedInv(s.clients[k], Consume(ConsumerStep(ok)));
    OneClientMoved(s, PollStep(s, ok), k);
  }

  /** The handler is called, with the index of the channel in `incoming`. */
  lemma ReadingInv<M>(s: System<M>, ok: bool)
    requires SystemInv(s) && s.poller.Serving? && s.clients[s.poller.channel].ring.consumer.Reading?
    ensures SystemInv(PollStep(s, ok)) && |PollStep(s, ok).clients| == |s.clients|
  {
    hide From;
    var t := PollStep(s, ok);
    var k := s.poller.channel;
    assert ClientOk(s, k);
    AdvancedInv(s.clients[k], Consume(ConsumerStep(ok)));
    var last := Dispatch(s.incoming, s.clients[k].ring.storage[s.clients[k].ring.consumer.at]);
    assert t.dispatched == s.dispatched + [last];
    forall i | 0 <= i < |s.clients|
      ensures From(t.dispatched, i) == From(s.dispatched, i) + if i == k then [last.msg] else []
    {
      FromAppends(s.dispatched, last, i);
    }
    OneClientMoved(s, t, k);
  }

  lemma ReleasingInv<M>(s: System<M>, ok: bool)
    requires SystemInv(s) && s.poller.Serving? && s.clients[s.poller.channel].ring.consumer.Handled?
    ensures SystemInv(PollStep(s, ok)) && |PollStep(s, ok).clients| == |s.clients|
  {
    hide From;
    var k := s.poller.channel;
    assert ClientOk(s, k);
    AdvancedInv(s.clients[k], Consume(ConsumerStep(ok)));
    var stepped := Advanced(s.clients[k], Consume(ConsumerStep(ok)));
    assert stepped.ring.consumer.Idle? && stepped.ring.handled == s.clients[k].ring.handled;
    if s.poller.ok {
      AdvancedInv(stepped, Consume(StartPoll));
      var polled := Advanced(stepped, Consume(StartPoll));
      OneClientMoved(s, s.(clients := s.clients[k := polled], poller := Polling(k, s.poller.limit)), k);
      assert s.clients[k := stepped][k := polled] == s.clients[k := polled];
    } else {
      OneClientMoved(s, s.(clients := s.clients[k := stepped], poller := Away), k);
    }
  }

  lemma PollStepInv<M>(s: System<M>, ok: bool)
    requires SystemInv(s)
    ensures SystemInv(PollStep(s, ok)) && |PollStep(s, ok).clients| == |s.clients|
  {
    match s.poller
    case Away =>
    case Visit(_, _) => VisitInv(s, ok);
    case Polling(_, _) => PollingInv(s, ok);
    case Serving(k, _, _) =>
      assert ClientOk(s, k);
      if s.clients[k].ring.consumer.Handled? {
        ReleasingInv(s, ok);
      } else if s.clients[k].ring.consumer.Available? {
        AvailableInv(s, ok);
      } else {
        ReadingInv(s, ok);
      }
  }

  lemma ClientStepInv<M>(s: System<M>, channel: nat, step: Step<M>)
    requires SystemInv(s) && channel < s.active && !step.Consume?
    ensures SystemInv(NextState(s, Client(channel, step)))
  {
    assert ClientOk(s, channel);
    AdvancedInv(s.clients[channel], step);
    ProducerLeavesConsumer(s.clients[channel], step);
    var after := Advanced(s.clients[channel], step);
    OneClientMoved(s, s.(clients := s.clients[channel := after]), channel);
  }

  lemma NextStateInv<M>(s: System<M>, a: Action<M>)
    requires SystemInv(s)
    ensures SystemInv(NextState(s, a))
    ensures |NextState(s, a).clients| == |s.clients|
  {
    match a
    case Poll(ok) => PollStepInv(s, ok);
    case Client(channel, step) => if channel < s.active && !step.Consume? { ClientStepInv(s, channel, step); }
    case _ =>
      var t := NextState(s, a);
      forall i | 0 <= i < |s.clients|
        ensures ClientOk(t, i)
      {
        assert ClientOk(s, i);
      }
  }

  // ---- whole runs -------------------------------------------------------------------------------

  ghost predicate Initial<M>(s: System<M>) {
    && s.active == 0 && s.poller.Away? && s.dispatched == []
    && forall i :: 0 <= i < |s.clients| ==> IsFresh(s.clients[i])
  }

  ghost function Execute<M>(s: System<M>, schedule: seq<Action<M>>): (end: System<M>)
    requires SystemInv(s)
    ensures SystemInv(end) && |end.clients| == |s.clients|
    decreases |schedule|
  {
    if schedule == [] then s
    else
      var before := Execute(s, schedule[..|schedule| - 1]);
      NextStateInv(before, schedule[|schedule| - 1]);
      NextState(before, schedule[|schedule| - 1])
  }

  lemma InitialInv<M>(s: System<M>)
    requires Initial(s)
    ensures SystemInv(s)
  {
    forall i | 0 <= i < |s.clients|
      ensures ClientOk(s, i) && ChannelInv(s.clients[i])
    {
      FreshChannelInv(s.clients[i].ring.size - 1, s.clients[i].ring.storage);
    }
  }

  function Attaches<M>(schedule: seq<Action<M>>): nat {
    if schedule == [] then 0
    else Attaches(schedule[..|schedule| - 1]) + if schedule[|schedule| - 1].Attach? then 1 else 0
  }

  /** The active channels are those attached so far, as far as there are channels, whatever else is done. */
  lemma {:induction false} AttachesCount<M>(s: System<M>, schedule: seq<Action<M>>)
    requires SystemInv(s)
    ensures var (active, attached) := (Execute(s, schedule).active, s.active + Attaches(schedule));
            active == if attached <= |s.clients| then attached else |s.clients|
    decreases |schedule|
  {
    if schedule != [] {
      var n := |schedule| - 1;
      AttachesCount(s, schedule[..n]);
      AttachCounts(Execute(s, schedule[..n]), schedule[n]);
      hide SystemInv, NextState;
    }
  }

  lemma AttachCounts<M>(s: System<M>, a: Action<M>)
    requires SystemInv(s)
    ensures s.active <= |s.clients|
    ensures NextState(s, a).active == if a.Attach? && s.active < |s.clients| then s.active + 1 else s.active
  {
  }

  /** What an action pushes for one client: an attached client pushes between its other steps. */
  function PushedForBy<M>(s: System<M>, a: Action<M>, channel: nat): seq<M>
    requires channel < |s.clients|
  {
    match a
    case Client(k, step) => if k == channel < s.active then PushedBy(s.clients[channel], step) else []
    case _ => []
  }

  ghost function PushedFor<M>(s: System<M>, schedule: seq<Action<M>>, channel: nat): seq<M>
    requires SystemInv(s) && channel < |s.clients|
    decreases |schedule|
  {
    if schedule == [] then []
    else
      var n := |schedule| - 1;
      PushedFor(s, schedule[..n], channel) + PushedForBy(Execute(s, schedule[..n]), schedule[n], channel)
  }

  lemma PollLeavesPushed<M>(s: System<M>, ok: bool, channel: nat)
    requires SystemInv(s) && channel < |s.clients|
    ensures channel < |PollStep(s, ok).clients| && PollStep(s, ok).clients[channel].pushed == s.clients[channel].pushed
  {
    hide ChannelInv, ClientOk, ConsumerOf;
  }

  lemma StepPushes<M>(s: System<M>, a: Action<M>, channel: nat)
    requires SystemInv(s) && channel < |s.clients| == |NextState(s, a).clients|
    ensures NextState(s, a).clients[channel].pushed == s.clients[channel].pushed + PushedForBy(s, a, channel)
  {
    var pushed := s.clients[channel].pushed;
    assert pushed + [] == pushed;
    match a
    case Poll(ok) => PollLeavesPushed(s, ok, channel);
    case Client(k, step) =>
      if k == channel < s.active {
        assert ChannelInv(s.clients[k]);
        PushedByStep(s.clients[k], step);
      }
    case _ =>
  }

  /** Over every schedule, what a client pushed is what its own steps were to push, in order. */
  lemma {:induction false} PushesAreTaken<M>(s: System<M>, schedule: seq<Action<M>>, channel: nat)
    requires SystemInv(s) && channel < |s.clients|
    ensures Execute(s, schedule).clients[channel].pushed == s.clients[channel].pushed + PushedFor(s, schedule, channel)
    decreases |schedule|
  {
    hide SystemInv, NextState, PushedForBy;
    if schedule != [] {
      var n := |schedule| - 1;
      PushesAreTaken(s, schedule[..n], channel);
      NextStateInv(Execute(s, schedule[..n]), schedule[n]);
      StepPushes(Execute(s, schedule[..n]), schedule[n], channel);
    }
  }

  /** After every schedule, each client's messages have been dispatched in the order it pushed them,
      under that client's channel index, with nothing lost or duplicated on the way; and whenever a
      client's own code is not running, its drain is pending iff its spill deque is non-empty, for
      exactly the clients none of whose posts was rejected. */
  lemma EachClientServedInOrder<M>(s: System<M>, schedule: seq<Action<M>>, channel: nat)
    requires Initial(s) && channel < |s.clients|
    ensures var end := (InitialInv(s); Execute(s, schedule));
            var c := end.clients[channel];
            && From(end.dispatched, channel) + Unhandled(c.ring) + Waiting(c) == PushedFor(s, schedule, channel)
            && (c.pc.Quiet? ==> ((c.spill != [] <==> c.drains == 1) <==> !c.stranded))
  {
    InitialInv(s);
    var end := Execute(s, schedule);
    assert ClientOk(end, channel);
    PushesAreTaken(s, schedule, channel);
    assert s.clients[channel].pushed == [];
    Conserved(end.clients[channel]);
    if end.clients[channel].pc.Quiet? {
      OneDrainIffSpilled(end.clients[channel]);
    }
  }

  // ---- a poll from its start to its end ---------------------------------------------------------

  function Tagged<M>(channel: nat, msgs: seq<M>): seq<Dispatch<M>> {
    seq(|msgs|, i requires 0 <= i < |msgs| => Dispatch(channel, msgs[i]))
  }

  /** What a poll does: it serves the channels from `channel` on in turn, stopping behind an entry whose
      handling fails, and leaves what it did not take. */
  function Served<M>(contents: seq<seq<M>>, channel: nat, limit: nat, handler: M -> bool): (seq<Dispatch<M>>, seq<seq<M>>)
    requires limit <= |contents|
    decreases limit - channel
  {
    if channel >= limit then ([], contents)
    else
      var taken := Taken(contents[channel], handler);
      var left := contents[channel := contents[channel][|taken|..]];
      if AllHandled(contents[channel], handler) then
        var (dispatched, end) := Served(left, channel + 1, limit, handler);
        (Tagged(channel, taken) + dispatched, end)
      else (Tagged(channel, taken), left)
  }

  /** What the rings hold. */
  ghost function AllContents<M>(s: System<M>): (contents: seq<seq<M>>)
    requires SystemInv(s)
    ensures |contents| == |s.clients| && s.active <= |contents|
    ensures forall i :: 0 <= i < |s.clients| ==> contents[i] == Contents(s.clients[i].ring)
    ensures !s.poller.Away? ==> s.poller.limit <= |contents| && (!s.poller.Visit? ==> s.poller.channel < s.poller.limit)
  {
    seq(|s.clients|, i requires 0 <= i < |s.clients| => Contents(s.clients[i].ring))
  }

  /** The steps that a poll takes at most: two for each channel and four for each entry. */
  function Steps<M>(contents: seq<seq<M>>, channel: nat, limit: nat): (steps: nat)
    requires limit <= |contents|
    ensures steps >= 1
    decreases limit - channel
  {
    if channel >= limit then 1 else 2 + 4 * |contents[channel]| + Steps(contents, channel + 1, limit)
  }

  /** What the handler answers if it is called now. */
  ghost function Answer<M>(s: System<M>, handler: M -> bool): bool
    requires SystemInv(s)
  {
    if s.poller.Serving? && Contents(s.clients[s.poller.channel].ring) != []
    then handler(Contents(s.clients[s.poller.channel].ring)[0]) else true
  }

  /** The server's steps alone, with a handler that answers by the entry. */
  ghost function Uninterrupted<M>(s: System<M>, handler: M -> bool, steps: nat): (end: System<M>)
    requires SystemInv(s)
    ensures SystemInv(end) && |end.clients| == |s.clients|
    decreases steps
  {
    if steps == 0 then s
    else
      NextStateInv(s, Poll(Answer(s, handler)));
      Uninterrupted(NextState(s, Poll(Answer(s, handler))), handler, steps - 1)
  }

  lemma {:induction false} Splits<M>(s: System<M>, handler: M -> bool, m: nat, n: nat)
    requires SystemInv(s)
    ensures Uninterrupted(s, handler, m + n) == Uninterrupted(Uninterrupted(s, handler, m), handler, n)
    decreases m
  {
    hide SystemInv, NextState, Answer;
    if m > 0 {
      NextStateInv(s, Poll(Answer(s, handler)));
      Splits(NextState(s, Poll(Answer(s, handler))), handler, m - 1, n);
    }
  }

  lemma {:induction false} AwayStays<M>(s: System<M>, handler: M -> bool, steps: nat)
    requires SystemInv(s) && s.poller.Away?
    ensures Uninterrupted(s, handler, steps) == s
    decreases steps
  {
    hide SystemInv, Answer;
    if steps > 0 {
      AwayStays(s, handler, steps - 1);
    }
  }

  /** Everything but the poller and channel `k` is as before, and so is what the rings hold. */
  ghost predicate Alike<M>(s: System<M>, t: System<M>) {
    && SystemInv(s) && SystemInv(t)
    && t.active == s.active && AllContents(t) == AllContents(s)
  }

  lemma OneRing<M>(s: System<M>, t: System<M>, k: nat, contents: seq<M>)
    requires SystemInv(s) && SystemInv(t) && k < |s.clients| == |t.clients|
    requires t.clients == s.clients[k := t.clients[k]] && Contents(t.clients[k].ring) == contents
    ensures AllContents(t) == AllContents(s)[k := contents]
  {
    assert forall i :: 0 <= i < |s.clients| && i != k ==> t.clients[i] == s.clients[i];
  }

  lemma Looks<M>(s: System<M>, ok: bool)
    requires SystemInv(s) && s.poller.Visit? && s.poller.channel < s.poller.limit
    ensures var t := NextState(s, Poll(ok));
            Alike(s, t) && t.dispatched == s.dispatched && t.poller == Polling(s.poller.channel, s.poller.limit)
  {
    hide From;
    var k := s.poller.channel;
    VisitInv(s, ok);
    OneRing(s, NextState(s, Poll(ok)), k, Contents(s.clients[k].ring));
  }

  lemma Sees<M>(s: System<M>, ok: bool)
    requires SystemInv(s) && s.poller.Polling?
    ensures var t := NextState(s, Poll(ok));
            var Polling(k, limit) := s.poller;
            && Alike(s, t) && t.dispatched == s.dispatched
            && (if Contents(s.clients[k].ring) == [] then t.poller == Visit(k + 1, limit)
                else t.poller == Serving(k, limit, true) && t.clients[k].ring.consumer.Available?)
  {
    hide From;
    var k := s.poller.channel;
    assert ClientOk(s, k);
    PollingInv(s, ok);
    OneRing(s, NextState(s, Poll(ok)), k, Contents(s.clients[k].ring));
  }

  lemma Reads<M>(s: System<M>, ok: bool)
    requires SystemInv(s) && s.poller.Serving? && s.clients[s.poller.channel].ring.consumer.Available?
    ensures var t := NextState(s, Poll(ok));
            && Alike(s, t) && t.dispatched == s.dispatched && t.poller == s.poller
            && t.clients[s.poller.channel].ring.consumer.Reading?
  {
    hide From;
    var k := s.poller.channel;
    AvailableInv(s, ok);
    OneRing(s, NextState(s, Poll(ok)), k, Contents(s.clients[k].ring));
  }

  lemma RingHands<M>(r: Ring<M>, ok: bool)
    requires Inv(r) && r.consumer.Reading?
    ensures r.consumer.at < |r.storage| && Contents(r) != [] && Contents(r)[0] == r.storage[r.consumer.at]
    ensures ConsumerNext(r, ok).consumer.Handled?
    ensures Shape(ConsumerNext(r, ok)) && Contents(ConsumerNext(r, ok)) == Contents(r)
  {
    HandlerRuns(r, ok);
    StoreHeadDrops(r);
  }

  lemma RingFrees<M>(r: Ring<M>, ok: bool)
    requires Inv(r) && r.consumer.Handled?
    ensures Shape(ConsumerNext(r, ok)) && ConsumerNext(r, ok).consumer.Idle?
    ensures Contents(r) != [] && Contents(ConsumerNext(r, ok)) == Contents(r)[1..]
    ensures Contents(Next(ConsumerNext(r, ok), StartPoll)) == Contents(r)[1..]
  {
    HeadStored(r, ok);
    StoreHeadDrops(r);
  }

  lemma Hands<M>(s: System<M>, ok: bool)
    requires SystemInv(s) && s.poller.Serving? && s.clients[s.poller.channel].ring.consumer.Reading?
    ensures var t := NextState(s, Poll(ok));
            var Serving(k, limit, _) := s.poller;
            && Alike(s, t) && t.poller == Serving(k, limit, ok) && t.clients[k].ring.consumer.Handled?
            && Contents(s.clients[k].ring) != []
            && t.dispatched == s.dispatched + [Dispatch(k, Contents(s.clients[k].ring)[0])]
  {
    hide From, Contents, ConsumerNext, Waiting, PcInv, ClientOk;
    var k := s.poller.channel;
    ReadingInv(s, ok);
    RingHands(s.clients[k].ring, ok);
    OneRing(s, NextState(s, Poll(ok)), k, Contents(s.clients[k].ring));
  }

  lemma Frees<M>(s: System<M>, ok: bool)
    requires SystemInv(s) && s.poller.Serving? && s.clients[s.poller.channel].ring.consumer.Handled?
    ensures var t := NextState(s, Poll(ok));
            var Serving(k, limit, verdict) := s.poller;
            && SystemInv(t) && t.active == s.active && t.dispatched == s.dispatched
            && Contents(s.clients[k].ring) != []
            && AllContents(t) == AllContents(s)[k := AllContents(s)[k][1..]]
            && t.poller == if verdict then Polling(k, limit) else Away
  {
    hide From, Contents, ConsumerNext, Waiting, PcInv, ClientOk;
    var k := s.poller.channel;
    ReleasingInv(s, ok);
    RingFrees(s.clients[k].ring, ok);
    OneRing(s, NextState(s, Poll(ok)), k, Contents(s.clients[k].ring)[1..]);
  }

  /** One entry is seen, handed to the handler, and freed, and the ring is looked at again. */
  lemma OneEntry<M>(s: System<M>, handler: M -> bool)
    requires SystemInv(s) && s.poller.Polling? && AllContents(s)[s.poller.channel] != []
    ensures var Polling(k, limit) := s.poller;
            var first := AllContents(s)[k][0];
            var t := Uninterrupted(s, handler, 4);
            && t.dispatched == s.dispatched + [Dispatch(k, first)]
            && t.poller == (if handler(first) then Polling(k, limit) else Away) && t.active == s.active
            && AllContents(t) == AllContents(s)[k := AllContents(s)[k][1..]]
  {
    hide NextState, SystemInv, From, Contents;
    var Polling(k, limit) := s.poller;
    var first := AllContents(s)[k][0];
    Sees(s, Answer(s, handler));
    var seen := NextState(s, Poll(Answer(s, handler)));
    Reads(seen, Answer(seen, handler));
    var reading := NextState(seen, Poll(Answer(seen, handler)));
    assert AllContents(reading)[k] == AllContents(s)[k];
    assert Answer(reading, handler) == handler(first);
    Hands(reading, handler(first));
    var handled := NextState(reading, Poll(handler(first)));
    Frees(handled, Answer(handled, handler));
    assert AllContents(handled)[k] == AllContents(s)[k];
    var t := NextState(handled, Poll(Answer(handled, handler)));
    assert Uninterrupted(t, handler, 0) == t;
    assert Uninterrupted(handled, handler, 1) == t;
    assert Uninterrupted(reading, handler, 2) == t;
    assert Uninterrupted(seen, handler, 3) == t;
  }

  lemma {:induction false} StepsFrom<M>(contents: seq<seq<M>>, channel: nat, limit: nat, k: nat, other: seq<M>)
    requires limit <= |contents| && k < channel && k < |contents|
    ensures Steps(contents[k := other], channel, limit) == Steps(contents, channel, limit)
    decreases limit - channel
  {
    if channel < limit {
      StepsFrom(contents, channel + 1, limit, k, other);
    }
  }

  /** A poll serves the first entry and then the others. */
  lemma ServedFirst<M>(contents: seq<seq<M>>, channel: nat, limit: nat, handler: M -> bool)
    requires channel < limit <= |contents| && contents[channel] != []
    ensures var first := contents[channel][0];
            var fewer := contents[channel := contents[channel][1..]];
            var (dispatched, left) := Served(contents, channel, limit, handler);
            if handler(first) then
              var (more, end) := Served(fewer, channel, limit, handler);
              dispatched == [Dispatch(channel, first)] + more && left == end
            else dispatched == [Dispatch(channel, first)] && left == fewer
  {
    hide Taken, AllHandled, Tagged;
    var first, others := contents[channel][0], contents[channel][1..];
    var taken := Taken(contents[channel], handler);
    TakenFirst(contents[channel], handler);
    TaggedFirst(channel, taken);
    if handler(first) {
      var fewer := contents[channel := others];
      var left := fewer[channel := others[|taken| - 1..]];
      assert contents[channel := contents[channel][|taken|..]] == left;
      assert Served(fewer, channel, limit, handler)
          == if AllHandled(others, handler) then
               var (more, end) := Served(left, channel + 1, limit, handler); (Tagged(channel, taken[1..]) + more, end)
             else (Tagged(channel, taken[1..]), left);
    } else {
      assert Tagged(channel, taken[1..]) == [] by {
        assert taken[1..] == [];
        TaggedNothing<M>(channel);
      }
    }
  }

  lemma TaggedFirst<M>(channel: nat, msgs: seq<M>)
    requires msgs != []
    ensures Tagged(channel, msgs) == [Dispatch(channel, msgs[0])] + Tagged(channel, msgs[1..])
  {
  }

  lemma TaggedNothing<M>(channel: nat)
    ensures Tagged<M>(channel, []) == []
  {
  }

  lemma ServedNothing<M>(contents: seq<seq<M>>, channel: nat, limit: nat, handler: M -> bool)
    requires channel < limit <= |contents| && contents[channel] == []
    ensures Served(contents, channel, limit, handler) == Served(contents, channel + 1, limit, handler)
  {
    assert contents[channel := contents[channel][0..]] == contents;
    var (dispatched, left) := Served(contents, channel + 1, limit, handler);
    assert Tagged(channel, contents[channel]) + dispatched == dispatched;
  }

  /** The end of a poll that dispatches `served` on the way. */
  ghost predicate PollEnds<M>(s: System<M>, end: System<M>, served: (seq<Dispatch<M>>, seq<seq<M>>)) {
    && SystemInv(end) && end.poller.Away? && end.active == s.active
    && end.dispatched == s.dispatched + served.0 && AllContents(end) == served.1
  }

  lemma {:induction false} FromVisit<M>(s: System<M>, handler: M -> bool, steps: nat)
    requires SystemInv(s) && s.poller.Visit?
    requires steps >= Steps(AllContents(s), s.poller.channel, s.poller.limit)
    ensures PollEnds(s, Uninterrupted(s, handler, steps),
                     Served(AllContents(s), s.poller.channel, s.poller.limit, handler))
    decreases steps, 1
  {
    hide SystemInv, From, Answer, NextState;
    var ok := Answer(s, handler);
    NextStateInv(s, Poll(ok));
    if s.poller.channel < s.poller.limit {
      Looks(s, ok);
      FromPolling(NextState(s, Poll(ok)), handler, steps - 1);
    } else {
      Finishes(s, ok);
      assert Served(AllContents(s), s.poller.channel, s.poller.limit, handler) == ([], AllContents(s));
      AwayStays(NextState(s, Poll(ok)), handler, steps - 1);
    }
  }

  lemma Finishes<M>(s: System<M>, ok: bool)
    requires SystemInv(s) && s.poller.Visit? && s.poller.channel >= s.poller.limit
    ensures NextState(s, Poll(ok)) == s.(poller := Away)
    ensures SystemInv(NextState(s, Poll(ok))) && AllContents(NextState(s, Poll(ok))) == AllContents(s)
  {
    NextStateInv(s, Poll(ok));
  }

  lemma EndsBehind<M>(s: System<M>, t: System<M>, end: System<M>, first: Dispatch<M>, served: (seq<Dispatch<M>>, seq<seq<M>>))
    requires t.active == s.active && t.dispatched == s.dispatched + [first] && PollEnds(t, end, served)
    ensures PollEnds(s, end, ([first] + served.0, served.1))
  {
  }

  lemma {:induction false} FromPolling<M>(s: System<M>, handler: M -> bool, steps: nat)
    requires SystemInv(s) && s.poller.Polling?
    requires steps + 1 >= Steps(AllContents(s), s.poller.channel, s.poller.limit)
    ensures PollEnds(s, Uninterrupted(s, handler, steps),
                     Served(AllContents(s), s.poller.channel, s.poller.limit, handler))
    decreases steps, 1
  {
    hide SystemInv, From, Served, Answer, NextState, Contents;
    var Polling(k, limit) := s.poller;
    var contents := AllContents(s);
    if contents[k] == [] {
      var ok := Answer(s, handler);
      NextStateInv(s, Poll(ok));
      Sees(s, ok);
      ServedNothing(contents, k, limit, handler);
      FromVisit(NextState(s, Poll(ok)), handler, steps - 1);
    } else {
      FromEntry(s, handler, steps);
    }
  }

  lemma {:induction false} FromEntry<M>(s: System<M>, handler: M -> bool, steps: nat)
    requires SystemInv(s) && s.poller.Polling? && AllContents(s)[s.poller.channel] != []
    requires steps + 1 >= Steps(AllContents(s), s.poller.channel, s.poller.limit)
    ensures PollEnds(s, Uninterrupted(s, handler, steps),
                     Served(AllContents(s), s.poller.channel, s.poller.limit, handler))
    decreases steps, 0
  {
    hide SystemInv, From, Served, Answer, NextState, Uninterrupted, Contents;
    var Polling(k, limit) := s.poller;
    var contents := AllContents(s);
    OneEntry(s, handler);
    Splits(s, handler, 4, steps - 4);
    var t := Uninterrupted(s, handler, 4);
    ServedFirst(contents, k, limit, handler);
    if handler(contents[k][0]) {
      StepsFrom(contents, k + 1, limit, k, contents[k][1..]);
      FromPolling(t, handler, steps - 4);
      EndsBehind(s, t, Uninterrupted(t, handler, steps - 4), Dispatch(k, contents[k][0]), Served(AllContents(t), k, limit, handler));
    } else {
      AwayStays(t, handler, steps - 4);
    }
  }

  /** A poll that nothing interrupts serves every channel that is active when it begins: in turn, each
      entry of its ring, oldest first, until an entry fails, which is dispatched and freed too. */
  lemma PollServes<M>(s: System<M>, handler: M -> bool, steps: nat)
    requires SystemInv(s) && s.poller.Away? && steps >= Steps(AllContents(s), 0, s.active)
    ensures var begun := (NextStateInv(s, StartPolling); NextState(s, StartPolling));
            PollEnds(s, Uninterrupted(begun, handler, steps), Served(AllContents(s), 0, s.active, handler))
  {
    hide From, Served;
    NextStateInv(s, StartPolling);
    var begun := NextState(s, StartPolling);
    assert begun.clients == s.clients;
    FromVisit(begun, handler, steps);
  }

  lemma {:induction false} FromConcat<M>(a: seq<Dispatch<M>>, b: seq<Dispatch<M>>, i: nat)
    ensures From(a + b, i) == From(a, i) + From(b, i)
    decreases |b|
  {
    if b == [] {
      assert a + b == a;
    } else {
      FromConcat(a, b[..|b| - 1], i);
      assert (a + b)[..|a + b| - 1] == a + b[..|b| - 1];
    }
  }

  lemma {:induction false} FromTagged<M>(channel: nat, msgs: seq<M>, i: nat)
    ensures From(Tagged(channel, msgs), i) == if i == channel then msgs else []
    decreases |msgs|
  {
    if msgs != [] {
      var front := msgs[..|msgs| - 1];
      assert Tagged(channel, msgs)[..|msgs| - 1] == Tagged(channel, front);
      FromTagged(channel, front, i);
      assert msgs == front + [msgs[|msgs| - 1]];
    }
  }

  lemma {:induction false} ServedAll<M>(contents: seq<seq<M>>, channel: nat, limit: nat, handler: M -> bool, i: nat)
    requires limit <= |contents| && i < |contents|
    requires forall k :: channel <= k < limit ==> AllHandled(contents[k], handler)
    ensures var (dispatched, left) := Served(contents, channel, limit, handler);
            && From(dispatched, i) == (if channel <= i < limit then contents[i] else [])
            && |left| == |contents| && left[i] == if channel <= i < limit then [] else contents[i]
    decreases limit - channel
  {
    hide Taken, AllHandled, Tagged, From;
    if channel < limit {
      var all := contents[channel];
      AllTaken(all, handler);
      var left := contents[channel := all[|all|..]];
      assert forall k :: channel < k < limit ==> left[k] == contents[k];
      ServedAll(left, channel + 1, limit, handler, i);
      FromConcat(Tagged(channel, all), Served(left, channel + 1, limit, handler).0, i);
      FromTagged(channel, all, i);
    } else {
      FromTagged<M>(channel, [], i);
      TaggedNothing<M>(channel);
    }
  }

  lemma AllTaken<M>(contents: seq<M>, handler: M -> bool)
    requires AllHandled(contents, handler)
    ensures Taken(contents, handler) == contents
  {
    TakenStops(contents, handler);
  }

  /** If nothing fails, a poll empties the ring of every client that is active when it begins, and hands
      over exactly what was in it, under that client's index. */
  lemma PollEmpties<M>(s: System<M>, handler: M -> bool, steps: nat, i: nat)
    requires SystemInv(s) && s.poller.Away? && steps >= Steps(AllContents(s), 0, s.active) && i < |s.clients|
    requires forall k :: 0 <= k < s.active ==> AllHandled(Contents(s.clients[k].ring), handler)
    ensures var begun := (NextStateInv(s, StartPolling); NextState(s, StartPolling));
            var end := Uninterrupted(begun, handler, steps);
            if i < s.active then
              && From(end.dispatched, i) == From(s.dispatched, i) + Contents(s.clients[i].ring)
              && Contents(end.clients[i].ring) == []
            else
              From(end.dispatched, i) == From(s.dispatched, i) && Contents(end.clients[i].ring) == Contents(s.clients[i].ring)
  {
    hide From, NextState, Uninterrupted, Served, AllHandled;
    PollServes(s, handler, steps);
    ServedAll(AllContents(s), 0, s.active, handler, i);
    FromConcat(s.dispatched, Served(AllContents(s), 0, s.active, handler).0, i);
  }

  // ---- the polling loop as a call ---------------------------------------------------------------

  lemma Shaped<M>(r: Ring<M>)
    requires Inv(r)
    ensures Shape(r)
  {
  }

  /** The first `events` entries were taken and handled, and the others are to be seen. */
  ghost predicate TakenSoFar<M>(all: seq<M>, events: nat, handler: M -> bool) {
    && events <= |all|
    && Taken(all, handler) == all[..events] + Taken(all[events..], handler)
    && (AllHandled(all, handler) <==> AllHandled(all[events..], handler))
  }

  lemma NoneTaken<M>(all: seq<M>, handler: M -> bool)
    ensures TakenSoFar(all, 0, handler)
  {
    assert all[0..] == all && all[..0] == [];
  }

  lemma OneMoreTaken<M>(all: seq<M>, events: nat, handler: M -> bool)
    requires TakenSoFar(all, events, handler) && events < |all|
    ensures all[events..][1..] == all[events + 1..] && all[..events] + [all[events]] == all[..events + 1]
    ensures if handler(all[events]) then TakenSoFar(all, events + 1, handler)
            else Taken(all, handler) == all[..events + 1] && !AllHandled(all, handler)
  {
    hide Taken, AllHandled;
    var done, others := all[..events], all[events..];
    TakenFirst(others, handler);
    CutBehind(all, events);
    if handler(all[events]) {
      Regroup(done, all[events], Taken(others[1..], handler));
    } else {
      assert [all[events]] + [] == [all[events]];
    }
  }

  lemma CutBehind<T>(all: seq<T>, k: nat)
    requires k < |all|
    ensures all[k..] != [] && all[k..][0] == all[k] && all[k..][1..] == all[k + 1..] && all[..k] + [all[k]] == all[..k + 1]
  {
  }

  lemma Regroup<T>(a: seq<T>, x: T, b: seq<T>)
    ensures a + ([x] + b) == (a + [x]) + b
  {
  }

  lemma OverTaken<M>(all: seq<M>, events: nat, handler: M -> bool)
    requires TakenSoFar(all, events, handler) && all[events..] == []
    ensures Taken(all, handler) == all && AllHandled(all, handler) && events == |all|
  {
  }

  lemma OneConsumed<M>(r: Ring<M>, handler: M -> bool)
    requires Inv(r) && r.consumer.Idle? && r.head != r.tail
    ensures var end := ConsumeAvailableCall(r, handler);
            && Inv(end) && end.consumer.Idle? && end.sent == r.sent
            && r.head < |r.storage| && Contents(r) != [] && Contents(r)[0] == r.storage[r.head]
            && Contents(end) == Contents(r)[1..] && end.handled == r.handled + [Contents(r)[0]]
  {
    ConsumeAvailableCallEffect(r, handler);
    StoreHeadDrops(r);
  }

  lemma HoldsNothing<M>(r: Ring<M>)
    requires Shape(r)
    ensures r.head == r.tail <==> Contents(r) == []
  {
  }

  /** One channel's part of `pollAndDispatch`, run without interruption: entries go to the handler,
      oldest first, until the ring is empty or the handler fails; the failing entry is consumed. */
  method PollChannel<M>(ring: Ring<M>, handler: M -> bool) returns (after: Ring<M>, ok: bool, events: nat)
    requires Inv(ring) && ring.consumer.Idle?
    ensures Inv(after) && after.consumer.Idle? && after.sent == ring.sent
    ensures after.handled == ring.handled + Taken(Contents(ring), handler)
    ensures Contents(after) == Contents(ring)[|Taken(Contents(ring), handler)|..]
    ensures ok == AllHandled(Contents(ring), handler)
    ensures events == |Taken(Contents(ring), handler)| - if ok then 0 else 1
  {
    hide Contents, Inv, Shape, ConsumeAvailableCall, Taken, AllHandled, TakenSoFar;
    after, ok, events := ring, true, 0;
    Shaped(ring);
    NoneTaken(Contents(ring), handler);
    ghost var all := Contents(ring);
    assert all[0..] == all && ring.handled + all[..0] == ring.handled;
    while after.head != after.tail
      invariant Inv(after) && Shape(after) && after.consumer.Idle? && after.sent == ring.sent && ok && events <= |all|
      invariant Contents(after) == all[events..] && after.handled == ring.handled + all[..events]
      invariant TakenSoFar(all, events, handler)
      decreases |all| - events
    {
      OneConsumed(after, handler);
      OneMoreTaken(all, events, handler);
      ok := handler(after.storage[after.head]);
      after := ConsumeAvailableCall(after, handler);
      Shaped(after);
      if !ok {
        return;
      }
      events := events + 1;
    }
    HoldsNothing(after);
    OverTaken(all, events, handler);
  }

  ghost function Held<M>(rings: seq<Ring<M>>): (contents: seq<seq<M>>)
    requires forall i :: 0 <= i < |rings| ==> Inv(rings[i])
    ensures |contents| == |rings|
  {
    seq(|rings|, i requires 0 <= i < |rings| && Inv(rings[i]) => Contents(rings[i]))
  }

  lemma OneHeld<M>(rings: seq<Ring<M>>, k: nat, ring: Ring<M>)
    requires k < |rings| && Inv(ring) && forall i :: 0 <= i < |rings| ==> Inv(rings[i])
    ensures Held(rings)[k] == Contents(rings[k]) && Held(rings[k := ring]) == Held(rings)[k := Contents(ring)]
  {
  }

  /** `pollAndDispatch`, run without interruption: what is dispatched, with the index that the handler
      can ask for, and what is left in the rings. */
  method PollAndDispatch<M>(rings: seq<Ring<M>>, activeChannels: nat, handler: M -> bool)
    returns (after: seq<Ring<M>>, dispatched: seq<Dispatch<M>>, ok: bool, events: nat)
    requires activeChannels <= |rings|
    requires forall i :: 0 <= i < |rings| ==> Inv(rings[i]) && rings[i].consumer.Idle?
    ensures |after| == |rings|
    ensures forall i :: 0 <= i < |after| ==> Inv(after[i]) && after[i].consumer.Idle?
    ensures (dispatched, Held(after)) == Served(Held(rings), 0, activeChannels, handler)
    ensures ok ==> events == |dispatched|
    ensures !ok ==> dispatched != [] && !handler(dispatched[|dispatched| - 1].msg)
  {
    hide Contents, Inv, Taken, AllHandled, Tagged, Held, Served;
    after, dispatched, ok, events := rings, [], true, 0;
    assert [] + Served(Held(rings), 0, activeChannels, handler).0 == Served(Held(rings), 0, activeChannels, handler).0;
    for channelIndex := 0 to activeChannels
      invariant |after| == |rings| && ok && events == |dispatched|
      invariant forall i :: 0 <= i < |after| ==> Inv(after[i]) && after[i].consumer.Idle?
      invariant var (more, left) := Served(Held(after), channelIndex, activeChannels, handler);
                Served(Held(rings), 0, activeChannels, handler) == (dispatched + more, left)
    {
      ghost var contents := Held(after)[channelIndex];
      OneHeld(after, channelIndex, after[channelIndex]);
      var ring, fine, count := PollChannel(after[channelIndex], handler);
      var taken := ring.handled[|after[channelIndex].handled|..];
      OneHeld(after, channelIndex, ring);
      ServedHere(Held(after), channelIndex, activeChannels, handler);
      assert taken == Taken(contents, handler);
      TakenStops(contents, handler);
      TaggedAll(channelIndex, taken);
      after := after[channelIndex := ring];
      ghost var more := Served(Held(after), channelIndex + 1, activeChannels, handler).0;
      assert dispatched + (Tagged(channelIndex, taken) + more) == (dispatched + Tagged(channelIndex, taken)) + more;
      dispatched := dispatched + Tagged(channelIndex, taken);
      if !fine {
        ok := false;
        return;
      }
      events := events + count;
    }
    ServedNone(Held(after), activeChannels, handler);
    assert dispatched + [] == dispatched;
  }

  lemma ServedHere<M>(contents: seq<seq<M>>, channel: nat, limit: nat, handler: M -> bool)
    requires channel < limit <= |contents|
    ensures var taken := Taken(contents[channel], handler);
            var left := contents[channel := contents[channel][|taken|..]];
            Served(contents, channel, limit, handler)
            == if AllHandled(contents[channel], handler) then
                 (Tagged(channel, taken) + Served(left, channel + 1, limit, handler).0, Served(left, channel + 1, limit, handler).1)
               else (Tagged(channel, taken), left)
  {
  }

  lemma ServedNone<M>(contents: seq<seq<M>>, limit: nat, handler: M -> bool)
    requires limit <= |contents|
    ensures Served(contents, limit, limit, handler) == ([], contents)
  {
  }

  lemma TaggedAll<M>(channel: nat, msgs: seq<M>)
    ensures |Tagged(channel, msgs)| == |msgs|
    ensures forall i :: 0 <= i < |msgs| ==> Tagged(channel, msgs)[i].msg == msgs[i]
  {
  }
}
