/** Precision timed events: posting them, and the phase of the event cycle that fires those that are due.
    An event is popped after its action has run, and the action may have posted others meanwhile.
 */
module PrecisionEvents {
  import opened TimerHeap

  /** An event that fired, and the clock when it was found due. */
  datatype Firing = Firing(event: Event, at: nat)

  /** `clock` is the latest reading; `posted` holds every event that was accepted. */
  datatype Timers = Timers(heap: seq<Event>, clock: nat, posted: multiset<Event>, fired: seq<Firing>)

  const START := Timers([], 0, multiset{}, [])

  /** A post made on the loop's thread: the clock it reads, the event, and whether a payload is engaged. */
  datatype Post = Post(now: nat, event: Event, engaged: bool)

  /** The clock never goes back. */
  function Tick(s: Timers, now: nat): (r: Timers)
    ensures r.clock >= s.clock && r.clock >= now
  {
    s.(clock := if now > s.clock then now else s.clock)
  }

  function Added(s: Timers, e: Event): Timers {
    s.(heap := Push(s.heap, e), posted := s.posted + multiset{e})
  }

  /** An event in the past is refused, and any event while a payload is engaged. */
  function PostTimed(s: Timers, p: Post): Timers {
    var t := Tick(s, p.now);
    if p.engaged || t.clock > p.event.time then t else Added(t, p.event)
  }

  function PostAll(s: Timers, posts: seq<Post>): Timers
    decreases |posts|
  {
    if posts == [] then s else PostAll(PostTimed(s, posts[0]), posts[1..])
  }

  predicate Due(s: Timers) { s.heap != [] && s.heap[0].time <= s.clock }

  /** The action of the earliest event runs, posting `posts`; then the first event is popped. */
  function FireTop(s: Timers, posts: seq<Post>): Timers
    requires Due(s)
  {
    var t := PostAll(s, posts);
    t.(heap := if t.heap == [] then [] else Pop(t.heap), fired := s.fired + [Firing(s.heap[0], s.clock)])
  }

  /** One round of the loop: the clock it reads, and what the action does. */
  datatype Turn = Turn(now: nat, posts: seq<Post>, ok: bool)

  /** The firing phase of a cycle: it ends when no event is due, or an action fails. */
  function Cycle(s: Timers, turns: seq<Turn>): Timers
    decreases |turns|
  {
    if turns == [] then s
    else
      var t := Tick(s, turns[0].now);
      if !Due(t) then t
      else if !turns[0].ok then FireTop(t, turns[0].posts)
      else Cycle(FireTop(t, turns[0].posts), turns[1..])
  }

  /** The last reading found nothing due. */
  predicate Ends(s: Timers, turns: seq<Turn>)
    decreases |turns|
  {
    && turns != []
    && var t := Tick(s, turns[0].now);
       !Due(t) || (turns[0].ok && Ends(FireTop(t, turns[0].posts), turns[1..]))
  }

  /** An action that runs fails, and ends the phase. */
  predicate Fails(s: Timers, turns: seq<Turn>)
    decreases |turns|
  {
    && turns != []
    && var t := Tick(s, turns[0].now);
       Due(t) && (!turns[0].ok || Fails(FireTop(t, turns[0].posts), turns[1..]))
  }

  // ---- invariants -------------------------------------------------------------------------------

  function Events(fired: seq<Firing>): multiset<Event> {
    if fired == [] then multiset{} else Events(fired[..|fired| - 1]) + multiset{fired[|fired| - 1].event}
  }

  /** Every accepted event is waiting or has fired, once; and none fired early. */
  ghost predicate Inv(s: Timers) {
    && IsHeap(s.heap)
    && s.posted == multiset(s.heap) + Events(s.fired)
    && forall i :: 0 <= i < |s.fired| ==> s.fired[i].event.time <= s.fired[i].at <= s.clock
  }

  /** No event that waits is earlier than the last one that fired. */
  ghost predicate NoneLate(s: Timers) {
    s.fired != [] ==> forall i :: 0 <= i < |s.heap| ==> LastTime(s) <= s.heap[i].time
  }

  function LastTime(s: Timers): nat
    requires s.fired != []
  {
    s.fired[|s.fired| - 1].event.time
  }

  /** Events fired in the order of their times, and those that wait come no earlier. */
  ghost predicate InTimeOrder(s: Timers) {
    && (forall i, j :: 0 <= i < j < |s.fired| ==> s.fired[i].event.time <= s.fired[j].event.time)
    && NoneLate(s)
  }

  lemma AddedInv(s: Timers, e: Event)
    requires Inv(s)
    ensures Inv(Added(s, e))
  {
    PushHeap(s.heap, e);
  }

  lemma InMultiset(s: seq<Event>, t: seq<Event>, e: Event, bound: nat)
    requires multiset(t) == multiset(s) + multiset{e}
    requires e.time >= bound && forall i :: 0 <= i < |s| ==> s[i].time >= bound
    ensures forall i :: 0 <= i < |t| ==> t[i].time >= bound
  {
    forall i | 0 <= i < |t|
      ensures t[i].time >= bound
    {
      assert t[i] in multiset(t);
      assert t[i] == e || t[i] in s;
    }
  }

  lemma PostTimedOrder(s: Timers, p: Post)
    requires Inv(s) && InTimeOrder(s)
    ensures InTimeOrder(PostTimed(s, p))
  {
    var t := Tick(s, p.now);
    if !p.engaged && t.clock <= p.event.time && s.fired != [] {
      PushHeap(s.heap, p.event);
      InMultiset(s.heap, Push(s.heap, p.event), p.event, LastTime(s));
    }
  }

  /** What posting during an action keeps: the invariants, and the event that is running as the first. */
  lemma {:induction false} PostAllKeeps(s: Timers, posts: seq<Post>)
    requires Inv(s) && Due(s)
    ensures var t := PostAll(s, posts);
            Inv(t) && Due(t) && t.heap[0] == s.heap[0] && t.fired == s.fired && t.clock >= s.clock
    ensures InTimeOrder(s) ==> InTimeOrder(PostAll(s, posts))
    decreases |posts|
  {
    if posts != [] {
      var p := PostTimed(s, posts[0]);
      if !posts[0].engaged && Tick(s, posts[0].now).clock <= posts[0].event.time {
        AddedInv(Tick(s, posts[0].now), posts[0].event);
        PushKeepsRoot(s.heap, posts[0].event);
        PushHeap(s.heap, posts[0].event);
        assert |multiset(p.heap)| == |p.heap|;
      }
      if InTimeOrder(s) {
        PostTimedOrder(s, posts[0]);
      }
      PostAllKeeps(p, posts[1..]);
    }
  }

  /** Popping after the action removes exactly the event that ran, whatever the action posted. */
  lemma PopRemovesTheOneThatRan(s: Timers, posts: seq<Post>)
    requires Inv(s) && Due(s)
    ensures multiset(FireTop(s, posts).heap) == multiset(PostAll(s, posts).heap) - multiset{s.heap[0]}
    ensures s.heap[0] in PostAll(s, posts).heap
  {
    PostAllKeeps(s, posts);
    PopHeap(PostAll(s, posts).heap);
  }

  lemma FireTopInv(s: Timers, posts: seq<Post>)
    requires Inv(s) && Due(s)
    ensures Inv(FireTop(s, posts)) && FireTop(s, posts).clock >= s.clock
  {
    hide PostAll, Pop, IsHeap;
    var t := PostAll(s, posts);
    PostAllKeeps(s, posts);
    PopHeap(t.heap);
    assert (s.fired + [Firing(s.heap[0], s.clock)])[..|s.fired|] == s.fired;
  }

  lemma PoppedNoEarlier(heap: seq<Event>)
    requires IsHeap(heap) && heap != []
    ensures forall i :: 0 <= i < |Pop(heap)| ==> heap[0].time <= Pop(heap)[i].time
  {
    hide Pop;
    var popped := Pop(heap);
    PopHeap(heap);
    forall i | 0 <= i < |popped|
      ensures heap[0].time <= popped[i].time
    {
      assert popped[i] in multiset(popped) && popped[i] in multiset(heap);
      var k :| 0 <= k < |heap| && heap[k] == popped[i];
      RootIsEarliest(heap, k);
    }
  }

  lemma FireTopOrder(s: Timers, posts: seq<Post>)
    requires Inv(s) && Due(s) && InTimeOrder(s)
    ensures InTimeOrder(FireTop(s, posts))
  {
    hide Pop, PostAll, Events;
    PostAllKeeps(s, posts);
    PoppedNoEarlier(PostAll(s, posts).heap);
  }

  lemma {:induction false} CycleInv(s: Timers, turns: seq<Turn>)
    requires Inv(s)
    ensures Inv(Cycle(s, turns)) && Cycle(s, turns).clock >= s.clock
    ensures InTimeOrder(s) ==> InTimeOrder(Cycle(s, turns))
    decreases |turns|
  {
    hide FireTop, IsHeap, Events, PostAll;
    if turns != [] {
      var t := Tick(s, turns[0].now);
      if Due(t) {
        PostAllKeeps(t, turns[0].posts);
        FireTopInv(t, turns[0].posts);
        if InTimeOrder(t) {
          FireTopOrder(t, turns[0].posts);
        }
        CycleInv(FireTop(t, turns[0].posts), turns[1..]);
      }
    }
  }

  // ---- every run --------------------------------------------------------------------------------

  /** A post on the loop's thread, an event handed over by another thread (its time was checked there,
      against an earlier clock), or a cycle. */
  datatype Action = OnThread(post: Post) | HandedOver(event: Event) | FireDue(turns: seq<Turn>)

  function Next(s: Timers, a: Action): Timers {
    match a
    case OnThread(post) => PostTimed(s, post)
    case HandedOver(event) => Added(s, event)
    case FireDue(turns) => Cycle(s, turns)
  }

  function Run(s: Timers, actions: seq<Action>): Timers
    decreases |actions|
  {
    if actions == [] then s else Run(Next(s, actions[0]), actions[1..])
  }

  lemma NextInv(s: Timers, a: Action)
    requires Inv(s)
    ensures Inv(Next(s, a))
    ensures InTimeOrder(s) && !a.HandedOver? ==> InTimeOrder(Next(s, a))
  {
    match a
    case OnThread(post) =>
      AddedInv(Tick(s, post.now), post.event);
      if InTimeOrder(s) {
        PostTimedOrder(s, post);
      }
    case HandedOver(event) => AddedInv(s, event);
    case FireDue(turns) => CycleInv(s, turns);
  }

  lemma {:induction false} RunInv(s: Timers, actions: seq<Action>)
    requires Inv(s)
    ensures Inv(Run(s, actions))
    ensures InTimeOrder(s) && (forall i :: 0 <= i < |actions| ==> !actions[i].HandedOver?) ==> InTimeOrder(Run(s, actions))
    decreases |actions|
  {
    if actions != [] {
      NextInv(s, actions[0]);
      RunInv(Next(s, actions[0]), actions[1..]);
    }
  }

  // ---- which events are accepted ----------------------------------------------------------------

  function Latest(a: nat, b: nat): nat { if a < b then b else a }

  /** The events that are accepted of some posts, and the clock behind them: those that are not in the past
      when they are posted, and find no payload engaged. */
  function Accepts(clock: nat, posts: seq<Post>): (multiset<Event>, nat)
    decreases |posts|
  {
    if posts == [] then (multiset{}, clock)
    else
      var now := Latest(clock, posts[0].now);
      var (others, last) := Accepts(now, posts[1..]);
      ((if !posts[0].engaged && now <= posts[0].event.time then multiset{posts[0].event} else multiset{}) + others, last)
  }

  /** The same for the actions of some rounds, and the clock at the first of them. */
  function AcceptsInRounds(clock: nat, turns: seq<Turn>): (multiset<Event>, nat)
    decreases |turns|
  {
    if turns == [] then (multiset{}, clock)
    else
      var (events, now) := Accepts(Latest(clock, turns[0].now), turns[0].posts);
      var (others, last) := AcceptsInRounds(now, turns[1..]);
      (events + others, last)
  }

  lemma {:induction false} PostsAccepted(s: Timers, posts: seq<Post>)
    ensures var t := PostAll(s, posts);
            && t.posted == s.posted + Accepts(s.clock, posts).0 && t.clock == Accepts(s.clock, posts).1
            && t.fired == s.fired
    decreases |posts|
  {
    if posts != [] {
      PostsAccepted(PostTimed(s, posts[0]), posts[1..]);
    }
  }

  /** The rounds of a firing phase: those that found an event due, up to one whose action fails. */
  function Rounds(s: Timers, turns: seq<Turn>): (n: nat)
    ensures n <= |turns|
    decreases |turns|
  {
    if turns == [] || !Due(Tick(s, turns[0].now)) then 0
    else if !turns[0].ok then 1
    else 1 + Rounds(FireTop(Tick(s, turns[0].now), turns[0].posts), turns[1..])
  }

  lemma FirstRound(s: Timers, turn: Turn)
    requires Due(Tick(s, turn.now))
    ensures var u := Tick(s, turn.now);
            var v := FireTop(u, turn.posts);
            var (events, now) := Accepts(Latest(s.clock, turn.now), turn.posts);
            && v.posted == s.posted + events && v.clock == now
            && v.fired == s.fired + [Firing(u.heap[0], Latest(s.clock, turn.now))]
  {
    hide Pop;
    PostsAccepted(Tick(s, turn.now), turn.posts);
  }

  lemma RoundsSplit(clock: nat, turns: seq<Turn>, k: nat)
    requires 0 < k <= |turns|
    ensures var (events, now) := Accepts(Latest(clock, turns[0].now), turns[0].posts);
            var (others, last) := AcceptsInRounds(now, turns[1..][..k - 1]);
            AcceptsInRounds(clock, turns[..k]) == (events + others, last)
  {
    assert turns[..k][1..] == turns[1..][..k - 1];
  }

  lemma {:induction false} RoundsFire(s: Timers, turns: seq<Turn>)
    ensures var (t, n) := (Cycle(s, turns), Rounds(s, turns));
            && s.fired <= t.fired && |t.fired| == |s.fired| + n
            && t.posted == s.posted + AcceptsInRounds(s.clock, turns[..n]).0
            && (forall k :: 0 <= k && k + 1 < n ==> turns[k].ok)
    decreases |turns|
  {
    if turns != [] && Due(Tick(s, turns[0].now)) {
      var v := FireTop(Tick(s, turns[0].now), turns[0].posts);
      var n := Rounds(s, turns);
      FirstRound(s, turns[0]);
      RoundsSplit(s.clock, turns, n);
      hide FireTop, Due, Accepts;
      if turns[0].ok {
        RoundsFire(v, turns[1..]);
        assert forall k :: 0 < k && k + 1 < n ==> turns[k] == turns[1..][k - 1];
      } else {
        assert turns[1..][..0] == [];
      }
    }
  }

  lemma FirstRead(s: Timers, turns: seq<Turn>)
    requires Rounds(s, turns) > 0
    ensures |s.fired| < |Cycle(s, turns).fired|
    ensures Cycle(s, turns).fired[|s.fired|].at == Latest(AcceptsInRounds(s.clock, turns[..0]).1, turns[0].now)
  {
    FirstRound(s, turns[0]);
    assert turns[..0] == [] && AcceptsInRounds(s.clock, []).1 == s.clock;
    hide FireTop, Due, Accepts;
    if turns[0].ok {
      RoundsFire(FireTop(Tick(s, turns[0].now), turns[0].posts), turns[1..]);
    }
  }

  lemma GoesOn(s: Timers, turns: seq<Turn>) returns (v: Timers)
    requires Rounds(s, turns) > 1
    ensures Cycle(s, turns) == Cycle(v, turns[1..]) && Rounds(s, turns) == 1 + Rounds(v, turns[1..])
    ensures |v.fired| == |s.fired| + 1
    ensures forall k :: 0 < k <= |turns| ==> AcceptsInRounds(v.clock, turns[1..][..k - 1]).1 == AcceptsInRounds(s.clock, turns[..k]).1
  {
    hide FireTop, Due, Accepts, AcceptsInRounds, Tick;
    v := FireTop(Tick(s, turns[0].now), turns[0].posts);
    FirstRound(s, turns[0]);
    forall k | 0 < k <= |turns|
      ensures AcceptsInRounds(v.clock, turns[1..][..k - 1]).1 == AcceptsInRounds(s.clock, turns[..k]).1
    {
      RoundsSplit(s.clock, turns, k);
    }
  }

  lemma {:induction false} RoundsRead(s: Timers, turns: seq<Turn>, k: nat)
    requires k < Rounds(s, turns)
    ensures |s.fired| + k < |Cycle(s, turns).fired|
    ensures Cycle(s, turns).fired[|s.fired| + k].at == Latest(AcceptsInRounds(s.clock, turns[..k]).1, turns[k].now)
    decreases |turns|
  {
    hide *;
    if k == 0 {
      FirstRead(s, turns);
    } else {
      var v := GoesOn(s, turns);
      RoundsRead(v, turns[1..], k - 1);
    }
  }

  lemma {:induction false} RoundsEnd(s: Timers, turns: seq<Turn>)
    requires Rounds(s, turns) < |turns| && (Rounds(s, turns) == 0 || turns[Rounds(s, turns) - 1].ok)
    ensures var (t, n) := (Cycle(s, turns), Rounds(s, turns));
            t.heap == [] || t.heap[0].time > Latest(AcceptsInRounds(s.clock, turns[..n]).1, turns[n].now)
    decreases |turns|
  {
    if Rounds(s, turns) > 0 {
      FirstRound(s, turns[0]);
      RoundsSplit(s.clock, turns, Rounds(s, turns));
      hide FireTop, Due, Accepts;
      RoundsEnd(FireTop(Tick(s, turns[0].now), turns[0].posts), turns[1..]);
    } else {
      assert turns[..0] == [];
    }
  }

  /** What the firing phase does, by its clock readings and what the actions do: each round fires one event
      at the time it reads; a failing action is the last that runs; the events that the actions post are
      accepted; and a phase that no failure ends stops at a reading at which nothing is due. */
  lemma CycleRounds(s: Timers, turns: seq<Turn>)
    ensures var t := Cycle(s, turns);
            var n := |t.fired| - |s.fired|;
            && 0 <= n <= |turns| && s.fired <= t.fired
            && (forall k :: 0 <= k && k + 1 < n ==> turns[k].ok)
            && (forall k :: 0 <= k < n ==> t.fired[|s.fired| + k].at == Latest(AcceptsInRounds(s.clock, turns[..k]).1, turns[k].now))
            && t.posted == s.posted + AcceptsInRounds(s.clock, turns[..n]).0
            && (n < |turns| && (n == 0 || turns[n - 1].ok) ==>
                  t.heap == [] || t.heap[0].time > Latest(AcceptsInRounds(s.clock, turns[..n]).1, turns[n].now))
  {
    hide Cycle, Rounds, AcceptsInRounds;
    var n := Rounds(s, turns);
    RoundsFire(s, turns);
    forall k | 0 <= k < n
      ensures Cycle(s, turns).fired[|s.fired| + k].at == Latest(AcceptsInRounds(s.clock, turns[..k]).1, turns[k].now)
    {
      RoundsRead(s, turns, k);
    }
    if n < |turns| && (n == 0 || turns[n - 1].ok) {
      RoundsEnd(s, turns);
    }
  }

  /** The events accepted by an action, by the clock and how many rounds a firing phase had. */
  function AcceptedBy(s: Timers, a: Action): multiset<Event> {
    match a
    case OnThread(post) => Accepts(s.clock, [post]).0
    case HandedOver(event) => multiset{event}
    case FireDue(turns) =>
      CycleRounds(s, turns);
      AcceptsInRounds(s.clock, turns[..|Cycle(s, turns).fired| - |s.fired|]).0
  }

  function AllAccepted(s: Timers, actions: seq<Action>): multiset<Event>
    decreases |actions|
  {
    if actions == [] then multiset{} else AcceptedBy(s, actions[0]) + AllAccepted(Next(s, actions[0]), actions[1..])
  }

  lemma NextAccepts(s: Timers, a: Action)
    ensures Next(s, a).posted == s.posted + AcceptedBy(s, a)
  {
    match a
    case OnThread(post) =>
      PostsAccepted(s, [post]);
      assert PostAll(PostTimed(s, post), []) == PostTimed(s, post) && [post][1..] == [];
    case HandedOver(event) =>
    case FireDue(turns) => CycleRounds(s, turns);
  }

  lemma {:induction false} RunAccepts(s: Timers, actions: seq<Action>)
    ensures Run(s, actions).posted == s.posted + AllAccepted(s, actions)
    decreases |actions|
  {
    hide Next, AcceptedBy;
    if actions != [] {
      NextAccepts(s, actions[0]);
      RunAccepts(Next(s, actions[0]), actions[1..]);
    }
  }

  /** Over any run, each event that the run's posts make accepted is waiting or has fired exactly once, and none
      fired early; if all posts are made on the loop's thread, events fire in the order of their times. */
  lemma EveryRun(actions: seq<Action>)
    ensures var s := Run(START, actions);
            && AllAccepted(START, actions) == multiset(s.heap) + Events(s.fired)
            && (forall i :: 0 <= i < |s.fired| ==> s.fired[i].event.time <= s.fired[i].at)
            && ((forall i :: 0 <= i < |actions| ==> !actions[i].HandedOver?) ==>
                  forall i, j :: 0 <= i < j < |s.fired| ==> s.fired[i].event.time <= s.fired[j].event.time)
  {
    RunInv(START, actions);
    RunAccepts(START, actions);
  }

  lemma {:induction false} FailsIff(s: Timers, turns: seq<Turn>)
    ensures Fails(s, turns) <==> Rounds(s, turns) > 0 && !turns[Rounds(s, turns) - 1].ok
    decreases |turns|
  {
    hide FireTop;
    if turns != [] && Due(Tick(s, turns[0].now)) && turns[0].ok {
      FailsIff(FireTop(Tick(s, turns[0].now), turns[0].posts), turns[1..]);
    }
  }

  // ---- events handed over too late --------------------------------------------------------------

  /** Handing an event over keeps the order iff nothing later has fired already. */
  predicate InTime(s: Timers, a: Action) {
    a.HandedOver? && s.fired != [] ==> LastTime(s) <= a.event.time
  }

  predicate AllInTime(s: Timers, actions: seq<Action>)
    decreases |actions|
  {
    actions == [] || (InTime(s, actions[0]) && AllInTime(Next(s, actions[0]), actions[1..]))
  }

  lemma HandedOverOrder(s: Timers, e: Event)
    requires Inv(s) && InTimeOrder(s)
    ensures InTimeOrder(Added(s, e)) <==> InTime(s, HandedOver(e))
  {
    PushHeap(s.heap, e);
    var t := Added(s, e);
    if s.fired != [] {
      if LastTime(s) <= e.time {
        InMultiset(s.heap, t.heap, e, LastTime(s));
      } else {
        Waits(t.heap, s.heap, e);
      }
    }
  }

  /** An event of the multiset is at some place of the heap. */
  lemma Waits(heap: seq<Event>, before: seq<Event>, e: Event)
    requires multiset(heap) == multiset(before) + multiset{e}
    ensures exists i :: 0 <= i < |heap| && heap[i] == e
  {
    assert e in multiset(heap);
  }

  lemma NextOrderIff(s: Timers, a: Action)
    requires Inv(s) && InTimeOrder(s)
    ensures InTimeOrder(Next(s, a)) <==> InTime(s, a)
  {
    hide InTimeOrder;
    NextInv(s, a);
    if a.HandedOver? {
      HandedOverOrder(s, a.event);
    }
  }

  /** An event that is late: it waits although a later one has fired. */
  ghost predicate Late(s: Timers, e: Event) {
    s.fired != [] && e in s.heap && e.time < LastTime(s)
  }

  /** Two events fired in the wrong order. */
  ghost predicate Reversed(fired: seq<Firing>) {
    exists i, j :: 0 <= i < j < |fired| && fired[i].event.time > fired[j].event.time
  }

  /** Firing the first event while one is late reverses the order. */
  lemma FireTopReverses(s: Timers, posts: seq<Post>, e: Event)
    requires Inv(s) && Due(s) && Late(s, e)
    ensures Reversed(FireTop(s, posts).fired)
  {
    var k :| 0 <= k < |s.heap| && s.heap[k] == e;
    RootIsEarliest(s.heap, k);
    var fired := FireTop(s, posts).fired;
    assert fired[|s.fired| - 1].event.time > fired[|s.fired|].event.time;
  }

  lemma {:induction false} CycleExtends(s: Timers, turns: seq<Turn>)
    ensures s.fired <= Cycle(s, turns).fired
    decreases |turns|
  {
    hide PostAll, Pop;
    if turns != [] {
      var t := Tick(s, turns[0].now);
      if Due(t) {
        CycleExtends(FireTop(t, turns[0].posts), turns[1..]);
      }
    }
  }

  lemma ReversedExtends(before: seq<Firing>, after: seq<Firing>)
    requires Reversed(before) && before <= after
    ensures Reversed(after)
  {
    var i, j :| 0 <= i < j < |before| && before[i].event.time > before[j].event.time;
    assert after[i] == before[i] && after[j] == before[j];
  }

  lemma LateCycle(s: Timers, turns: seq<Turn>, e: Event)
    requires Inv(s) && Late(s, e)
    ensures Late(Cycle(s, turns), e) || Reversed(Cycle(s, turns).fired)
  {
    hide PostAll, Pop, IsHeap, Events;
    if turns != [] {
      var t := Tick(s, turns[0].now);
      if Due(t) {
        var u := FireTop(t, turns[0].posts);
        FireTopReverses(t, turns[0].posts, e);
        CycleExtends(u, turns[1..]);
        ReversedExtends(u.fired, Cycle(s, turns).fired);
      }
    }
  }

  lemma LateStays(s: Timers, a: Action, e: Event)
    requires Inv(s) && Late(s, e)
    ensures Late(Next(s, a), e) || Reversed(Next(s, a).fired)
  {
    hide Cycle, IsHeap, Push, Events;
    var t := Next(s, a);
    match a
    case OnThread(post) =>
      PushHeap(s.heap, post.event);
      assert e in multiset(s.heap) && multiset(s.heap) <= multiset(t.heap);
    case HandedOver(event) =>
      PushHeap(s.heap, event);
      assert e in multiset(s.heap) && multiset(s.heap) <= multiset(t.heap);
    case FireDue(turns) => LateCycle(s, turns, e);
  }

  lemma LateIsDisorder(s: Timers)
    ensures !InTimeOrder(s) <==> Reversed(s.fired) || exists e :: Late(s, e)
  {
    if !InTimeOrder(s) && !Reversed(s.fired) {
      var i :| 0 <= i < |s.heap| && s.heap[i].time < LastTime(s);
      assert Late(s, s.heap[i]);
    }
  }

  /** What is out of order stays so, whatever happens. */
  lemma DisorderStays(s: Timers, a: Action)
    requires Inv(s) && !InTimeOrder(s)
    ensures !InTimeOrder(Next(s, a))
  {
    hide Next, Inv, InTimeOrder, Reversed, Late;
    LateIsDisorder(s);
    LateIsDisorder(Next(s, a));
    if Reversed(s.fired) {
      ExtendsFired(s, a);
      ReversedExtends(s.fired, Next(s, a).fired);
    } else {
      var e :| Late(s, e);
      LateStays(s, a, e);
    }
  }

  lemma ExtendsFired(s: Timers, a: Action)
    ensures s.fired <= Next(s, a).fired
  {
    if a.FireDue? {
      CycleExtends(s, a.turns);
    }
  }

  lemma {:induction false} DisorderStaysForever(s: Timers, actions: seq<Action>)
    requires Inv(s) && !InTimeOrder(s)
    ensures !InTimeOrder(Run(s, actions))
    decreases |actions|
  {
    hide Inv, InTimeOrder, Next;
    if actions != [] {
      NextInv(s, actions[0]);
      DisorderStays(s, actions[0]);
      DisorderStaysForever(Next(s, actions[0]), actions[1..]);
    }
  }

  lemma {:induction false} RunOrderIff(s: Timers, actions: seq<Action>)
    requires Inv(s) && InTimeOrder(s)
    ensures InTimeOrder(Run(s, actions)) <==> AllInTime(s, actions)
    decreases |actions|
  {
    hide Inv, InTimeOrder, Next, InTime;
    if actions != [] {
      var t := Next(s, actions[0]);
      NextInv(s, actions[0]);
      NextOrderIff(s, actions[0]);
      if InTimeOrder(t) {
        RunOrderIff(t, actions[1..]);
      } else {
        DisorderStaysForever(t, actions[1..]);
      }
    }
  }

  /** Over any run, the events that fired are in the order of their times and none that waits is late iff
      each event handed over by another thread arrived before any later one had fired. */
  lemma OrderKeptIff(actions: seq<Action>)
    ensures InTimeOrder(Run(START, actions)) <==> AllInTime(START, actions)
  {
    RunOrderIff(START, actions);
  }

  /** A run in which an event handed over by another thread fires after a later one. */
  lemma HandedOverOutOfOrder()
    ensures var early, late := Event(1, 0), Event(5, 1);
            var actions := [OnThread(Post(0, late, false)), FireDue([Turn(6, [], true)]), HandedOver(early), FireDue([Turn(6, [], true)])];
            Run(START, actions).fired == [Firing(late, 6), Firing(early, 6)]
  {
    hide Cycle;
    var early, late := Event(1, 0), Event(5, 1);
    var fire := FireDue([Turn(6, [], true)]);
    var first := Timers([late], 0, multiset{late}, []);
    assert Next(START, OnThread(Post(0, late, false))) == first;
    var second := Timers([], 6, multiset{late}, [Firing(late, 6)]);
    CycleOfOne(first, 6);
    assert Next(first, fire) == second;
    var third := Timers([early], 6, multiset{late, early}, [Firing(late, 6)]);
    assert Next(second, HandedOver(early)) == third;
    CycleOfOne(third, 6);
    var fourth := Next(third, fire);
    RunStep(third, fire, []);
    RunStep(second, HandedOver(early), [fire]);
    RunStep(first, fire, [HandedOver(early), fire]);
    RunStep(START, OnThread(Post(0, late, false)), [fire, HandedOver(early), fire]);
    assert [OnThread(Post(0, late, false))] + [fire, HandedOver(early), fire] == [OnThread(Post(0, late, false)), fire, HandedOver(early), fire];
    assert [fire] + [HandedOver(early), fire] == [fire, HandedOver(early), fire];
    assert [HandedOver(early)] + [fire] == [HandedOver(early), fire] && [fire] + [] == [fire];
  }

  lemma RunStep(s: Timers, a: Action, rest: seq<Action>)
    ensures Run(s, [a] + rest) == Run(Next(s, a), rest)
    ensures Run(s, []) == s
  {
    assert ([a] + rest)[1..] == rest;
  }

  lemma CycleOfOne(s: Timers, now: nat)
    requires |s.heap| == 1 && s.heap[0].time <= now && s.clock <= now
    ensures Cycle(s, [Turn(now, [], true)]) == Timers([], now, s.posted, s.fired + [Firing(s.heap[0], now)])
  {
    var t := FireTop(Tick(s, now), []);
    assert PostAll(Tick(s, now), []) == Tick(s, now);
    assert Cycle(t, []) == t;
  }

  /** When the phase ends without an error, no waiting event is due, and all that are due have fired. */
  lemma {:induction false} EndedCycle(s: Timers, turns: seq<Turn>)
    requires Inv(s) && Ends(s, turns)
    ensures var r := Cycle(s, turns);
            && (forall i :: 0 <= i < |r.heap| ==> r.heap[i].time > r.clock)
            && (forall e :: e in r.posted && e.time <= r.clock ==> Events(r.fired)[e] == r.posted[e])
    decreases |turns|
  {
    var t := Tick(s, turns[0].now);
    if !Due(t) {
      forall i | 0 <= i < |t.heap|
        ensures t.heap[i].time > t.clock
      {
        RootIsEarliest(t.heap, i);
      }
      forall e | e in t.posted && e.time <= t.clock
        ensures Events(t.fired)[e] == t.posted[e]
      {
        assert e !in t.heap;
        assert multiset(t.heap)[e] == 0;
      }
    } else {
      FireTopInv(t, turns[0].posts);
      EndedCycle(FireTop(t, turns[0].posts), turns[1..]);
    }
  }

  // ---- the event queue --------------------------------------------------------------------------

  class EventQueue {
    const precisionTimedEvents: TimedEventQueue
    ghost var clock: nat
    ghost var posted: multiset<Event>
    ghost var fired: seq<Firing>

    constructor ()
      ensures fresh(precisionTimedEvents) && Current() == START
    {
      precisionTimedEvents := new TimedEventQueue();
      clock, posted, fired := 0, multiset{}, [];
    }

    ghost function Current(): Timers
      reads this, precisionTimedEvents
    {
      Timers(precisionTimedEvents.events, clock, posted, fired)
    }

    method PostPrecisionTimedAction(now: nat, e: Event, engaged: bool) returns (accepted: bool)
      requires now >= clock
      modifies this, precisionTimedEvents
      ensures Current() == PostTimed(old(Current()), Post(now, e, engaged)) && accepted == (!engaged && now <= e.time)
      ensures posted == old(posted) + (if accepted then multiset{e} else multiset{}) && fired == old(fired)
    {
      clock := now;
      if engaged || now > e.time {
        return false;
      }
      precisionTimedEvents.PushEvent(e);
      posted := posted + multiset{e};
      return true;
    }

    /** The action of an event: the posts it makes. */
    method ApplyAction(posts: seq<Post>)
      requires Rising(clock, posts)
      modifies this, precisionTimedEvents
      ensures Current() == PostAll(old(Current()), posts) && clock == LastReading(old(clock), posts)
    {
      ghost var s := Current();
      assert posts[0..] == posts;
      for i := 0 to |posts|
        invariant PostAll(Current(), posts[i..]) == PostAll(s, posts) && Rising(clock, posts[i..])
        invariant clock == LastReading(s.clock, posts[..i])
      {
        assert posts[i..][0] == posts[i] && posts[i..][1..] == posts[i + 1..];
        var _ := PostPrecisionTimedAction(posts[i].now, posts[i].event, posts[i].engaged);
      }
      assert posts[|posts|..] == [] && posts[..|posts|] == posts;
    }

    /** Runs the action of the first event, which is due, and then pops the first event. */
    method FireFirst(posts: seq<Post>)
      requires Inv(Current()) && Due(Current()) && Rising(clock, posts)
      modifies this, precisionTimedEvents
      ensures Current() == FireTop(old(Current()), posts) && Inv(Current()) && clock == LastReading(old(clock), posts)
    {
      hide PostAll, Inv;
      ghost var t := Current();
      PostAllKeeps(t, posts);
      FireTopInv(t, posts);
      var top := precisionTimedEvents.events[0];
      ApplyAction(posts);
      precisionTimedEvents.PopEvent();
      fired := fired + [Firing(top, t.clock)];
    }

    /** The firing phase; `turns` are the clock readings of its rounds and what the actions do. */
    method FirePrecisionTimedEvents(turns: seq<Turn>) returns (ok: bool)
      requires Inv(Current()) && RisingTurns(clock, turns)
      modifies this, precisionTimedEvents
      ensures Current() == Cycle(old(Current()), turns) && Inv(Current())
      ensures ok == !Fails(old(Current()), turns)
      ensures |fired| == |old(fired)| + Rounds(old(Current()), turns)
      ensures ok == (|fired| == |old(fired)| || turns[|fired| - |old(fired)| - 1].ok)
    {
      hide FireTop, IsHeap, Events, PostAll, Rounds, AcceptsInRounds, Cycle, Fails, Inv;
      ghost var s := Current();
      assert turns[0..] == turns;
      RoundsFire(s, turns);
      FailsIff(s, turns);
      ok := true;
      var i := 0;
      while i < |turns|
        invariant 0 <= i <= |turns| && Inv(Current()) && RisingTurns(clock, turns[i..])
        invariant Cycle(Current(), turns[i..]) == Cycle(s, turns)
        invariant Fails(Current(), turns[i..]) == Fails(s, turns) && ok
        modifies this, precisionTimedEvents
      {
        assert turns[i..][0] == turns[i] && turns[i..][1..] == turns[i + 1..];
        OneTurn(Current(), turns[i..]);
        TickKeeps(Current(), turns[i].now);
        clock := turns[i].now;
        if precisionTimedEvents.events == [] || precisionTimedEvents.events[0].time > turns[i].now {
          return;
        }
        FireFirst(turns[i].posts);
        if !turns[i].ok {
          ok := false;
          return;
        }
        i := i + 1;
      }
      assert turns[|turns|..] == [];
      NoTurns(Current());
    }
  }

  lemma NoTurns(s: Timers)
    ensures Cycle(s, []) == s && !Fails(s, [])
  {
  }

  lemma TickKeeps(s: Timers, now: nat)
    requires Inv(s)
    ensures Inv(Tick(s, now))
  {
  }

  /** One round of the phase. */
  lemma OneTurn(s: Timers, turns: seq<Turn>)
    requires turns != []
    ensures var t := Tick(s, turns[0].now);
            && Cycle(s, turns) == (if !Due(t) then t
                                   else if !turns[0].ok then FireTop(t, turns[0].posts)
                                   else Cycle(FireTop(t, turns[0].posts), turns[1..]))
            && Fails(s, turns) == (Due(t) && (!turns[0].ok || Fails(FireTop(t, turns[0].posts), turns[1..])))
  {
    hide FireTop;
  }

  /** Clock readings that never go back. */
  ghost predicate Rising(clock: nat, posts: seq<Post>)
    decreases |posts|
  {
    posts == [] || (clock <= posts[0].now && Rising(posts[0].now, posts[1..]))
  }

  function LastReading(clock: nat, posts: seq<Post>): nat {
    if posts == [] then clock else posts[|posts| - 1].now
  }

  ghost predicate RisingTurns(clock: nat, turns: seq<Turn>)
    decreases |turns|
  {
    turns == [] || (clock <= turns[0].now && Rising(turns[0].now, turns[0].posts)
                    && RisingTurns(LastReading(turns[0].now, turns[0].posts), turns[1..]))
  }
}
