/** Registration of producer threads with an event queue: each thread that posts is given a slot of its
    own, by an atomic counter that a thread too many overshoots for a moment.  Every atomic access and
    every search of the table is one step; the threads may interleave in any way.
 */
module ProducerRegistry {
  import opened Wrappers

  /** Where a thread is: outside, after a search that did not find it, after the check that there is
      room, after adding to the counter (which gave it an index), about to take the addition back,
      back with an answer, or past the end of the table, which it read at its cached index. */
  datatype Pc =
    | Outside
    | NotFound
    | RoomSeen
    | Issued(index: nat)
    | TooMany
    | Answered(answer: Option<nat>)
    | PastTheEnd

  /** `slots` is the table of thread ids, `activeProducers` the counter, `threads` the position of every
      thread, `issued` every index that was given out, oldest first, and `owners` the threads that got
      them. */
  datatype Registry = Registry(
    slots: seq<Option<nat>>, activeProducers: nat, threads: seq<Pc>, issued: seq<nat>, owners: seq<nat>)

  function Start(capacity: nat, threads: nat): Registry {
    Registry(seq(capacity, _ => None), 0, seq(threads, _ => Outside), [], [])
  }

  /** The first slot of a thread, or the length of the table. */
  function FindIf(slots: seq<Option<nat>>, thread: nat): (i: nat)
    ensures i <= |slots| && (i < |slots| ==> slots[i] == Some(thread))
    ensures forall j :: 0 <= j < i ==> slots[j] != Some(thread)
  {
    if slots == [] || slots[0] == Some(thread) then 0 else 1 + FindIf(slots[1..], thread)
  }

  /** The index cached by the thread, which any queue may have left, is used only below the counter. */
  predicate CacheUsed(r: Registry, cached: Option<nat>) {
    cached.Some? && cached.value < r.activeProducers
  }

  /** The lookup before registration: the slot at the cached index, and then the search. */
  function Lookup(r: Registry, thread: nat, cached: Option<nat>): Option<nat>
    requires CacheUsed(r, cached) ==> cached.value < |r.slots|
  {
    if CacheUsed(r, cached) && r.slots[cached.value] == Some(thread) then cached
    else if FindIf(r.slots, thread) < |r.slots| then Some(FindIf(r.slots, thread))
    else None
  }

  datatype Action = Step(thread: nat, cached: Option<nat>)

  function At(r: Registry, thread: nat, pc: Pc): Registry
    requires thread < |r.threads|
  {
    r.(threads := r.threads[thread := pc])
  }

  function Next(r: Registry, a: Action): Registry {
    var t := a.thread;
    if t >= |r.threads| then r
    else
      match r.threads[t]
      case Outside =>
        if CacheUsed(r, a.cached) && a.cached.value >= |r.slots| then At(r, t, PastTheEnd)
        else
          var found := Lookup(r, t, a.cached);
          At(r, t, if found.Some? then Answered(found) else NotFound)
      case NotFound =>
        At(r, t, if |r.slots| == r.activeProducers then Answered(None) else RoomSeen)
      case RoomSeen =>
        if r.activeProducers >= |r.slots| then At(r, t, TooMany).(activeProducers := r.activeProducers + 1)
        else
          At(r, t, Issued(r.activeProducers))
          .(activeProducers := r.activeProducers + 1, issued := r.issued + [r.activeProducers], owners := r.owners + [t])
      case Issued(index) =>
        if index < |r.slots| then At(r, t, Answered(Some(index))).(slots := r.slots[index := Some(t)]) else r
      case TooMany =>
        if r.activeProducers > 0 then At(r, t, Answered(None)).(activeProducers := r.activeProducers - 1) else r
      case Answered(_) => At(r, t, Outside)
      case PastTheEnd => r
  }

  function Run(r: Registry, actions: seq<Action>): Registry
    decreases |actions|
  {
    if actions == [] then r else Run(Next(r, actions[0]), actions[1..])
  }

  // ---- the invariant ----------------------------------------------------------------------------

  /** The threads that added to the counter in vain and have not taken it back. */
  function Over(threads: seq<Pc>): nat {
    if threads == [] then 0 else (if threads[|threads| - 1] == TooMany then 1 else 0) + Over(threads[..|threads| - 1])
  }

  lemma {:induction false} OverUpdated(threads: seq<Pc>, t: nat, pc: Pc)
    requires t < |threads|
    ensures Over(threads[t := pc])
            == Over(threads) - (if threads[t] == TooMany then 1 else 0) + (if pc == TooMany then 1 else 0)
    decreases |threads|
  {
    var n := |threads| - 1;
    if t == n {
      assert threads[t := pc][..n] == threads[..n];
    } else {
      assert threads[t := pc][..n] == threads[..n][t := pc];
      OverUpdated(threads[..n], t, pc);
    }
  }

  lemma {:induction false} OverPositive(threads: seq<Pc>, t: nat)
    requires t < |threads| && threads[t] == TooMany
    ensures Over(threads) > 0
    decreases |threads|
  {
    if t < |threads| - 1 {
      OverPositive(threads[..|threads| - 1], t);
    }
  }

  /** What a thread's position says about its slot. */
  ghost predicate ThreadOk(r: Registry, t: nat)
    requires t < |r.threads|
  {
    match r.threads[t]
    case Issued(index) =>
      && index < |r.issued| && index < |r.slots| && r.slots[index] == None && Some(t) !in r.slots
      && forall u :: 0 <= u < |r.threads| && u != t ==> r.threads[u] != Issued(index)
    case Answered(answer) =>
      if answer.Some? then answer.value < |r.issued| && answer.value < |r.slots| && r.slots[answer.value] == Some(t)
      else |r.issued| == |r.slots|
    case Outside => true
    case PastTheEnd => true
    case _ => Some(t) !in r.slots
  }

  /** Indices were given out one after another, each once; the counter is ahead of them exactly by the
      threads that will take it back, and only when the table is full. */
  ghost predicate Inv(r: Registry) {
    && |r.issued| <= |r.slots|
    && (forall i :: 0 <= i < |r.issued| ==> r.issued[i] == i)
    && r.activeProducers == |r.issued| + Over(r.threads)
    && (Over(r.threads) > 0 ==> |r.issued| == |r.slots|)
    && (forall i :: |r.issued| <= i < |r.slots| ==> r.slots[i] == None)
    && (forall i, j :: 0 <= i < j < |r.slots| && r.slots[i].Some? ==> r.slots[i] != r.slots[j])
    && (forall t :: 0 <= t < |r.threads| ==> ThreadOk(r, t))
  }

  lemma {:induction false} StartInv(capacity: nat, threads: nat)
    ensures Inv(Start(capacity, threads))
  {
    NoneOver(threads);
  }

  lemma {:induction false} NoneOver(threads: nat)
    ensures Over(seq(threads, _ => Outside)) == 0
  {
    if threads > 0 {
      var s: seq<Pc> := seq(threads, _ => Outside);
      assert s[..threads - 1] == seq(threads - 1, _ => Outside);
      NoneOver(threads - 1);
    }
  }

  lemma LookupFinds(r: Registry, t: nat, cached: Option<nat>)
    requires Inv(r) && (CacheUsed(r, cached) ==> cached.value < |r.slots|)
    ensures Lookup(r, t, cached) == if FindIf(r.slots, t) < |r.slots| then Some(FindIf(r.slots, t)) else None
    ensures Lookup(r, t, cached) == None <==> Some(t) !in r.slots
    ensures Lookup(r, t, cached).Some? ==> var i := Lookup(r, t, cached).value;
              i < |r.issued| && r.slots[i] == Some(t)
  {
    var f := FindIf(r.slots, t);
    if f < |r.slots| {
      assert r.slots[f] == Some(t);
    }
    if Some(t) in r.slots {
      var k :| 0 <= k < |r.slots| && r.slots[k] == Some(t);
      assert f <= k;
    }
  }

  /** A step that moves only one thread, to a position that says nothing about the table. */
  lemma MovedInv(r: Registry, t: nat, pc: Pc, activeProducers: nat)
    requires Inv(r) && t < |r.threads| && !pc.Issued? && !r.threads[t].Issued?
    requires activeProducers == |r.issued| + Over(r.threads[t := pc])
    requires Over(r.threads[t := pc]) > 0 ==> |r.issued| == |r.slots|
    requires ThreadOk(At(r, t, pc), t)
    ensures Inv(At(r, t, pc).(activeProducers := activeProducers))
  {
    var s := At(r, t, pc).(activeProducers := activeProducers);
    forall u | 0 <= u < |s.threads|
      ensures ThreadOk(s, u)
    {
      if u != t {
        assert ThreadOk(r, u);
      }
    }
  }

  lemma IssueInv(r: Registry, t: nat)
    requires Inv(r) && t < |r.threads| && r.threads[t] == RoomSeen && r.activeProducers < |r.slots|
    ensures Inv(Next(r, Step(t, None)))
  {
    var s := Next(r, Step(t, None));
    OverUpdated(r.threads, t, Issued(r.activeProducers));
    assert Over(r.threads) == 0;
    assert ThreadOk(r, t);
    forall v | 0 <= v < |r.threads| && r.threads[v].Issued?
      ensures r.threads[v].index < |r.issued|
    {
      assert ThreadOk(r, v);
    }
    forall u | 0 <= u < |s.threads|
      ensures ThreadOk(s, u)
    {
      assert ThreadOk(r, u);
    }
  }

  lemma StoreInv(r: Registry, t: nat)
    requires Inv(r) && t < |r.threads| && r.threads[t].Issued?
    ensures Inv(Next(r, Step(t, None)))
  {
    var index := r.threads[t].index;
    var s := Next(r, Step(t, None));
    assert ThreadOk(r, t);
    OverUpdated(r.threads, t, Answered(Some(index)));
    forall u | 0 <= u < |s.threads|
      ensures ThreadOk(s, u)
    {
      assert ThreadOk(r, u);
    }
  }

  lemma SearchInv(r: Registry, t: nat, cached: Option<nat>)
    requires Inv(r) && t < |r.threads| && r.threads[t] == Outside
    ensures Inv(Next(r, Step(t, cached)))
  {
    hide Over, Lookup, FindIf;
    if CacheUsed(r, cached) && cached.value >= |r.slots| {
      OverUpdated(r.threads, t, PastTheEnd);
      MovedInv(r, t, PastTheEnd, r.activeProducers);
    } else {
      var found := Lookup(r, t, cached);
      var pc := if found.Some? then Answered(found) else NotFound;
      LookupFinds(r, t, cached);
      OverUpdated(r.threads, t, pc);
      MovedInv(r, t, pc, r.activeProducers);
    }
  }

  lemma CheckInv(r: Registry, t: nat)
    requires Inv(r) && t < |r.threads| && r.threads[t] == NotFound
    ensures Inv(Next(r, Step(t, None)))
  {
    hide Over;
    var pc := if |r.slots| == r.activeProducers then Answered(None) else RoomSeen;
    assert ThreadOk(r, t);
    OverUpdated(r.threads, t, pc);
    MovedInv(r, t, pc, r.activeProducers);
  }

  lemma OvershootInv(r: Registry, t: nat)
    requires Inv(r) && t < |r.threads| && r.threads[t] == RoomSeen && r.activeProducers >= |r.slots|
    ensures Inv(Next(r, Step(t, None)))
  {
    hide Over;
    assert ThreadOk(r, t);
    OverUpdated(r.threads, t, TooMany);
    MovedInv(r, t, TooMany, r.activeProducers + 1);
  }

  lemma TakeBackInv(r: Registry, t: nat)
    requires Inv(r) && t < |r.threads| && r.threads[t] == TooMany
    ensures Inv(Next(r, Step(t, None)))
  {
    hide Over;
    OverPositive(r.threads, t);
    OverUpdated(r.threads, t, Answered(None));
    MovedInv(r, t, Answered(None), r.activeProducers - 1);
  }

  lemma LeaveInv(r: Registry, t: nat)
    requires Inv(r) && t < |r.threads| && r.threads[t].Answered?
    ensures Inv(Next(r, Step(t, None)))
  {
    hide Over;
    OverUpdated(r.threads, t, Outside);
    MovedInv(r, t, Outside, r.activeProducers);
  }

  lemma NextInv(r: Registry, a: Action)
    requires Inv(r)
    ensures Inv(Next(r, a)) && r.issued <= Next(r, a).issued && |Next(r, a).slots| == |r.slots|
  {
    hide Inv, Lookup;
    var t := a.thread;
    if t < |r.threads| {
      match r.threads[t]
      case Outside => SearchInv(r, t, a.cached);
      case NotFound => CheckInv(r, t);
      case RoomSeen =>
        if r.activeProducers >= |r.slots| {
          OvershootInv(r, t);
        } else {
          IssueInv(r, t);
        }
      case Issued(index) => StoreInv(r, t);
      case TooMany => TakeBackInv(r, t);
      case Answered(_) => LeaveInv(r, t);
      case PastTheEnd =>
    }
  }

  lemma {:induction false} RunInv(r: Registry, actions: seq<Action>)
    requires Inv(r)
    ensures Inv(Run(r, actions)) && r.issued <= Run(r, actions).issued && |Run(r, actions).slots| == |r.slots|
    decreases |actions|
  {
    hide Inv, Next;
    if actions != [] {
      NextInv(r, actions[0]);
      RunInv(Next(r, actions[0]), actions[1..]);
    }
  }

  // ---- one registration ------------------------------------------------------------------------

  /** The steps of one thread alone. */
  function Alone(r: Registry, t: nat, cached: Option<nat>, n: nat): Registry
    decreases n
  {
    if n == 0 then r else Alone(Next(r, Step(t, cached)), t, cached, n - 1)
  }

  /** A search that nothing interrupts.  A thread that has a slot is answered with it, and nothing changes; one
      that has none gets the next slot, if the counter says that there is one, and no answer otherwise, with the
      counter as it was. */
  lemma RegistersAlone(r: Registry, t: nat, cached: Option<nat>)
    requires Inv(r) && t < |r.threads| && r.threads[t] == Outside
    requires CacheUsed(r, cached) ==> cached.value < |r.slots|
    ensures if Some(t) in r.slots then
              exists i :: 0 <= i < |r.slots| && r.slots[i] == Some(t) && Alone(r, t, cached, 1) == At(r, t, Answered(Some(i)))
            else if r.activeProducers < |r.slots| then
              var i := r.activeProducers;
              Alone(r, t, cached, 4)
              == At(r, t, Answered(Some(i)))
                 .(slots := r.slots[i := Some(t)], activeProducers := i + 1, issued := r.issued + [i], owners := r.owners + [t])
            else
              Alone(r, t, cached, if r.activeProducers == |r.slots| then 2 else 4) == At(r, t, Answered(None))
  {
    hide Inv, Lookup, FindIf;
    LookupFinds(r, t, cached);
    var first := Next(r, Step(t, cached));
    if Some(t) in r.slots {
      assert Alone(r, t, cached, 1) == Alone(first, t, cached, 0) == first;
    } else {
      assert first == At(r, t, NotFound);
      var second := Next(first, Step(t, cached));
      assert Alone(r, t, cached, 2) == Alone(first, t, cached, 1) == Alone(second, t, cached, 0);
      if r.activeProducers != |r.slots| {
        assert second == At(r, t, RoomSeen);
        var third := Next(second, Step(t, cached));
        var fourth := Next(third, Step(t, cached));
        assert Alone(r, t, cached, 4) == Alone(first, t, cached, 3) == Alone(second, t, cached, 2)
            == Alone(third, t, cached, 1) == Alone(fourth, t, cached, 0);
      }
    }
  }

  // ---- every interleaving -----------------------------------------------------------------------

  /** Whatever the interleaving: an answer is a slot in range that holds the thread's own id, no two
      threads are answered with the same slot, no index is ever issued twice, and a thread is refused only
      when all were issued. */
  lemma EverySchedule(capacity: nat, threads: nat, actions: seq<Action>)
    ensures var r := Run(Start(capacity, threads), actions);
            && (forall t :: 0 <= t < |r.threads| && r.threads[t].Answered? && r.threads[t].answer.Some? ==>
                  r.threads[t].answer.value < |r.slots| && r.slots[r.threads[t].answer.value] == Some(t))
            && (forall t, u :: 0 <= t < u < |r.threads| && r.threads[t].Answered? && r.threads[u].Answered? ==>
                  r.threads[t].answer == None || r.threads[t].answer != r.threads[u].answer)
            && (forall i, j :: 0 <= i < j < |r.issued| ==> r.issued[i] != r.issued[j])
            && |r.issued| <= |r.slots|
            && (forall t :: 0 <= t < |r.threads| && r.threads[t] == Answered(None) ==> |r.issued| == |r.slots|)
  {
    hide Run;
    var r := Run(Start(capacity, threads), actions);
    StartInv(capacity, threads);
    RunInv(Start(capacity, threads), actions);
    forall t | 0 <= t < |r.threads| && r.threads[t].Answered? && r.threads[t].answer.Some?
      ensures r.threads[t].answer.value < |r.slots| && r.slots[r.threads[t].answer.value] == Some(t)
    {
      assert ThreadOk(r, t);
    }
    forall t | 0 <= t < |r.threads| && r.threads[t] == Answered(None)
      ensures |r.issued| == |r.slots|
    {
      assert ThreadOk(r, t);
    }
  }

  /** A cached index, left by any queue at any time, never changes what the lookup answers, the slot
      that the linear search finds, as long as it is an index of this table. */
  lemma CacheIsTransparent(capacity: nat, threads: nat, actions: seq<Action>, thread: nat, cached: Option<nat>)
    requires cached.Some? ==> cached.value < capacity
    ensures var r := Run(Start(capacity, threads), actions);
            |r.slots| == capacity && Lookup(r, thread, cached) == Lookup(r, thread, None)
  {
    hide Run, FindIf;
    var r := Run(Start(capacity, threads), actions);
    StartInv(capacity, threads);
    RunInv(Start(capacity, threads), actions);
    LookupFinds(r, thread, cached);
    LookupFinds(r, thread, None);
  }

  // ---- how far the counter goes -----------------------------------------------------------------

  /** Every index that was given out is held by a thread of its own, which is not about to take an
      addition back. */
  ghost predicate Owned(r: Registry) {
    && |r.owners| == |r.issued|
    && (forall i, j :: 0 <= i < j < |r.owners| ==> r.owners[i] != r.owners[j])
    && (forall i :: 0 <= i < |r.owners| ==> OwnerAt(r, i))
  }

  ghost predicate OwnerAt(r: Registry, i: nat)
    requires i < |r.owners|
  {
    var t := r.owners[i];
    && t < |r.threads| && r.threads[t] != TooMany
    && (r.threads[t] == Issued(i) || (i < |r.slots| && r.slots[i] == Some(t)))
  }

  lemma IssueOwned(r: Registry, t: nat)
    requires Inv(r) && Owned(r) && t < |r.threads| && r.threads[t] == RoomSeen && r.activeProducers < |r.slots|
    ensures Owned(Next(r, Step(t, None)))
  {
    var s := Next(r, Step(t, None));
    assert ThreadOk(r, t);
    forall i | 0 <= i < |s.owners|
      ensures OwnerAt(s, i)
      ensures i < |r.owners| ==> s.owners[i] != t
    {
      if i < |r.owners| {
        assert OwnerAt(r, i);
      }
    }
  }

  lemma NextOwned(r: Registry, a: Action)
    requires Inv(r) && Owned(r)
    ensures Owned(Next(r, a))
  {
    hide Lookup, FindIf;
    var t := a.thread;
    if t < |r.threads| {
      assert ThreadOk(r, t);
      if r.threads[t] == RoomSeen && r.activeProducers < |r.slots| {
        IssueOwned(r, t);
      } else {
        var s := Next(r, a);
        forall i | 0 <= i < |s.owners|
          ensures OwnerAt(s, i)
        {
          assert OwnerAt(r, i);
        }
      }
    }
  }

  lemma {:induction false} RunOwned(r: Registry, actions: seq<Action>)
    requires Inv(r) && Owned(r)
    ensures Owned(Run(r, actions)) && |Run(r, actions).threads| == |r.threads|
    decreases |actions|
  {
    hide Inv, Owned;
    if actions != [] {
      NextInv(r, actions[0]);
      NextOwned(r, actions[0]);
      RunOwned(Next(r, actions[0]), actions[1..]);
    }
  }

  /** The threads that are about to take an addition back. */
  function Overshooters(threads: seq<Pc>): set<nat> {
    set t: nat | t < |threads| && threads[t] == TooMany
  }

  lemma {:induction false} OverCounts(threads: seq<Pc>)
    ensures Over(threads) == |Overshooters(threads)|
    decreases |threads|
  {
    if threads == [] {
      assert Overshooters(threads) == {};
    } else {
      var n := |threads| - 1;
      OverCounts(threads[..n]);
      assert Overshooters(threads) == Overshooters(threads[..n]) + if threads[n] == TooMany then {n as nat} else {};
    }
  }

  function Elements(s: seq<nat>): set<nat> { set i | 0 <= i < |s| :: s[i] }

  lemma {:induction false} ElementsCount(s: seq<nat>)
    requires forall i, j :: 0 <= i < j < |s| ==> s[i] != s[j]
    ensures |Elements(s)| == |s|
    decreases |s|
  {
    if s != [] {
      var n := |s| - 1;
      ElementsCount(s[..n]);
      assert Elements(s) == Elements(s[..n]) + {s[n]};
    }
  }

  lemma {:induction false} SmallSet(s: set<nat>, n: nat)
    requires forall x :: x in s ==> x < n
    ensures |s| <= n
  {
    if n > 0 {
      SmallSet(s - {n - 1}, n - 1);
    } else if x :| x in s {
      assert false;
    }
  }

  /** The owners of indices and the overshooting threads are different threads. */
  lemma CounterBounded(r: Registry)
    requires Inv(r) && Owned(r)
    ensures r.activeProducers <= |r.threads|
  {
    var held, over := Elements(r.owners), Overshooters(r.threads);
    ElementsCount(r.owners);
    OverCounts(r.threads);
    forall i | 0 <= i < |r.owners|
      ensures r.owners[i] < |r.threads| && r.owners[i] !in over
    {
      assert OwnerAt(r, i);
    }
    assert held !! over;
    SmallSet(held + over, |r.threads|);
  }

  lemma CounterOfEveryRun(capacity: nat, threads: nat, actions: seq<Action>)
    ensures var r := Run(Start(capacity, threads), actions);
            && |r.slots| == capacity && r.activeProducers <= threads
            && (capacity == 0 ==> r.activeProducers == 0)
  {
    hide Run;
    var r := Run(Start(capacity, threads), actions);
    StartInv(capacity, threads);
    RunInv(Start(capacity, threads), actions);
    RunOwned(Start(capacity, threads), actions);
    CounterBounded(r);
    if capacity == 0 {
      NobodyPastEmptyTable(Start(0, threads), actions);
    }
  }

  /** A table without slots turns every thread away before it adds to the counter. */
  lemma {:induction false} NobodyPastEmptyTable(r: Registry, actions: seq<Action>)
    requires r.slots == [] && r.activeProducers == 0
    requires forall t :: 0 <= t < |r.threads| ==> r.threads[t] == Outside || r.threads[t] == NotFound || r.threads[t] == Answered(None)
    ensures Run(r, actions).activeProducers == 0
    decreases |actions|
  {
    if actions != [] {
      NobodyPastEmptyTable(Next(r, actions[0]), actions[1..]);
    }
  }

  /** Every thread passes the check for room before any of them adds to the counter. */
  function Rush(from: nat, threads: nat): seq<Action>
    requires from <= threads
    decreases threads - from
  {
    if from == threads then [] else [Step(from, None)] + ([Step(from, None)] + Rush(from + 1, threads))
  }

  function Additions(from: nat, threads: nat): seq<Action>
    requires from <= threads
    decreases threads - from
  {
    if from == threads then [] else [Step(from, None)] + Additions(from + 1, threads)
  }

  lemma RunFirst(r: Registry, a: Action, rest: seq<Action>)
    ensures Run(r, [a] + rest) == Run(Next(r, a), rest)
  {
    assert ([a] + rest)[1..] == rest;
  }

  lemma {:induction false} RunAppends(r: Registry, a: seq<Action>, b: seq<Action>)
    ensures Run(r, a + b) == Run(Run(r, a), b)
    decreases |a|
  {
    if a == [] {
      assert a + b == b;
    } else {
      assert (a + b)[1..] == a[1..] + b;
      RunAppends(Next(r, a[0]), a[1..], b);
    }
  }

  lemma NoThread(capacity: nat, thread: nat)
    ensures FindIf(seq(capacity, _ => None), thread) == capacity
  {
  }

  lemma {:induction false} RushRuns(r: Registry, from: nat)
    requires from <= |r.threads| && |r.slots| > 0 && r.slots == seq(|r.slots|, _ => None) && r.activeProducers == 0
    requires forall t :: 0 <= t < |r.threads| ==> r.threads[t] == if t < from then RoomSeen else Outside
    ensures Run(r, Rush(from, |r.threads|)) == r.(threads := seq(|r.threads|, _ => RoomSeen))
    decreases |r.threads| - from
  {
    hide FindIf;
    if from == |r.threads| {
      assert r.threads == seq(|r.threads|, _ => RoomSeen);
    } else {
      var rest := Rush(from + 1, |r.threads|);
      NoThread(|r.slots|, from);
      var s := Next(r, Step(from, None));
      assert s == At(r, from, NotFound);
      RunFirst(r, Step(from, None), [Step(from, None)] + rest);
      RunFirst(s, Step(from, None), rest);
      RushRuns(Next(s, Step(from, None)), from + 1);
    }
  }

  lemma {:induction false} AdditionsRun(r: Registry, from: nat)
    requires from <= |r.threads| && r.activeProducers == from
    requires forall t :: from <= t < |r.threads| ==> r.threads[t] == RoomSeen
    ensures var s := Run(r, Additions(from, |r.threads|));
            && s.activeProducers == |r.threads| == |s.threads| && |s.slots| == |r.slots|
            && (forall t :: 0 <= t < from ==> s.threads[t] == r.threads[t])
    decreases |r.threads| - from
  {
    if from < |r.threads| {
      RunFirst(r, Step(from, None), Additions(from + 1, |r.threads|));
      AdditionsRun(Next(r, Step(from, None)), from + 1);
    }
  }

  /** With a slot in the table, a schedule on which all threads check for room before any of them adds
      brings the counter to the number of threads; the first of them has its slot then. */
  lemma RushReaches(capacity: nat, threads: nat) returns (schedule: seq<Action>)
    requires capacity > 0 && threads > 0
    ensures var r := Run(Start(capacity, threads), schedule);
            r.activeProducers == threads == |r.threads| && r.threads[0] == Issued(0) && |r.slots| == capacity
  {
    hide Run;
    var r := Start(capacity, threads);
    schedule := Rush(0, threads) + Additions(0, threads);
    RushRuns(r, 0);
    RunAppends(r, Rush(0, threads), Additions(0, threads));
    var waiting := r.(threads := seq(threads, _ => RoomSeen));
    RunFirst(waiting, Step(0, None), Additions(1, threads));
    AdditionsRun(Next(waiting, Step(0, None)), 1);
  }

  /** The event loop polls the slots below the counter: all of them exist on every schedule iff there are
      no more posting threads than slots, or none at all. */
  lemma PollInRangeIff(capacity: nat, threads: nat)
    ensures (forall actions :: Run(Start(capacity, threads), actions).activeProducers <= capacity)
            <==> capacity == 0 || threads <= capacity
  {
    hide Run;
    if capacity == 0 || threads <= capacity {
      forall actions
        ensures Run(Start(capacity, threads), actions).activeProducers <= capacity
      {
        CounterOfEveryRun(capacity, threads, actions);
      }
    } else {
      var schedule := RushReaches(capacity, threads);
      assert Run(Start(capacity, threads), schedule).activeProducers > capacity;
    }
  }

  /** The thread's next lookup reads the table at its cached index, which is not in it. */
  predicate ReadsPastTheEnd(r: Registry, thread: nat, cached: nat) {
    thread < |r.threads| && r.threads[thread] == Outside && CacheUsed(r, Some(cached)) && cached >= |r.slots|
  }

  /** An index left by a larger queue is read past the end of this table on some schedule iff the table
      has a slot and there are more posting threads than the index. */
  lemma CacheReadsPastTheEndIff(capacity: nat, threads: nat, cached: nat)
    requires cached >= capacity
    ensures (exists actions, thread :: ReadsPastTheEnd(Run(Start(capacity, threads), actions), thread, cached))
            <==> capacity > 0 && cached < threads
  {
    hide Run;
    if actions, thread :| ReadsPastTheEnd(Run(Start(capacity, threads), actions), thread, cached) {
      CounterOfEveryRun(capacity, threads, actions);
    }
    if capacity > 0 && cached < threads {
      var schedule := RushReaches(capacity, threads);
      var r := Run(Start(capacity, threads), schedule);
      var step := Step(0, None);
      RunAppends(Start(capacity, threads), schedule, [step] + ([step] + []));
      RunFirst(r, step, [step] + []);
      RunFirst(Next(r, step), step, []);
      RunNothing(Next(Next(r, step), step));
      assert ReadsPastTheEnd(Run(Start(capacity, threads), schedule + ([step] + ([step] + []))), 0, cached);
    }
  }

  lemma RunNothing(r: Registry)
    ensures Run(r, []) == r
  {
  }
}
