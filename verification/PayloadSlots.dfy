/** Payload slots of a cross-thread queue: the producer takes them round robin, the entry that carries a
    slot gives it back by being popped, and nothing records which slots are free.
 */
module PayloadSlots {
  import opened Wrappers

  /** A queued entry: the slot of its payload, and the object built in it; a plain post has neither. */
  datatype Entry = Entry(slot: Option<nat>, item: nat)

  /** `obtained` counts the objects built, `destroyed` lists the destructor calls, and `wasted` the objects
      dropped because a payload was asked for while another was engaged. */
  datatype Queue = Queue(
    capacity: nat, nextActionPayload: nat, preparedEntry: Option<Entry>, queue: seq<Entry>, executing: bool,
    obtained: nat, destroyed: seq<nat>, wasted: seq<nat>)

  function Start(capacity: nat): Queue {
    Queue(capacity, 0, None, [], false, 0, [], [])
  }

  /** The producer's two calls, each of which waits for room, and the consumer's two steps: running the
      front entry, which destroys its payload object, and popping it. */
  datatype Action = GetNextActionObject | Push | ExecuteFront | PopFront

  function Next(q: Queue, a: Action): Queue {
    match a
    case GetNextActionObject =>
      if |q.queue| >= q.capacity then q
      else if q.preparedEntry.Some? then q.(preparedEntry := None, wasted := q.wasted + [q.preparedEntry.value.item])
      else
        q.(nextActionPayload := (q.nextActionPayload + 1) % q.capacity,
           preparedEntry := Some(Entry(Some(q.nextActionPayload), q.obtained)),
           obtained := q.obtained + 1)
    case Push =>
      if |q.queue| >= q.capacity then q
      else if q.preparedEntry.Some? then q.(queue := q.queue + [q.preparedEntry.value], preparedEntry := None)
      else q.(queue := q.queue + [Entry(None, 0)])
    case ExecuteFront =>
      if q.queue == [] || q.executing then q
      else q.(executing := true, destroyed := if q.queue[0].slot.Some? then q.destroyed + [q.queue[0].item] else q.destroyed)
    case PopFront =>
      if q.queue == [] || !q.executing then q else q.(queue := q.queue[1..], executing := false)
  }

  function Run(q: Queue, actions: seq<Action>): Queue
    decreases |actions|
  {
    if actions == [] then q else Run(Next(q, actions[0]), actions[1..])
  }

  // ---- the invariant ----------------------------------------------------------------------------

  /** The entries with payloads, oldest first, and the engaged one behind them. */
  function Carriers(entries: seq<Entry>): seq<Entry> {
    if entries == [] then []
    else Carriers(entries[..|entries| - 1]) + if entries[|entries| - 1].slot.Some? then [entries[|entries| - 1]] else []
  }

  function Engaged(q: Queue): seq<Entry> {
    q.queue + if q.preparedEntry.Some? then [q.preparedEntry.value] else []
  }

  function Held(q: Queue): seq<Entry> { Carriers(Engaged(q)) }

  function Items(entries: seq<Entry>): seq<nat> {
    seq(|entries|, i requires 0 <= i < |entries| => entries[i].item)
  }

  lemma {:induction false} CarriersAppend(a: seq<Entry>, b: seq<Entry>)
    ensures Carriers(a + b) == Carriers(a) + Carriers(b)
    decreases |b|
  {
    if b == [] {
      assert a + b == a;
    } else {
      var n := |b| - 1;
      assert (a + b)[..|a + b| - 1] == a + b[..n];
      CarriersAppend(a, b[..n]);
    }
  }

  lemma CarriersOne(e: Entry)
    ensures Carriers([e]) == if e.slot.Some? then [e] else []
  {
    assert [e][..0] == [];
  }

  lemma {:induction false} CarriersFewer(entries: seq<Entry>)
    ensures |Carriers(entries)| <= |entries|
  {
    if entries != [] {
      CarriersFewer(entries[..|entries| - 1]);
    }
  }

  /** The front entry is executing, and its object is destroyed already. */
  predicate Running(q: Queue) {
    q.executing && q.queue != [] && q.queue[0].slot.Some?
  }

  /** The objects that are not wasted, oldest first: those of entries that are gone, and those held. */
  function Kept(q: Queue): seq<nat>
    requires Running(q) ==> q.destroyed != []
  {
    (if Running(q) then q.destroyed[..|q.destroyed| - 1] else q.destroyed) + Items(Held(q))
  }

  ghost predicate Rising(s: seq<nat>, bound: nat) {
    && (forall i, j :: 0 <= i < j < |s| ==> s[i] < s[j])
    && (forall i :: 0 <= i < |s| ==> s[i] < bound)
  }

  ghost predicate Apart(s: seq<nat>, t: seq<nat>) {
    forall i, j :: 0 <= i < |s| && 0 <= j < |t| ==> s[i] != t[j]
  }

  /** Each object built is kept or wasted, in the order they were built. */
  ghost predicate Accounted(kept: seq<nat>, wasted: seq<nat>, obtained: nat) {
    Rising(kept, obtained) && Rising(wasted, obtained) && Apart(kept, wasted) && |kept| + |wasted| == obtained
  }

  /** Each payload is in the slot of its turn. */
  ghost predicate InTurn(entries: seq<Entry>, capacity: nat)
    requires capacity > 0
  {
    forall i :: 0 <= i < |entries| && entries[i].slot.Some? ==> entries[i].slot == Some(entries[i].item % capacity)
  }

  ghost predicate Inv(q: Queue) {
    && q.capacity > 0 && |q.queue| <= q.capacity && (q.executing ==> q.queue != [])
    && (q.preparedEntry.Some? ==> q.preparedEntry.value.slot.Some? && q.preparedEntry.value.item == q.obtained - 1)
    && (Running(q) ==> q.destroyed != [] && q.destroyed[|q.destroyed| - 1] == q.queue[0].item)
    && q.nextActionPayload == q.obtained % q.capacity
    && InTurn(Engaged(q), q.capacity)
    && Accounted(Kept(q), q.wasted, q.obtained)
  }

  lemma StartInv(capacity: nat)
    requires capacity > 0
    ensures Inv(Start(capacity))
  {
  }

  lemma NextTurn(n: nat, capacity: nat)
    requires capacity > 0
    ensures (n % capacity + 1) % capacity == (n + 1) % capacity
  {
    var k := n / capacity;
    assert n == capacity * k + n % capacity;
    if n % capacity + 1 < capacity {
      RemainderUnique(n + 1, k, n % capacity + 1, capacity);
      RemainderUnique(n % capacity + 1, 0, n % capacity + 1, capacity);
    } else {
      RemainderUnique(n + 1, k + 1, 0, capacity);
      RemainderUnique(n % capacity + 1, 1, 0, capacity);
    }
  }

  lemma RemainderUnique(n: nat, k: nat, r: nat, capacity: nat)
    requires n == capacity * k + r && r < capacity
    ensures n % capacity == r
  {
    var d := k - n / capacity;
    assert n == capacity * (n / capacity) + n % capacity;
    assert capacity * d == n % capacity - r;
    MultipleTooLarge(d, capacity);
    MultipleTooLarge(-d, capacity);
  }

  lemma MultipleTooLarge(k: int, capacity: nat)
    requires capacity > 0
    ensures k * capacity <= 0 || k * capacity >= capacity
  {
    if k >= 1 {
      assert k * capacity == (k - 1) * capacity + capacity;
    }
  }

  lemma ItemsAppend(a: seq<Entry>, b: seq<Entry>)
    ensures Items(a + b) == Items(a) + Items(b)
  {
  }

  /** What the engaged entry adds to the objects held. */
  lemma HeldSplits(q: Queue)
    requires q.preparedEntry.Some? ==> q.preparedEntry.value.slot.Some?
    ensures Held(q) == Carriers(q.queue) + if q.preparedEntry.Some? then [q.preparedEntry.value] else []
  {
    if q.preparedEntry.Some? {
      CarriersAppend(q.queue, [q.preparedEntry.value]);
      CarriersOne(q.preparedEntry.value);
    } else {
      assert Engaged(q) == q.queue;
    }
  }

  lemma GetInv(q: Queue)
    requires Inv(q) && |q.queue| < q.capacity && q.preparedEntry == None
    ensures Inv(Next(q, GetNextActionObject))
  {
    hide Carriers;
    var p := Next(q, GetNextActionObject);
    var e := p.preparedEntry.value;
    HeldSplits(q);
    HeldSplits(p);
    ItemsAppend(Carriers(q.queue), [e]);
    assert Carriers(q.queue) + [] == Carriers(q.queue);
    assert Kept(p) == Kept(q) + [q.obtained];
    OneMore(Kept(q), q.wasted, q.obtained);
    NextTurn(q.obtained, q.capacity);
    InTurnAppends(Engaged(q), e, q.capacity);
    assert Engaged(p) == Engaged(q) + [e];
  }

  lemma InTurnAppends(entries: seq<Entry>, e: Entry, capacity: nat)
    requires capacity > 0
    ensures InTurn(entries + [e], capacity) <==> InTurn(entries, capacity) && (e.slot.Some? ==> e.slot == Some(e.item % capacity))
  {
    var all := entries + [e];
    assert all[|entries|] == e;
    assert forall i :: 0 <= i < |entries| ==> all[i] == entries[i];
  }

  lemma OneMore(kept: seq<nat>, wasted: seq<nat>, obtained: nat)
    requires Accounted(kept, wasted, obtained)
    ensures Accounted(kept + [obtained], wasted, obtained + 1)
  {
  }

  lemma WasteInv(q: Queue)
    requires Inv(q) && |q.queue| < q.capacity && q.preparedEntry.Some?
    ensures Inv(Next(q, GetNextActionObject))
  {
    hide Carriers;
    var p := Next(q, GetNextActionObject);
    var e := q.preparedEntry.value;
    HeldSplits(q);
    HeldSplits(p);
    ItemsAppend(Carriers(q.queue), [e]);
    assert Carriers(q.queue) + [] == Carriers(q.queue);
    assert Kept(q) == Kept(p) + [e.item];
    LastWasted(Kept(p), e.item, q.wasted, q.obtained);
    InTurnAppends(q.queue, e, q.capacity);
    assert Engaged(p) == q.queue && Engaged(q) == q.queue + [e];
  }

  /** The last object built is wasted after all. */
  lemma LastWasted(kept: seq<nat>, item: nat, wasted: seq<nat>, obtained: nat)
    requires Accounted(kept + [item], wasted, obtained) && item == obtained - 1
    ensures Accounted(kept, wasted + [item], obtained)
  {
    var all := kept + [item];
    assert all[|kept|] == item;
    assert forall i :: 0 <= i < |kept| ==> all[i] == kept[i];
  }

  lemma PushInv(q: Queue)
    requires Inv(q) && |q.queue| < q.capacity
    ensures Inv(Next(q, Push))
  {
    hide Carriers;
    var p := Next(q, Push);
    if q.preparedEntry == None {
      CarriersAppend(q.queue, [Entry(None, 0)]);
      CarriersOne(Entry(None, 0));
      assert Engaged(q) == q.queue && Engaged(p) == q.queue + [Entry(None, 0)];
    } else {
      assert Engaged(p) == Engaged(q);
    }
    assert Held(p) == Held(q);
    assert Kept(p) == Kept(q);
  }

  /** Taking the front entry off: its payload, if it has one, is the oldest held. */
  lemma FrontCarrier(q: Queue)
    requires q.queue != []
    ensures Held(q) == (if q.queue[0].slot.Some? then [q.queue[0]] else []) + Carriers(q.queue[1..] + Engaged(q)[|q.queue|..])
  {
    assert Engaged(q) == [q.queue[0]] + (q.queue[1..] + Engaged(q)[|q.queue|..]);
    CarriersAppend([q.queue[0]], q.queue[1..] + Engaged(q)[|q.queue|..]);
    CarriersOne(q.queue[0]);
  }

  lemma ExecuteInv(q: Queue)
    requires Inv(q) && q.queue != [] && !q.executing
    ensures Inv(Next(q, ExecuteFront))
  {
    hide Carriers;
    var p := Next(q, ExecuteFront);
    assert Held(p) == Held(q);
    if q.queue[0].slot.Some? {
      assert p.destroyed[..|p.destroyed| - 1] == q.destroyed;
    }
    assert Kept(p) == Kept(q);
  }

  lemma PopInv(q: Queue)
    requires Inv(q) && q.queue != [] && q.executing
    ensures Inv(Next(q, PopFront))
  {
    hide Carriers;
    var p := Next(q, PopFront);
    FrontCarrier(q);
    assert Engaged(p) == q.queue[1..] + Engaged(q)[|q.queue|..];
    assert forall i :: 0 <= i < |Engaged(p)| ==> Engaged(p)[i] == Engaged(q)[i + 1];
    if q.queue[0].slot.Some? {
      ItemsAppend([q.queue[0]], Held(p));
      assert q.destroyed == q.destroyed[..|q.destroyed| - 1] + [q.queue[0].item];
    } else {
      assert [] + Held(p) == Held(p);
    }
    assert Kept(p) == Kept(q);
  }

  predicate Room(q: Queue) { |q.queue| < q.capacity }

  lemma NextInv(q: Queue, a: Action)
    requires Inv(q)
    ensures Inv(Next(q, a)) && q.wasted <= Next(q, a).wasted
  {
    hide Inv, Held;
    match a
    case GetNextActionObject =>
      if Room(q) {
        if q.preparedEntry == None {
          GetInv(q);
        } else {
          WasteInv(q);
        }
      }
    case Push =>
      if Room(q) {
        PushInv(q);
      }
    case ExecuteFront =>
      if q.queue != [] && !q.executing {
        ExecuteInv(q);
      }
    case PopFront =>
      if q.queue != [] && q.executing {
        PopInv(q);
      }
  }

  lemma {:induction false} RunInv(q: Queue, actions: seq<Action>)
    requires Inv(q)
    ensures Inv(Run(q, actions)) && q.wasted <= Run(q, actions).wasted && Run(q, actions).capacity == q.capacity
    decreases |actions|
  {
    hide Inv;
    if actions != [] {
      NextInv(q, actions[0]);
      RunInv(Next(q, actions[0]), actions[1..]);
    }
  }

  // ---- every run --------------------------------------------------------------------------------

  /** Over any run with any mix of posts: objects are destroyed in the order they were built, each at
      most once, and a wasted one never; when nothing is queued or engaged, all are destroyed iff none
      was wasted. */
  lemma EveryRun(capacity: nat, actions: seq<Action>)
    requires capacity > 0
    ensures var q := Run(Start(capacity), actions);
            && (forall i, j :: 0 <= i < j < |q.destroyed| ==> q.destroyed[i] < q.destroyed[j])
            && (forall i, j :: 0 <= i < |q.destroyed| && 0 <= j < |q.wasted| ==> q.destroyed[i] != q.wasted[j])
            && (q.queue == [] && q.preparedEntry == None ==>
                  && |q.destroyed| + |q.wasted| == q.obtained
                  && (|q.destroyed| == q.obtained <==> q.wasted == []))
  {
    hide Run;
    var q := Run(Start(capacity), actions);
    StartInv(capacity);
    RunInv(Start(capacity), actions);
    DestroyedKept(q);
  }

  /** The destroyed objects are the oldest of those kept. */
  lemma DestroyedKept(q: Queue)
    requires Inv(q)
    ensures q.destroyed <= Kept(q)
    ensures q.queue == [] && q.preparedEntry == None ==> q.destroyed == Kept(q)
  {
    if Running(q) {
      FrontCarrier(q);
      assert Items(Held(q))[0] == q.queue[0].item;
      assert q.destroyed == q.destroyed[..|q.destroyed| - 1] + [q.queue[0].item];
    }
  }

  /** The slot handed out next is that of a queued or executing entry. */
  predicate Aliases(q: Queue, i: nat) {
    Room(q) && q.preparedEntry == None && i < |q.queue| && q.queue[i].slot == Some(q.nextActionPayload)
  }

  /** In any run, an entry's slot is handed out again while it is queued iff a multiple of `capacity`
      payloads was obtained since its own, that one included. */
  lemma AliasesIff(capacity: nat, actions: seq<Action>, i: nat)
    requires capacity > 0
    ensures var q := Run(Start(capacity), actions);
            Room(q) && q.preparedEntry == None && i < |q.queue| && q.queue[i].slot.Some? ==>
              && q.queue[i].item < q.obtained
              && (Aliases(q, i) <==> (q.obtained - q.queue[i].item) % capacity == 0)
  {
    hide Run;
    var q := Run(Start(capacity), actions);
    StartInv(capacity);
    RunInv(Start(capacity), actions);
    if Room(q) && q.preparedEntry == None && i < |q.queue| && q.queue[i].slot.Some? {
      var k := QueuedIsKept(q, i);
      assert Engaged(q)[i] == q.queue[i];
      SameTurnIff(q.queue[i].item, q.obtained, capacity);
    }
  }

  /** An entry of the queue, among the objects kept: not further from the end than in the queue. */
  lemma QueuedIsKept(q: Queue, i: nat) returns (k: nat)
    requires Inv(q) && q.preparedEntry == None && i < |q.queue| && q.queue[i].slot.Some?
    ensures k < |Kept(q)| <= k + |q.queue| && Kept(q)[k] == q.queue[i].item
  {
    var c := CarrierIndex(q.queue, i);
    CarriersFewer(q.queue);
    assert Engaged(q) == q.queue;
    k := |Kept(q)| - |Held(q)| + c;
    assert Items(Held(q))[c] == q.queue[i].item;
  }

  lemma {:induction false} CarrierIndex(entries: seq<Entry>, i: nat) returns (k: nat)
    requires i < |entries| && entries[i].slot.Some?
    ensures k < |Carriers(entries)| && Carriers(entries)[k] == entries[i]
  {
    if i == |entries| - 1 {
      k := |Carriers(entries)| - 1;
    } else {
      k := CarrierIndex(entries[..|entries| - 1], i);
    }
  }

  lemma SameTurnIff(a: nat, b: nat, capacity: nat)
    requires a < b && capacity > 0
    ensures a % capacity == b % capacity <==> (b - a) % capacity == 0
  {
    if (b - a) % capacity == 0 {
      LaterSameTurn(a, b, capacity);
    }
    if a % capacity == b % capacity {
      SameTurnApart(a, b, capacity);
    }
  }

  lemma LaterSameTurn(a: nat, b: nat, capacity: nat)
    requires a < b && capacity > 0 && (b - a) % capacity == 0
    ensures a % capacity == b % capacity
  {
    var p, q := a / capacity, (b - a) / capacity;
    assert a == capacity * p + a % capacity && b - a == capacity * q;
    assert capacity * (p + q) == capacity * p + capacity * q;
    RemainderUnique(b, p + q, a % capacity, capacity);
  }

  lemma SameTurnApart(a: nat, b: nat, capacity: nat)
    requires a < b && capacity > 0 && a % capacity == b % capacity
    ensures (b - a) % capacity == 0
  {
    var p, q := a / capacity, b / capacity;
    assert a == capacity * p + a % capacity && b == capacity * q + b % capacity;
    assert capacity * (q - p) == capacity * q - capacity * p;
    MultipleTooLarge(q - p, capacity);
    RemainderUnique(b - a, q - p, 0, capacity);
  }

  /** Kept objects are numbered without gaps when none is wasted. */
  lemma {:induction false} NoGaps(kept: seq<nat>, bound: nat, i: nat)
    requires Rising(kept, bound) && |kept| == bound && i < |kept|
    ensures kept[i] == i
  {
    AtLeastIndex(kept, i);
    AtMostIndex(kept, bound, i);
  }

  lemma {:induction false} AtLeastIndex(s: seq<nat>, i: nat)
    requires i < |s| && forall j, k :: 0 <= j < k < |s| ==> s[j] < s[k]
    ensures s[i] >= i
  {
    if i > 0 {
      AtLeastIndex(s, i - 1);
    }
  }

  lemma {:induction false} AtMostIndex(s: seq<nat>, bound: nat, i: nat)
    requires Rising(s, bound) && |s| == bound && i < |s|
    ensures s[i] <= i
    decreases |s| - i
  {
    if i < |s| - 1 {
      AtMostIndex(s, bound, i + 1);
    }
  }

  /** As long as no payload is wasted, in any interleaving with any mix of posts: the slot handed out
      next is not used by any entry that is queued or executing, and the objects are destroyed in the
      order they were built, without exception. */
  lemma WithoutWaste(capacity: nat, actions: seq<Action>)
    requires capacity > 0 && Run(Start(capacity), actions).wasted == []
    ensures var q := Run(Start(capacity), actions);
            && (forall i :: 0 <= i < |q.queue| ==> !Aliases(q, i))
            && (forall i :: 0 <= i < |q.destroyed| ==> q.destroyed[i] == i)
  {
    hide Run;
    var q := Run(Start(capacity), actions);
    StartInv(capacity);
    RunInv(Start(capacity), actions);
    forall i | 0 <= i < |q.queue|
      ensures !Aliases(q, i)
    {
      if Aliases(q, i) {
        SlotFree(q, i);
      }
    }
    DestroyedKept(q);
    forall i | 0 <= i < |q.destroyed|
      ensures q.destroyed[i] == i
    {
      NoGaps(Kept(q), q.obtained, i);
    }
  }

  lemma SlotFree(q: Queue, i: nat)
    requires Inv(q) && q.wasted == [] && Room(q) && q.preparedEntry == None && i < |q.queue|
    ensures q.queue[i].slot != Some(q.nextActionPayload)
  {
    if q.queue[i].slot.Some? {
      var k := QueuedIsKept(q, i);
      NoGaps(Kept(q), q.obtained, k);
      assert Engaged(q)[i] == q.queue[i];
      SameTurnIff(k, q.obtained, q.capacity);
      assert 0 < q.obtained - k < q.capacity;
      RemainderUnique(q.obtained - k, 0, q.obtained - k, q.capacity);
    }
  }

  // ---- wasted payloads --------------------------------------------------------------------------

  /** Two requests in a row, of which the second wastes the payload of the first. */
  function Wasting(times: nat): seq<Action> {
    if times == 0 then [] else [GetNextActionObject] + ([GetNextActionObject] + Wasting(times - 1))
  }

  lemma RunFirst(q: Queue, a: Action, rest: seq<Action>)
    ensures Run(q, [a] + rest) == Run(Next(q, a), rest)
  {
    assert ([a] + rest)[1..] == rest;
  }

  lemma {:induction false} WastingRuns(q: Queue, times: nat)
    requires Room(q) && q.preparedEntry == None && q.capacity > 0 && q.nextActionPayload == q.obtained % q.capacity
    ensures var p := Run(q, Wasting(times));
            && p.queue == q.queue && p.preparedEntry == None && p.capacity == q.capacity
            && p.obtained == q.obtained + times && p.nextActionPayload == p.obtained % p.capacity
    decreases times
  {
    if times > 0 {
      var get := GetNextActionObject;
      RunFirst(q, get, [get] + Wasting(times - 1));
      RunFirst(Next(q, get), get, Wasting(times - 1));
      NextTurn(q.obtained, q.capacity);
      WastingRuns(Next(Next(q, get), get), times - 1);
    }
  }

  /** With two slots or more, payloads can be wasted until the slot of a queued entry is handed out
      again; with one, an entry that is queued leaves no room. */
  lemma AliasReachableIff(capacity: nat)
    ensures (exists actions, i :: Aliases(Run(Start(capacity), actions), i)) <==> capacity >= 2
  {
    hide Run;
    if actions, i :| Aliases(Run(Start(capacity), actions), i) {
      CapacityStays(Start(capacity), actions);
    }
    if capacity >= 2 {
      var get, q := GetNextActionObject, Next(Next(Start(capacity), GetNextActionObject), Push);
      var schedule := [get] + ([Push] + Wasting(capacity - 1));
      RemainderUnique(0, 0, 0, capacity);
      RemainderUnique(1, 0, 1, capacity);
      RunFirst(Start(capacity), get, [Push] + Wasting(capacity - 1));
      RunFirst(Next(Start(capacity), get), Push, Wasting(capacity - 1));
      WastingRuns(q, capacity - 1);
      RemainderUnique(capacity, 1, 0, capacity);
      assert Aliases(Run(Start(capacity), schedule), 0);
    }
  }

  lemma {:induction false} CapacityStays(q: Queue, actions: seq<Action>)
    ensures Run(q, actions).capacity == q.capacity
    decreases |actions|
  {
    if actions != [] {
      CapacityStays(Next(q, actions[0]), actions[1..]);
    }
  }

  // ---- entries in the order they were pushed ----------------------------------------------------

  /** What an action pushes, if there is room: the engaged entry or a plain one. */
  function PushedBy(q: Queue, a: Action): seq<Entry> {
    if !a.Push? || |q.queue| >= q.capacity then []
    else if q.preparedEntry.Some? then [q.preparedEntry.value]
    else [Entry(None, 0)]
  }

  function PushedIn(q: Queue, actions: seq<Action>): seq<Entry>
    decreases |actions|
  {
    if actions == [] then [] else PushedBy(q, actions[0]) + PushedIn(Next(q, actions[0]), actions[1..])
  }

  /** How many entries are popped: the front one each time, after it was executed. */
  function PoppedBy(q: Queue, a: Action): nat {
    if a.PopFront? && q.executing && q.queue != [] then 1 else 0
  }

  function PoppedIn(q: Queue, actions: seq<Action>): nat
    decreases |actions|
  {
    if actions == [] then 0 else PoppedBy(q, actions[0]) + PoppedIn(Next(q, actions[0]), actions[1..])
  }

  lemma NextIsFifo(q: Queue, a: Action)
    ensures PoppedBy(q, a) <= |q.queue|
    ensures Next(q, a).queue == q.queue[PoppedBy(q, a)..] + PushedBy(q, a)
  {
  }

  lemma DropsAdd<T>(s: seq<T>, m: nat, t: seq<T>, u: seq<T>, n: nat)
    requires m <= |s| && n <= |s[m..] + t + u|
    ensures m + n <= |s + (t + u)| && (s[m..] + t + u)[n..] == (s + (t + u))[m + n..]
  {
  }

  /** Over any run: what is queued is what was queued and pushed, less what was popped, oldest first. */
  lemma {:induction false} RunIsFifo(q: Queue, actions: seq<Action>)
    ensures var all := q.queue + PushedIn(q, actions);
            PoppedIn(q, actions) <= |all| && Run(q, actions).queue == all[PoppedIn(q, actions)..]
    decreases |actions|
  {
    hide Next, PushedBy, PoppedBy;
    if actions == [] {
      assert q.queue + [] == q.queue && q.queue[0..] == q.queue;
    } else {
      var p := Next(q, actions[0]);
      NextIsFifo(q, actions[0]);
      RunIsFifo(p, actions[1..]);
      DropsAdd(q.queue, PoppedBy(q, actions[0]), PushedBy(q, actions[0]), PushedIn(p, actions[1..]), PoppedIn(p, actions[1..]));
    }
  }

  /** A payload that is asked for while there is room and none is engaged goes into the next slot in turn, is
      pushed by the next post, and destroyed when the entries ahead of it are gone. */
  lemma PayloadsGoOn(q: Queue)
    requires Inv(q) && Room(q) && q.preparedEntry == None
    ensures var got := Next(q, GetNextActionObject);
            var pushed := Next(got, Push);
            && got.preparedEntry == Some(Entry(Some(q.obtained % q.capacity), q.obtained)) && got.obtained == q.obtained + 1
            && pushed.queue == q.queue + [Entry(Some(q.obtained % q.capacity), q.obtained)] && pushed.preparedEntry == None
            && (q.queue == [] ==> Next(pushed, ExecuteFront).destroyed == q.destroyed + [q.obtained])
  {
  }

  // ---- the queue in place -----------------------------------------------------------------------

  /** Both producer calls wait until the queue has room; they are taken from the moment it has. */
  class ThreadSpecificQueue {
    const capacity: nat
    var nextActionPayload: nat
    var preparedEntry: Option<Entry>
    var entries: seq<Entry>
    ghost var executing: bool
    ghost var destroyed: seq<nat>
    ghost var wasted: seq<nat>
    var obtained: nat

    constructor (capacity: nat)
      ensures this.capacity == capacity && Current() == Start(capacity)
    {
      this.capacity := capacity;
      nextActionPayload, preparedEntry, entries, obtained := 0, None, [], 0;
      executing, destroyed, wasted := false, [], [];
    }

    ghost function Current(): Queue
      reads this
    {
      Queue(capacity, nextActionPayload, preparedEntry, entries, executing, obtained, destroyed, wasted)
    }

    /** The slot for a new payload object; None when another is engaged already. */
    method GetNextActionObject() returns (slot: Option<nat>)
      requires Room(Current())
      modifies this
      ensures Current() == Next(old(Current()), Action.GetNextActionObject)
      ensures slot == if old(preparedEntry) == None then Some(old(nextActionPayload)) else None
      ensures preparedEntry == (if slot.Some? then Some(Entry(slot, old(obtained))) else None) && entries == old(entries)
    {
      if preparedEntry.Some? {
        wasted := wasted + [preparedEntry.value.item];
        preparedEntry := None;
        return None;
      }
      slot := Some(nextActionPayload);
      nextActionPayload := (nextActionPayload + 1) % capacity;
      preparedEntry := Some(Entry(slot, obtained));
      obtained := obtained + 1;
    }

    method Push()
      requires Room(Current())
      modifies this
      ensures Current() == Next(old(Current()), Action.Push)
      ensures entries == old(entries) + [if old(preparedEntry).Some? then old(preparedEntry).value else Entry(None, 0)]
      ensures preparedEntry == None
    {
      if preparedEntry.Some? {
        entries := entries + [preparedEntry.value];
        preparedEntry := None;
        return;
      }
      entries := entries + [Entry(None, 0)];
    }

    /** The consumer's turn: runs the front entry, destroys its payload object, and pops it. */
    method RunFront()
      requires entries != [] && !executing
      modifies this
      ensures Current() == Next(Next(old(Current()), ExecuteFront), PopFront)
      ensures entries == old(entries)[1..]
      ensures destroyed == old(destroyed) + if old(entries)[0].slot.Some? then [old(entries)[0].item] else []
    {
      executing := true;
      if entries[0].slot.Some? {
        destroyed := destroyed + [entries[0].item];
      }
      entries := entries[1..];
      executing := false;
    }
  }
}
