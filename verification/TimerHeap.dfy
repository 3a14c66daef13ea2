/** The heap of precision timed events: a binary heap ordered by time, earliest first.
 */
module TimerHeap {

  datatype Event = Event(time: nat, id: nat)

  function Parent(i: nat): nat
    requires i > 0
  {
    (i - 1) / 2
  }

  ghost predicate InOrder(s: seq<Event>, i: nat)
    requires 0 < i < |s|
  {
    s[Parent(i)].time <= s[i].time
  }

  ghost predicate IsHeap(s: seq<Event>) {
    forall i :: 0 < i < |s| ==> InOrder(s, i)
  }

  lemma {:induction false} RootIsEarliest(s: seq<Event>, i: nat)
    requires IsHeap(s) && i < |s|
    ensures s[0].time <= s[i].time
    decreases i
  {
    if i > 0 {
      RootIsEarliest(s, Parent(i));
      assert InOrder(s, i);
    }
  }

  function Swapped(s: seq<Event>, i: nat, j: nat): (r: seq<Event>)
    requires i < |s| && j < |s|
    ensures |r| == |s|
  {
    s[i := s[j]][j := s[i]]
  }

  lemma SwapKeeps(s: seq<Event>, i: nat, j: nat)
    requires i < |s| && j < |s|
    ensures multiset(Swapped(s, i, j)) == multiset(s)
  {
    assert multiset(s[i := s[j]]) == multiset(s) - multiset{s[i]} + multiset{s[j]};
  }

  // ---- push -------------------------------------------------------------------------------------

  /** Moves the event at `i` up while its parent is later. */
  function SiftUp(s: seq<Event>, i: nat): (r: seq<Event>)
    requires i < |s|
    ensures |r| == |s|
    decreases i
  {
    if i > 0 && s[Parent(i)].time > s[i].time then SiftUp(Swapped(s, i, Parent(i)), Parent(i)) else s
  }

  function Push(s: seq<Event>, e: Event): seq<Event> {
    SiftUp(s + [e], |s|)
  }

  /** A heap but for the event at `i`, which may be earlier than its parent. */
  ghost predicate HeapBut(s: seq<Event>, i: nat) {
    && i < |s|
    && (forall k :: 0 < k < |s| && k != i ==> InOrder(s, k))
    && (i > 0 ==> forall k :: 0 < k < |s| && Parent(k) == i ==> s[Parent(i)].time <= s[k].time)
  }

  lemma SiftUpStep(s: seq<Event>, i: nat)
    requires HeapBut(s, i) && i > 0 && s[Parent(i)].time > s[i].time
    ensures HeapBut(Swapped(s, i, Parent(i)), Parent(i))
  {
    var p := Parent(i);
    var r := Swapped(s, i, p);
    forall k | 0 < k < |r| && k != p
      ensures InOrder(r, k)
    {
      if k != i {
        assert InOrder(s, k);
      }
    }
    if p > 0 {
      assert InOrder(s, p);
      forall k | 0 < k < |r| && Parent(k) == p
        ensures r[Parent(p)].time <= r[k].time
      {
        if k != i {
          assert InOrder(s, k);
        }
      }
    }
  }

  lemma {:induction false} SiftUpHeap(s: seq<Event>, i: nat)
    requires HeapBut(s, i)
    ensures IsHeap(SiftUp(s, i)) && multiset(SiftUp(s, i)) == multiset(s)
    decreases i
  {
    if i > 0 && s[Parent(i)].time > s[i].time {
      SiftUpStep(s, i);
      SwapKeeps(s, i, Parent(i));
      SiftUpHeap(Swapped(s, i, Parent(i)), Parent(i));
    } else {
      assert i > 0 ==> InOrder(s, i);
    }
  }

  lemma PushHeap(s: seq<Event>, e: Event)
    requires IsHeap(s)
    ensures IsHeap(Push(s, e)) && multiset(Push(s, e)) == multiset(s) + multiset{e}
  {
    var t := s + [e];
    forall k | 0 < k < |t| && k != |s|
      ensures InOrder(t, k)
    {
      assert InOrder(s, k);
    }
    SiftUpHeap(t, |s|);
  }

  lemma {:induction false} SiftUpRoot(s: seq<Event>, i: nat)
    requires HeapBut(s, i) && s[0].time <= s[i].time
    ensures SiftUp(s, i)[0] == s[0]
    decreases i
  {
    if i > 0 && s[Parent(i)].time > s[i].time {
      SiftUpStep(s, i);
      SiftUpRoot(Swapped(s, i, Parent(i)), Parent(i));
    }
  }

  /** An event no earlier than the first does not take its place, even at the same time. */
  lemma PushKeepsRoot(s: seq<Event>, e: Event)
    requires IsHeap(s) && s != [] && s[0].time <= e.time
    ensures Push(s, e)[0] == s[0]
  {
    var t := s + [e];
    forall k | 0 < k < |t| && k != |s|
      ensures InOrder(t, k)
    {
      assert InOrder(s, k);
    }
    SiftUpRoot(t, |s|);
  }

  // ---- pop --------------------------------------------------------------------------------------

  /** The earlier child of `i`, or `i` itself when it has none. */
  function EarlierChild(s: seq<Event>, i: nat): (c: nat)
    requires i < |s|
    ensures c < |s| && (c == i || (c > i && Parent(c) == i))
  {
    var left, right := 2 * i + 1, 2 * i + 2;
    if left >= |s| then i
    else if right < |s| && s[left].time > s[right].time then right
    else left
  }

  function SiftDown(s: seq<Event>, i: nat): (r: seq<Event>)
    requires i < |s|
    ensures |r| == |s|
    decreases |s| - i
  {
    var c := EarlierChild(s, i);
    if c > i && s[i].time > s[c].time then SiftDown(Swapped(s, i, c), c) else s
  }

  function Pop(s: seq<Event>): seq<Event>
    requires s != []
  {
    if |s| == 1 then [] else SiftDown([s[|s| - 1]] + s[1..|s| - 1], 0)
  }

  /** A heap but for the event at `i`, which may be later than its children. */
  ghost predicate HeapAbove(s: seq<Event>, i: nat) {
    && i < |s|
    && (forall k :: 0 < k < |s| && Parent(k) != i ==> InOrder(s, k))
    && (i > 0 ==> forall k :: 0 < k < |s| && Parent(k) == i ==> s[Parent(i)].time <= s[k].time)
  }

  lemma ChildrenOf(i: nat, k: nat)
    requires k > 0
    ensures Parent(k) == i <==> k == 2 * i + 1 || k == 2 * i + 2
  {
  }

  lemma SiftDownStep(s: seq<Event>, i: nat)
    requires HeapAbove(s, i) && EarlierChild(s, i) > i && s[i].time > s[EarlierChild(s, i)].time
    ensures HeapAbove(Swapped(s, i, EarlierChild(s, i)), EarlierChild(s, i))
  {
    var c := EarlierChild(s, i);
    var r := Swapped(s, i, c);
    forall k | 0 < k < |r| && Parent(k) != c
      ensures InOrder(r, k)
    {
      ChildrenOf(i, k);
      if Parent(k) != i {
        assert InOrder(s, k);
      }
    }
    forall k | 0 < k < |r| && Parent(k) == c
      ensures r[Parent(c)].time <= r[k].time
    {
      assert InOrder(s, k);
    }
  }

  lemma SiftDownStops(s: seq<Event>, i: nat)
    requires HeapAbove(s, i) && (EarlierChild(s, i) == i || s[i].time <= s[EarlierChild(s, i)].time)
    ensures IsHeap(s)
  {
    forall k | 0 < k < |s|
      ensures InOrder(s, k)
    {
      ChildrenOf(i, k);
    }
  }

  lemma {:induction false} SiftDownHeap(s: seq<Event>, i: nat)
    requires HeapAbove(s, i)
    ensures IsHeap(SiftDown(s, i)) && multiset(SiftDown(s, i)) == multiset(s)
    decreases |s| - i
  {
    var c := EarlierChild(s, i);
    if c > i && s[i].time > s[c].time {
      SiftDownStep(s, i);
      SwapKeeps(s, i, c);
      SiftDownHeap(Swapped(s, i, c), c);
    } else {
      SiftDownStops(s, i);
    }
  }

  lemma PopHeap(s: seq<Event>)
    requires IsHeap(s) && s != []
    ensures IsHeap(Pop(s)) && multiset(Pop(s)) == multiset(s) - multiset{s[0]}
  {
    var n := |s| - 1;
    if n == 0 {
      assert s == [s[0]];
    } else {
      var t := [s[n]] + s[1..n];
      forall k | 0 < k < |t| && Parent(k) != 0
        ensures InOrder(t, k)
      {
        assert InOrder(s, k);
      }
      SiftDownHeap(t, 0);
      assert s == [s[0]] + s[1..n] + [s[n]];
      assert multiset(t) == multiset{s[n]} + multiset(s[1..n]);
    }
  }

  // ---- the heap in place ------------------------------------------------------------------------

  class TimedEventQueue {
    var events: seq<Event>

    constructor ()
      ensures events == []
    {
      events := [];
    }

    method PushEvent(e: Event)
      modifies this
      ensures events == Push(old(events), e)
    {
      events := events + [e];
      var i := |events| - 1;
      while i > 0 && events[Parent(i)].time > events[i].time
        invariant 0 <= i < |events| && SiftUp(events, i) == Push(old(events), e)
        decreases i
      {
        var parent := Parent(i);
        events := Swapped(events, i, parent);
        i := parent;
      }
    }

    method PopEvent()
      requires events != []
      modifies this
      ensures events == Pop(old(events))
    {
      if |events| == 1 {
        events := [];
        return;
      }
      events := [events[|events| - 1]] + events[1..|events| - 1];
      var i := 0;
      var child := EarlierChild(events, 0);
      while child > i && events[i].time > events[child].time
        invariant 0 <= i < |events| && child == EarlierChild(events, i)
        invariant SiftDown(events, i) == Pop(old(events))
        decreases |events| - i
      {
        events := Swapped(events, i, child);
        i := child;
        child := EarlierChild(events, i);
      }
    }
  }
}
