/** The event loop's own queue: one entry runs per cycle, and an asynchronous action that is not finished
    is posted again behind all the others.
 */
module LocalQueue {

  /** A posted action; an asynchronous one reports whether it is finished. */
  datatype Entry = Entry(id: nat, asynchronous: bool)

  datatype Outcome = Finished | Again | Failed

  /** A call made on the loop's thread: engaging a payload for the next post, or a post. */
  datatype Call = Engage | PostAction(id: nat) | PostAsyncAction(id: nat)

  /** `prepared` says that a payload is engaged.  `ran` lists every run, `appended` every entry that was
      put in the queue, again or for the first time. */
  datatype Loop = Loop(queue: seq<Entry>, prepared: bool, ran: seq<Entry>, appended: seq<Entry>)

  const START := Loop([], false, [], [])

  function Append(s: Loop, e: Entry): Loop {
    s.(queue := s.queue + [e], appended := s.appended + [e])
  }

  function Make(s: Loop, c: Call): Loop {
    match c
    case Engage => s.(prepared := true)
    case PostAction(id) => Append(s, Entry(id, false)).(prepared := false)
    case PostAsyncAction(id) => if s.prepared then s else Append(s, Entry(id, true))
  }

  function MakeAll(s: Loop, calls: seq<Call>): Loop
    decreases |calls|
  {
    if calls == [] then s else MakeAll(Make(s, calls[0]), calls[1..])
  }

  /** The local phase of a cycle: the front entry runs, making `calls`; one that is not finished is
      posted again, which an engaged payload prevents; and the front entry is popped. */
  function Cycle(s: Loop, calls: seq<Call>, outcome: Outcome): Loop {
    if s.queue == [] then s
    else
      var front := s.queue[0];
      var t := MakeAll(s, calls);
      var u := if front.asynchronous && outcome == Again && !t.prepared then Append(t, front) else t;
      u.(queue := if u.queue == [] then [] else u.queue[1..], ran := u.ran + [front])
  }

  /** Whether the event loop goes on: the entry did not fail, and could be posted again if it had to. */
  predicate CycleOk(s: Loop, calls: seq<Call>, outcome: Outcome) {
    s.queue != [] ==>
      && outcome != Failed
      && (s.queue[0].asynchronous && outcome == Again ==> !MakeAll(s, calls).prepared)
  }

  datatype Action = Called(call: Call) | RunCycle(calls: seq<Call>, outcome: Outcome)

  function Next(s: Loop, a: Action): Loop {
    match a
    case Called(call) => Make(s, call)
    case RunCycle(calls, outcome) => Cycle(s, calls, outcome)
  }

  function Run(s: Loop, actions: seq<Action>): Loop
    decreases |actions|
  {
    if actions == [] then s else Run(Next(s, actions[0]), actions[1..])
  }

  function Cycles(actions: seq<Action>): nat {
    if actions == [] then 0 else (if actions[0].RunCycle? then 1 else 0) + Cycles(actions[1..])
  }

  /** Posting only adds at the end. */
  lemma {:induction false} MakeAllAppends(s: Loop, calls: seq<Call>)
    ensures var t := MakeAll(s, calls);
            && s.queue <= t.queue && s.appended <= t.appended && t.ran == s.ran
            && t.queue[|s.queue|..] == t.appended[|s.appended|..]
    decreases |calls|
  {
    if calls != [] {
      var m := Make(s, calls[0]);
      var t := MakeAll(m, calls[1..]);
      MakeAllAppends(m, calls[1..]);
      hide MakeAll;
      assert t.queue[|s.queue|..] == m.queue[|s.queue|..] + t.queue[|m.queue|..];
      assert t.appended[|s.appended|..] == m.appended[|s.appended|..] + t.appended[|m.appended|..];
      assert m.queue[|s.queue|..] == m.appended[|s.appended|..];
    }
  }

  /** What one cycle does to the queue: exactly the front entry leaves, and everything else keeps its
      order; what was posted, and the entry itself if it goes on, is behind. */
  lemma CycleShape(s: Loop, calls: seq<Call>, outcome: Outcome)
    requires s.queue != []
    ensures var t := Cycle(s, calls, outcome);
            && t.ran == s.ran + [s.queue[0]]
            && s.queue[1..] <= t.queue
            && s.appended <= t.appended && t.queue[|s.queue| - 1..] == t.appended[|s.appended|..]
            && (s.queue[0].asynchronous && outcome == Again && !t.prepared ==>
                  t.queue != [] && t.queue[|t.queue| - 1] == s.queue[0])
  {
    var m := MakeAll(s, calls);
    var t := Cycle(s, calls, outcome);
    MakeAllAppends(s, calls);
    if s.queue[0].asynchronous && outcome == Again && !m.prepared {
      var u := Append(m, s.queue[0]);
      assert u.queue[|s.queue|..] == m.queue[|s.queue|..] + [s.queue[0]];
      assert u.appended[|s.appended|..] == m.appended[|s.appended|..] + [s.queue[0]];
      assert t.queue[|s.queue| - 1..] == u.queue[|s.queue|..];
    } else {
      assert t.queue[|s.queue| - 1..] == m.queue[|s.queue|..];
    }
  }

  /** Everything put in the queue runs in that order, exactly once for each time it was put in. */
  ghost predicate InOrder(s: Loop) {
    s.appended == s.ran + s.queue
  }

  lemma Shifted<T>(ran: seq<T>, queue: seq<T>, appended: seq<T>, newQueue: seq<T>, newAppended: seq<T>)
    requires appended == ran + queue && queue != []
    requires queue[1..] <= newQueue && appended <= newAppended
    requires newQueue[|queue| - 1..] == newAppended[|appended|..]
    ensures newAppended == ran + [queue[0]] + newQueue
  {
    assert newAppended == appended + newAppended[|appended|..];
    assert newQueue == queue[1..] + newQueue[|queue| - 1..];
    assert queue == [queue[0]] + queue[1..];
  }

  lemma NextInOrder(s: Loop, a: Action)
    requires InOrder(s)
    ensures InOrder(Next(s, a))
  {
    var t := Next(s, a);
    match a
    case Called(call) =>
      MakeAllAppends(s, [call]);
      assert MakeAll(Make(s, call), []) == Make(s, call);
      assert t.appended == s.appended + t.appended[|s.appended|..];
    case RunCycle(calls, outcome) =>
      if s.queue != [] {
        CycleShape(s, calls, outcome);
        hide Cycle;
        Shifted(s.ran, s.queue, s.appended, t.queue, t.appended);
      }
  }

  lemma {:induction false} EveryRun(s: Loop, actions: seq<Action>)
    requires InOrder(s)
    ensures InOrder(Run(s, actions))
    decreases |actions|
  {
    hide Next, InOrder;
    if actions != [] {
      NextInOrder(s, actions[0]);
      EveryRun(Next(s, actions[0]), actions[1..]);
    }
  }

  lemma NextMoves(s: Loop, a: Action, i: nat)
    requires i < |s.queue|
    ensures var t := Next(s, a);
            && (!a.RunCycle? ==> i < |t.queue| && t.queue[i] == s.queue[i] && t.ran == s.ran)
            && (a.RunCycle? && i > 0 ==> i - 1 < |t.queue| && t.queue[i - 1] == s.queue[i] && |t.ran| == |s.ran| + 1)
            && (a.RunCycle? && i == 0 ==> t.ran == s.ran + [s.queue[0]])
  {
    match a
    case Called(call) =>
      MakeAllAppends(s, [call]);
      assert MakeAll(Make(s, call), []) == Make(s, call);
    case RunCycle(calls, outcome) =>
      CycleShape(s, calls, outcome);
      if i > 0 {
        assert s.queue[1..][i - 1] == s.queue[i];
      }
  }

  lemma {:induction false} RanGrows(s: Loop, actions: seq<Action>)
    ensures s.ran <= Run(s, actions).ran
    decreases |actions|
  {
    if actions != [] {
      var t := Next(s, actions[0]);
      assert s.ran <= t.ran by {
        if actions[0].RunCycle? && s.queue != [] {
          CycleShape(s, actions[0].calls, actions[0].outcome);
        } else if actions[0].Called? {
          MakeAllAppends(s, [actions[0].call]);
          assert MakeAll(Make(s, actions[0].call), []) == Make(s, actions[0].call);
        }
      }
      RanGrows(t, actions[1..]);
    }
  }

  /** An entry with `i` others ahead of it moves up by one with each cycle, and runs in exactly the
      cycle after the `i`-th, whatever else is posted or fails meanwhile. */
  lemma {:induction false} RunsInTurn(s: Loop, actions: seq<Action>, i: nat)
    requires i < |s.queue|
    ensures var t := Run(s, actions);
            var k := Cycles(actions);
            if k <= i then |t.ran| == |s.ran| + k && i - k < |t.queue| && t.queue[i - k] == s.queue[i]
            else |s.ran| + i < |t.ran| && t.ran[|s.ran| + i] == s.queue[i]
    decreases |actions|
  {
    hide Next;
    if actions != [] {
      var t := Next(s, actions[0]);
      NextMoves(s, actions[0], i);
      if !actions[0].RunCycle? {
        RunsInTurn(t, actions[1..], i);
      } else if i > 0 {
        RunsInTurn(t, actions[1..], i - 1);
      } else {
        RanGrows(t, actions[1..]);
        assert t.ran[|s.ran|] == s.queue[0];
      }
    }
  }

  /** An unfinished asynchronous action is queued again behind everything, so it runs again after each
      of the entries before it has run once. */
  lemma OncePerRotation(s: Loop, calls: seq<Call>, actions: seq<Action>)
    requires s.queue != [] && s.queue[0].asynchronous && !Cycle(s, calls, Again).prepared
    requires Cycles(actions) >= |Cycle(s, calls, Again).queue|
    ensures var t := Cycle(s, calls, Again);
            var u := Run(t, actions);
            && t.queue != [] && t.queue[|t.queue| - 1] == s.queue[0] && |t.ran| + |t.queue| <= |u.ran|
            && forall j :: 0 <= j < |t.queue| ==> u.ran[|t.ran| + j] == t.queue[j]
  {
    var t := Cycle(s, calls, Again);
    var u := Run(t, actions);
    CycleShape(s, calls, Again);
    RunsInTurn(t, actions, |t.queue| - 1);
    forall j | 0 <= j < |t.queue|
      ensures u.ran[|t.ran| + j] == t.queue[j]
    {
      RunsInTurn(t, actions, j);
    }
  }

  // ---- what is posted ---------------------------------------------------------------------------

  /** What calls add to the queue, and whether a payload is engaged behind them: an action is always
      added and takes the payload; an asynchronous one is added unless a payload is engaged. */
  function Posted(prepared: bool, calls: seq<Call>): (seq<Entry>, bool)
    decreases |calls|
  {
    if calls == [] then ([], prepared)
    else
      var (entries, engaged) := Posted(prepared, calls[..|calls| - 1]);
      match calls[|calls| - 1]
      case Engage => (entries, true)
      case PostAction(id) => (entries + [Entry(id, false)], false)
      case PostAsyncAction(id) => (if engaged then entries else entries + [Entry(id, true)], engaged)
  }

  lemma {:induction false} MakeAllSplits(s: Loop, calls: seq<Call>, last: Call)
    ensures MakeAll(s, calls + [last]) == Make(MakeAll(s, calls), last)
    decreases |calls|
  {
    if calls == [] {
      assert calls + [last] == [last] && [last][1..] == [];
    } else {
      assert (calls + [last])[1..] == calls[1..] + [last];
      MakeAllSplits(Make(s, calls[0]), calls[1..], last);
    }
  }

  lemma {:induction false} CallsPost(s: Loop, calls: seq<Call>)
    ensures var (entries, engaged) := Posted(s.prepared, calls);
            var t := MakeAll(s, calls);
            t.queue == s.queue + entries && t.prepared == engaged && t.ran == s.ran && t.appended == s.appended + entries
    decreases |calls|
  {
    hide Make;
    if calls != [] {
      var front, last := calls[..|calls| - 1], calls[|calls| - 1];
      assert calls == front + [last];
      MakeAllSplits(s, front, last);
      CallsPost(s, front);
      OnePosts(MakeAll(s, front), last);
      var entries := Posted(s.prepared, front).0;
      var (more, _) := Posted(MakeAll(s, front).prepared, [last]);
      assert s.queue + entries + more == s.queue + (entries + more);
      assert s.appended + entries + more == s.appended + (entries + more);
      assert [last][..0] == [];
    }
  }

  lemma OnePosts(s: Loop, c: Call)
    ensures var (entries, engaged) := Posted(s.prepared, [c]);
            Make(s, c) == Loop(s.queue + entries, engaged, s.ran, s.appended + entries)
  {
    assert [c][..0] == [];
    assert s.queue + [] == s.queue && s.appended + [] == s.appended;
  }

  /** A cycle by what its calls post. */
  lemma CycleIs(s: Loop, calls: seq<Call>, outcome: Outcome)
    requires s.queue != []
    ensures var (entries, engaged) := Posted(s.prepared, calls);
            var front := s.queue[0];
            var again := front.asynchronous && outcome == Again && !engaged;
            var more := entries + if again then [front] else [];
            && Cycle(s, calls, outcome) == Loop(s.queue[1..] + more, engaged, s.ran + [front], s.appended + more)
            && CycleOk(s, calls, outcome) == (outcome != Failed && (front.asynchronous && outcome == Again ==> again))
  {
    CallsPost(s, calls);
    hide MakeAll, Posted, Make;
    var (entries, engaged) := Posted(s.prepared, calls);
    var more := entries + if s.queue[0].asynchronous && outcome == Again && !engaged then [s.queue[0]] else [];
    assert s.queue + more == (s.queue + entries) + more[|entries|..];
    assert (s.queue + more)[1..] == s.queue[1..] + more;
    assert s.appended + more == (s.appended + entries) + more[|entries|..];
  }

  /** The queue as a log with a cursor: `log` lists everything that was ever put in, the first `at` of
      which have run. */
  datatype Log = Log(log: seq<Entry>, at: nat, prepared: bool)

  function LogNext(l: Log, a: Action): Log {
    match a
    case Called(call) =>
      var (entries, engaged) := Posted(l.prepared, [call]);
      Log(l.log + entries, l.at, engaged)
    case RunCycle(calls, outcome) =>
      if l.at >= |l.log| then l
      else
        var front := l.log[l.at];
        var (entries, engaged) := Posted(l.prepared, calls);
        var again := if front.asynchronous && outcome == Again && !engaged then [front] else [];
        Log(l.log + (entries + again), l.at + 1, engaged)
  }

  function LogRun(l: Log, actions: seq<Action>): Log
    decreases |actions|
  {
    if actions == [] then l else LogRun(LogNext(l, actions[0]), actions[1..])
  }

  /** The event loop's queue is what the log holds behind the cursor. */
  ghost predicate Refines(s: Loop, l: Log) {
    && l.at <= |l.log| && s.prepared == l.prepared
    && s.ran == l.log[..l.at] && s.queue == l.log[l.at..] && s.appended == l.log
  }

  lemma CursorMoves<T>(log: seq<T>, at: nat, more: seq<T>)
    requires at < |log|
    ensures (log + more)[at + 1..] == log[at..][1..] + more
    ensures (log + more)[..at + 1] == log[..at] + [log[at]]
  {
  }

  lemma NextRefinesLog(s: Loop, l: Log, a: Action)
    requires Refines(s, l)
    ensures Refines(Next(s, a), LogNext(l, a))
  {
    if a.Called? {
      OnePosts(s, a.call);
    } else if s.queue != [] {
      CycleIs(s, a.calls, a.outcome);
      hide Posted, Cycle, CycleOk;
      var front := l.log[l.at];
      var (entries, engaged) := Posted(l.prepared, a.calls);
      CursorMoves(l.log, l.at, entries + if front.asynchronous && a.outcome == Again && !engaged then [front] else []);
    }
  }

  /** Over any run the event loop does what the log says: it runs what was posted, and what has to go on,
      in the order it was put in, one entry in each cycle. */
  lemma {:induction false} RunRefinesLog(s: Loop, l: Log, actions: seq<Action>)
    requires Refines(s, l)
    ensures Refines(Run(s, actions), LogRun(l, actions))
    decreases |actions|
  {
    hide Next, LogNext, Refines;
    if actions != [] {
      NextRefinesLog(s, l, actions[0]);
      RunRefinesLog(Next(s, actions[0]), LogNext(l, actions[0]), actions[1..]);
    }
  }

  /** An action posted behind `i` others runs in exactly the cycle after the `i`-th, and so does an
      asynchronous one that is posted while no payload is engaged. */
  lemma PostedRunsInTurn(s: Loop, call: Call, actions: seq<Action>)
    requires call.PostAction? || (call.PostAsyncAction? && !s.prepared)
    ensures var t := Run(s, [Called(call)] + actions);
            var (i, k) := (|s.queue|, Cycles(actions));
            var entry := Entry(call.id, call.PostAsyncAction?);
            if k <= i then |t.ran| == |s.ran| + k && i - k < |t.queue| && t.queue[i - k] == entry
            else |s.ran| + i < |t.ran| && t.ran[|s.ran| + i] == entry
  {
    var schedule := [Called(call)] + actions;
    assert schedule[0] == Called(call) && schedule[1..] == actions;
    var t := Next(s, Called(call));
    assert t.queue == s.queue + [Entry(call.id, call.PostAsyncAction?)] && t.ran == s.ran;
    hide Next, Cycles;
    RunsInTurn(t, actions, |s.queue|);
  }

  // ---- the queue in place -----------------------------------------------------------------------

  class EventQueue {
    var localEventQueue: seq<Entry>
    var preparedEntry: bool
    ghost var ran: seq<Entry>
    ghost var appended: seq<Entry>

    constructor ()
      ensures Current() == START && localEventQueue == [] && !preparedEntry && ran == []
    {
      localEventQueue, preparedEntry, ran, appended := [], false, [], [];
    }

    ghost function Current(): Loop
      reads this
    {
      Loop(localEventQueue, preparedEntry, ran, appended)
    }

    method GetNextActionPayload() returns (ok: bool)
      modifies this`preparedEntry
      ensures Current() == Make(old(Current()), Engage) && ok == !old(preparedEntry) && preparedEntry
    {
      ok := !preparedEntry;
      preparedEntry := true;
    }

    method PostAction(id: nat)
      modifies this
      ensures Current() == Make(old(Current()), Call.PostAction(id))
      ensures localEventQueue == old(localEventQueue) + [Entry(id, false)] && !preparedEntry && ran == old(ran)
    {
      localEventQueue := localEventQueue + [Entry(id, false)];
      appended := appended + [Entry(id, false)];
      preparedEntry := false;
    }

    method PostAsyncAction(id: nat) returns (ok: bool)
      modifies this
      ensures Current() == Make(old(Current()), Call.PostAsyncAction(id)) && ok == !old(preparedEntry)
      ensures localEventQueue == old(localEventQueue) + (if ok then [Entry(id, true)] else [])
      ensures appended == old(appended) + (if ok then [Entry(id, true)] else [])
      ensures preparedEntry == old(preparedEntry) && ran == old(ran)
    {
      if preparedEntry {
        return false;
      }
      localEventQueue := localEventQueue + [Entry(id, true)];
      appended := appended + [Entry(id, true)];
      return true;
    }

    /** The calls that the running action makes. */
    method ApplyAction(calls: seq<Call>)
      modifies this
      ensures Current() == MakeAll(old(Current()), calls)
    {
      ghost var s := Current();
      assert calls[0..] == calls;
      for i := 0 to |calls|
        invariant MakeAll(Current(), calls[i..]) == MakeAll(s, calls)
      {
        assert calls[i..][0] == calls[i] && calls[i..][1..] == calls[i + 1..];
        match calls[i] {
          case Engage => var _ := GetNextActionPayload();
          case PostAction(id) => PostAction(id);
          case PostAsyncAction(id) => var _ := PostAsyncAction(id);
        }
      }
      assert calls[|calls|..] == [];
    }

    method RunLocalPhase(calls: seq<Call>, outcome: Outcome) returns (ok: bool)
      modifies this
      ensures Current() == Cycle(old(Current()), calls, outcome)
      ensures ok == CycleOk(old(Current()), calls, outcome)
      ensures old(localEventQueue) == [] ==> ran == old(ran) && localEventQueue == [] && ok
      ensures old(localEventQueue) != [] ==>
                var (entries, engaged) := Posted(old(preparedEntry), calls);
                var front := old(localEventQueue)[0];
                var again := front.asynchronous && outcome == Again && !engaged;
                && ran == old(ran) + [front] && preparedEntry == engaged
                && ok == (outcome != Failed && (front.asynchronous && outcome == Again ==> again))
                && localEventQueue == old(localEventQueue)[1..] + entries + (if again then [front] else [])
    {
      ok := true;
      if localEventQueue == [] {
        return;
      }
      ghost var s := Current();
      CycleIs(s, calls, outcome);
      CallsPost(s, calls);
      hide Cycle, CycleOk, Make, MakeAll, Posted;
      var front := localEventQueue[0];
      ApplyAction(calls);
      ok := outcome != Failed;
      if front.asynchronous && outcome == Again {
        ok := PostAsyncAction(front.id);
      }
      localEventQueue := localEventQueue[1..];
      ran := ran + [front];
    }
  }
}
