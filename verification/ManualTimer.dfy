/** A repeating timer on the event queue: starting it posts a callback, and each callback posts the next
    one unless the timer was stopped.  A callback that is already posted cannot be taken back.
 */
module ManualTimer {

  /** `queued` counts the timer's callbacks in the event queue and `running` says that one of them is
      executing; `fired` counts the runs of the action.  `restarts` counts the starts whose post was
      accepted while an earlier callback was still queued or running, `doubled` the posts that put in two
      callbacks, `lost` the posts the event queue refused, and `peak` is the highest number of callbacks to
      come so far. */
  datatype Timer = Timer(
    timerType: TimerType, active: bool, queued: nat, running: bool, fired: nat, restarts: nat, doubled: nat, lost: nat,
    peak: nat)

  datatype TimerType = Precision | Idle

  function Fresh(timerType: TimerType): Timer {
    Timer(timerType, false, 0, false, 0, 0, 0, 0, 0)
  }

  /** A call of the timer; `posted` is the event queue's answer to a post, and `onThread` says whether it was
      made on the loop's thread. */
  datatype Call = Start(posted: bool, onThread: bool) | Stop

  /** What a post puts in: an idle event that is posted on the loop's thread is put in there and then, and
      once more by way of the local queue. */
  function Copies(timerType: TimerType, posted: bool, onThread: bool): nat {
    if !posted then 0 else if timerType == Idle && onThread then 2 else 1
  }

  /** The callbacks that are still to come, counting the one that is executing. */
  function Chains(t: Timer): nat { t.queued + if t.running then 1 else 0 }

  function Post(t: Timer, copies: nat): Timer {
    if copies == 0 then t.(lost := t.lost + 1)
    else
      t.(queued := t.queued + copies, peak := Max(t.peak, Chains(t) + copies),
         doubled := if copies > 1 then t.doubled + 1 else t.doubled)
  }

  function Max(a: nat, b: nat): nat { if a < b then b else a }

  function Make(t: Timer, c: Call): Timer {
    match c
    case Start(posted, onThread) =>
      if t.active then t
      else
        Post(t.(active := true, restarts := if posted && Chains(t) > 0 then t.restarts + 1 else t.restarts),
             Copies(t.timerType, posted, onThread))
    case Stop => t.(active := false)
  }

  function MakeAll(t: Timer, calls: seq<Call>): Timer
    decreases |calls|
  {
    if calls == [] then t else MakeAll(Make(t, calls[0]), calls[1..])
  }

  /** `runAndRePost`: nothing on a stopped timer; else the action, which may stop and start the timer,
      and then the next post if the timer is active. */
  function RunAndRePost(t: Timer, calls: seq<Call>, ok: bool, posted: bool): Timer {
    if t.queued == 0 then t
    else
      var taken := t.(queued := t.queued - 1, running := true);
      if !taken.active then taken.(running := false)
      else
        var after := MakeAll(taken.(fired := taken.fired + 1), calls);
        if !ok then after.(active := false, running := false)
        else if !after.active then after.(running := false)
        else Post(after.(running := false), Copies(t.timerType, posted, true))
  }

  datatype Action = Called(call: Call) | Callback(calls: seq<Call>, ok: bool, posted: bool)

  function Next(t: Timer, a: Action): Timer {
    match a
    case Called(call) => Make(t, call)
    case Callback(calls, ok, posted) => RunAndRePost(t, calls, ok, posted)
  }

  function Run(t: Timer, actions: seq<Action>): Timer
    decreases |actions|
  {
    if actions == [] then t else Run(Next(t, actions[0]), actions[1..])
  }

  ghost predicate Inv(t: Timer) {
    && Chains(t) <= t.peak <= 1 + t.restarts + t.doubled
    && (t.restarts > 0 || t.doubled > 0 ==> t.peak >= 2)
    && (t.timerType == Precision ==> t.doubled == 0)
    && (t.active && t.lost == 0 ==> Chains(t) >= 1)
  }

  lemma {:induction false} MakeAllInv(t: Timer, calls: seq<Call>)
    requires Inv(t)
    ensures var u := MakeAll(t, calls);
            Inv(u) && u.running == t.running && u.lost >= t.lost && u.restarts >= t.restarts && u.queued >= t.queued && u.timerType == t.timerType
    decreases |calls|
  {
    if calls != [] {
      MakeAllInv(Make(t, calls[0]), calls[1..]);
    }
  }

  lemma NextInv(t: Timer, a: Action)
    requires Inv(t) && !t.running
    ensures Inv(Next(t, a)) && !Next(t, a).running && Next(t, a).timerType == t.timerType
  {
    if a.Callback? && t.queued > 0 {
      MakeAllInv(t.(queued := t.queued - 1, running := true, fired := t.fired + 1), a.calls);
    }
  }

  lemma {:induction false} RunInv(t: Timer, actions: seq<Action>)
    requires Inv(t) && !t.running
    ensures Inv(Run(t, actions)) && !Run(t, actions).running && Run(t, actions).timerType == t.timerType
    decreases |actions|
  {
    if actions != [] {
      NextInv(t, actions[0]);
      RunInv(Next(t, actions[0]), actions[1..]);
    }
  }

  /** Over any run: an active timer has a callback to come unless a post was refused; there are never more
      than one, one for each restart and one for each doubled post; and posts of a precision timer are not
      doubled. */
  lemma EveryRun(timerType: TimerType, actions: seq<Action>)
    ensures var t := Run(Fresh(timerType), actions);
            && (t.active && t.lost == 0 ==> t.queued >= 1)
            && t.queued <= 1 + t.restarts + t.doubled
            && (timerType == Precision ==> t.doubled == 0)
  {
    RunInv(Fresh(timerType), actions);
  }

  /** In any run, two callbacks are to come at some moment iff the stopped timer was started while one was
      still to come, or the post of an idle timer was doubled. */
  lemma TwoCallbacksIff(timerType: TimerType, actions: seq<Action>)
    ensures var t := Run(Fresh(timerType), actions);
            && (t.peak >= 2 <==> t.restarts > 0 || t.doubled > 0)
            && (timerType == Precision ==> (t.peak >= 2 <==> t.restarts > 0))
  {
    RunInv(Fresh(timerType), actions);
  }

  /** The timer is active after each step. */
  predicate StaysActive(t: Timer, actions: seq<Action>)
    decreases |actions|
  {
    t.active && (actions == [] || StaysActive(Next(t, actions[0]), actions[1..]))
  }

  /** What calls can do to a timer that they leave active. */
  lemma {:induction false} CallsKeep(t: Timer, calls: seq<Call>)
    ensures var u := MakeAll(t, calls);
            && u.running == t.running && u.restarts >= t.restarts && u.lost >= t.lost
            && u.fired == t.fired && u.timerType == t.timerType
            && (t.running && !t.active && u.active ==> u.restarts > t.restarts || u.lost > t.lost)
            && (t.running && u.active && u.restarts == t.restarts && u.lost == t.lost ==> u.queued == t.queued)
    decreases |calls|
  {
    if calls != [] {
      CallsKeep(Make(t, calls[0]), calls[1..]);
    }
  }

  /** How many callbacks come to be for each one that runs. */
  function Growth(timerType: TimerType): nat { if timerType == Idle then 1 else 0 }

  lemma StepGrows(t: Timer, a: Action)
    requires t.active && !t.running && Next(t, a).active
    ensures var u := Next(t, a);
            && !u.running && u.restarts >= t.restarts && u.lost >= t.lost && u.fired >= t.fired && u.timerType == t.timerType
            && (u.restarts == t.restarts && u.lost == t.lost ==>
                  u.queued == t.queued + Growth(t.timerType) * (u.fired - t.fired))
  {
    if a.Callback? && t.queued > 0 {
      CallsKeep(t.(queued := t.queued - 1, running := true, fired := t.fired + 1), a.calls);
    }
  }

  /** As long as the timer stays active, whatever its actions do, unless it is restarted on the way or a
      post is refused: the callbacks of a precision timer keep their number, so that a second chain does
      not end by itself; those of an idle timer become one more with every firing. */
  lemma {:induction false} CallbacksGrow(t: Timer, actions: seq<Action>)
    requires StaysActive(t, actions) && !t.running
    ensures var u := Run(t, actions);
            && u.restarts >= t.restarts && u.lost >= t.lost && u.fired >= t.fired
            && (u.restarts == t.restarts && u.lost == t.lost ==>
                  u.queued == t.queued + Growth(t.timerType) * (u.fired - t.fired))
    decreases |actions|
  {
    if actions != [] {
      StepGrows(t, actions[0]);
      CallbacksGrow(Next(t, actions[0]), actions[1..]);
    }
  }

  // ---- what starting, stopping and firing do ----------------------------------------------------

  /** Whether the timer is active after some calls: the last one decides. */
  predicate ActiveAfter(active: bool, calls: seq<Call>) {
    if calls == [] then active else calls[|calls| - 1].Start?
  }

  /** How many callbacks some calls put in: a start does while the timer is stopped, if its post is taken. */
  function PutIn(timerType: TimerType, active: bool, calls: seq<Call>): nat {
    if calls == [] then 0
    else
      var n := |calls| - 1;
      PutIn(timerType, active, calls[..n])
      + match calls[n]
        case Start(posted, onThread) =>
          if ActiveAfter(active, calls[..n]) || !posted then 0
          else if timerType == Idle && onThread then 2 else 1
        case Stop => 0
  }

  lemma {:induction false} MakeAllSplits(t: Timer, calls: seq<Call>, last: Call)
    ensures MakeAll(t, calls + [last]) == Make(MakeAll(t, calls), last)
    decreases |calls|
  {
    if calls == [] {
      assert calls + [last] == [last] && [last][1..] == [];
    } else {
      assert (calls + [last])[1..] == calls[1..] + [last];
      MakeAllSplits(Make(t, calls[0]), calls[1..], last);
    }
  }

  lemma {:induction false} CallsDo(t: Timer, calls: seq<Call>)
    ensures var u := MakeAll(t, calls);
            && u.active == ActiveAfter(t.active, calls)
            && u.queued == t.queued + PutIn(t.timerType, t.active, calls)
            && u.fired == t.fired && u.running == t.running && u.timerType == t.timerType
    decreases |calls|
  {
    if calls != [] {
      var n := |calls| - 1;
      assert calls == calls[..n] + [calls[n]];
      MakeAllSplits(t, calls[..n], calls[n]);
      CallsDo(t, calls[..n]);
    }
  }

  /** A callback of a stopped timer is just taken off the event queue.  That of an active one runs the action
      once; the timer stays active iff the action succeeds and leaves it active, and exactly then the
      callback posts the next. */
  lemma CallbackDoes(t: Timer, calls: seq<Call>, ok: bool, posted: bool)
    requires t.queued > 0 && !t.running
    ensures var u := Next(t, Callback(calls, ok, posted));
            if !t.active then u == t.(queued := t.queued - 1)
            else
              var next := if !posted then 0 else if t.timerType == Idle then 2 else 1;
              && u.fired == t.fired + 1 && u.active == (ok && ActiveAfter(true, calls))
              && u.queued == t.queued - 1 + PutIn(t.timerType, true, calls) + if u.active then next else 0
  {
    CallsDo(t.(queued := t.queued - 1, running := true, fired := t.fired + 1), calls);
  }

  /** How many callbacks a run takes off the event queue, if there are that many. */
  function Callbacks(actions: seq<Action>): nat {
    if actions == [] then 0 else (if actions[0].Callback? then 1 else 0) + Callbacks(actions[1..])
  }

  /** After a stop the action does not run until the next start, and the callbacks that are still to come
      run out. */
  lemma {:induction false} StopSilences(t: Timer, actions: seq<Action>)
    requires !t.running && forall i :: 0 <= i < |actions| ==> actions[i].Called? ==> actions[i].call.Stop?
    ensures var u := Run(Next(t, Called(Stop)), actions);
            && !u.active && u.fired == t.fired
            && u.queued == if Callbacks(actions) <= t.queued then t.queued - Callbacks(actions) else 0
    decreases |actions|
  {
    var stopped := Next(t, Called(Stop));
    if actions != [] {
      var u := Next(stopped, actions[0]);
      assert Next(u, Called(Stop)) == u;
      StopSilences(u, actions[1..]);
    }
  }

  /** From a start whose post is taken, every callback runs the action, as long as the timer stays active and
      no post is refused. */
  lemma {:induction false} FiresEachTime(t: Timer, actions: seq<Action>)
    requires StaysActive(t, actions) && !t.running && t.queued > 0 && Run(t, actions).lost == t.lost
    ensures Run(t, actions).fired == t.fired + Callbacks(actions) && Run(t, actions).queued > 0
    decreases |actions|
  {
    if actions != [] {
      var u := Next(t, actions[0]);
      RunLoses(u, actions[1..]);
      if actions[0].Callback? {
        var Callback(calls, ok, posted) := actions[0];
        var taken := t.(queued := t.queued - 1, running := true, fired := t.fired + 1);
        CallsDo(taken, calls);
        CallsKeep(taken, calls);
      }
      FiresEachTime(u, actions[1..]);
    }
  }

  lemma {:induction false} CallsLose(t: Timer, calls: seq<Call>)
    ensures MakeAll(t, calls).lost >= t.lost
    decreases |calls|
  {
    if calls != [] {
      CallsLose(Make(t, calls[0]), calls[1..]);
    }
  }

  lemma {:induction false} RunLoses(t: Timer, actions: seq<Action>)
    ensures Run(t, actions).lost >= t.lost
    decreases |actions|
  {
    if actions != [] {
      if actions[0].Callback? && t.queued > 0 {
        CallsLose(t.(queued := t.queued - 1, running := true, fired := t.fired + 1), actions[0].calls);
      }
      RunLoses(Next(t, actions[0]), actions[1..]);
    }
  }

  /** A stopped timer that is started fires with its next callback. */
  lemma StartFires(t: Timer, onThread: bool, calls: seq<Call>, ok: bool, posted: bool)
    requires !t.running
    ensures var u := Next(t, Called(Start(true, onThread)));
            && u.active && (t.active ==> u == t)
            && (!t.active ==> u.queued == t.queued + if t.timerType == Idle && onThread then 2 else 1)
            && (u.queued > 0 ==> Next(u, Callback(calls, ok, posted)).fired == t.fired + 1)
  {
    var u := Next(t, Called(Start(true, onThread)));
    if u.queued > 0 {
      CallbackDoes(u, calls, ok, posted);
    }
  }

  // ---- the timer in place -----------------------------------------------------------------------

  class RepeatingTimer {
    const timerType: TimerType
    var isActive: bool
    ghost var queued: nat
    ghost var running: bool
    ghost var fired: nat
    ghost var restarts: nat
    ghost var doubled: nat
    ghost var lost: nat
    ghost var peak: nat

    constructor (timerType: TimerType)
      ensures Current() == Fresh(timerType) && !isActive && queued == 0 && !running && fired == 0
      ensures restarts == 0 && doubled == 0 && lost == 0 && peak == 0
    {
      this.timerType := timerType;
      isActive, queued, running, fired, restarts, doubled, lost, peak := false, 0, false, 0, 0, 0, 0, 0;
    }

    ghost function Current(): Timer
      reads this
    {
      Timer(timerType, isActive, queued, running, fired, restarts, doubled, lost, peak)
    }

    ghost method PostCallback(copies: nat)
      modifies this`queued, this`lost, this`peak, this`doubled
      ensures Current() == Post(old(Current()), copies)
      ensures queued == old(queued) + copies && lost == old(lost) + (if copies == 0 then 1 else 0)
      ensures doubled == old(doubled) + (if copies > 1 then 1 else 0)
    {
      if copies == 0 {
        lost := lost + 1;
        return;
      }
      peak := Max(peak, Chains(Current()) + copies);
      queued := queued + copies;
      if copies > 1 {
        doubled := doubled + 1;
      }
    }

    method StartTimer(posted: bool, onThread: bool)
      modifies this
      ensures Current() == Make(old(Current()), Start(posted, onThread))
      ensures isActive && running == old(running) && fired == old(fired)
      ensures restarts == old(restarts) + if !old(isActive) && posted && (old(queued) > 0 || old(running)) then 1 else 0
      ensures queued == old(queued) + if old(isActive) || !posted then 0 else if timerType == Idle && onThread then 2 else 1
    {
      if isActive {
        return;
      }
      if posted && (queued > 0 || running) {
        restarts := restarts + 1;
      }
      isActive := true;
      PostCallback(Copies(timerType, posted, onThread));
    }

    method StopTimer()
      modifies this`isActive
      ensures Current() == Make(old(Current()), Stop) && !isActive
    {
      isActive := false;
    }

    /** What the action does to its own timer. */
    method ApplyAction(calls: seq<Call>)
      modifies this
      ensures Current() == MakeAll(old(Current()), calls)
    {
      ghost var t := Current();
      assert calls[0..] == calls;
      for i := 0 to |calls|
        invariant MakeAll(Current(), calls[i..]) == MakeAll(t, calls)
      {
        assert calls[i..][0] == calls[i] && calls[i..][1..] == calls[i + 1..];
        match calls[i] {
          case Start(posted, onThread) => StartTimer(posted, onThread);
          case Stop => StopTimer();
        }
      }
      assert calls[|calls|..] == [];
    }

    /** The callback, taken from the event queue. */
    method RunCallback(calls: seq<Call>, ok: bool, posted: bool)
      requires queued > 0
      modifies this
      ensures Current() == RunAndRePost(old(Current()), calls, ok, posted)
      ensures fired == old(fired) + (if old(isActive) then 1 else 0)
      ensures isActive == (old(isActive) && ok && ActiveAfter(true, calls))
    {
      CallsDo(Current().(queued := queued - 1, running := true, fired := fired + 1), calls);
      queued, running := queued - 1, true;
      if !isActive {
        running := false;
        return;
      }
      fired := fired + 1;
      ApplyAction(calls);
      running := false;
      if !ok {
        isActive := false;
        return;
      }
      if !isActive {
        return;
      }
      PostCallback(Copies(timerType, posted, true));
    }
  }
}
