/** Allocation of the channels of a segment by attaching processes, and where the channels lie.

    `AllocQueueChannel` runs under a mutex shared between processes, but the number of active channels
    is read by the producer without it; so the steps of all attaching processes are interleaved one
    by one, and every state in between is a state the producer may observe.
 */
module ChannelAllocation {

  const NUL := '\0'
  const NAME_SIZE := 64

  // ---- names as the C string functions see them -------------------------------------------------

  /** Reading a C string: everything from its end on is the terminator. */
  function CharAt(s: string, i: nat): char {
    if i < |s| then s[i] else NUL
  }

  /** `strncmp(a, b, n) == 0`, from index `i` on. */
  predicate StrncmpEqual(a: string, b: string, n: nat, i: nat)
    decreases n - i
  {
    i >= n || (CharAt(a, i) == CharAt(b, i) && (CharAt(a, i) == NUL || StrncmpEqual(a, b, n, i + 1)))
  }

  /** The characters before the first terminator. */
  function CString(s: string): (r: string)
    ensures |r| <= |s| && NUL !in r && r == s[..|r|]
    ensures |r| < |s| ==> s[|r|] == NUL
  {
    if s == [] || s[0] == NUL then [] else [s[0]] + CString(s[1..])
  }

  /** The name buffer after `strncpy` of at most 63 characters and the final terminator. */
  function Stored(name: string): (r: string)
    ensures |r| == NAME_SIZE
    ensures forall i :: 0 <= i < NAME_SIZE ==> r[i] == if i < NAME_SIZE - 1 then CharAt(CString(name), i) else NUL
  {
    var c := CString(name);
    seq(NAME_SIZE, i requires 0 <= i < NAME_SIZE => if i < NAME_SIZE - 1 then CharAt(c, i) else NUL)
  }

  lemma CharAtCString(s: string, i: nat)
    requires i <= |CString(s)|
    ensures CharAt(CString(s), i) == CharAt(s, i)
  {
  }

  /** Two names collide exactly when the buffers they would be stored in are the same. */
  lemma SameBuffer(other: string, name: string)
    ensures StrncmpEqual(Stored(other), name, NAME_SIZE - 1, 0) <==> Stored(other) == Stored(name)
  {
    SameBufferFrom(other, name, 0);
  }

  lemma {:induction false} SameBufferFrom(other: string, name: string, i: nat)
    requires i <= NAME_SIZE - 1 && i <= |CString(other)| && i <= |CString(name)|
    requires Stored(other)[..i] == Stored(name)[..i]
    ensures StrncmpEqual(Stored(other), name, NAME_SIZE - 1, i) <==> Stored(other) == Stored(name)
    decreases NAME_SIZE - i
  {
    var a, b := Stored(other), Stored(name);
    if i == NAME_SIZE - 1 {
      assert a[NAME_SIZE - 1] == b[NAME_SIZE - 1];
      assert a == a[..i] + [a[i]] && b == b[..i] + [b[i]];
    } else {
      CharAtCString(name, i);
      if a[i] == b[i] && a[i] != NUL {
        assert a[..i + 1] == a[..i] + [a[i]] && b[..i + 1] == b[..i] + [b[i]];
        SameBufferFrom(other, name, i + 1);
      } else if a[i] == b[i] {
        assert |CString(other)| == i == |CString(name)|;
        assert a == b;
      }
    }
  }

  /** A name up to its terminator, or its first 63 characters. */
  function Cut(name: string): string {
    if |CString(name)| <= 63 then CString(name) else CString(name)[..63]
  }

  /** The buffer has 64 characters, the name up to its terminator first, and ends in one; so two names are
      stored alike exactly when they agree up to their terminators or in their first 63 characters. */
  lemma StoredAlikeIff(a: string, b: string)
    ensures |Stored(a)| == 64 && Stored(a)[63] == '\0' && '\0' !in CString(a) && CString(a) <= a
    ensures |CString(a)| < |a| ==> a[|CString(a)|] == '\0'
    ensures Stored(a)[..|Cut(a)|] == Cut(a) && forall i :: |Cut(a)| <= i < 64 ==> Stored(a)[i] == '\0'
    ensures Stored(a) == Stored(b) <==> Cut(a) == Cut(b)
  {
    StoredIsCut(a);
    StoredIsCut(b);
    CutsDiffer(a, b);
    CutsDiffer(b, a);
  }

  function Padding(n: nat): string { seq(n, _ => '\0') }

  lemma StoredIsCut(a: string)
    ensures |Cut(a)| <= 63 && Stored(a) == Cut(a) + Padding(64 - |Cut(a)|)
    ensures Stored(a)[..|Cut(a)|] == Cut(a) && forall i :: |Cut(a)| <= i < 64 ==> Stored(a)[i] == '\0'
  {
    assert forall i :: 0 <= i < |Cut(a)| ==> Stored(a)[i] == CharAt(CString(a), i) == Cut(a)[i];
  }

  lemma CutsDiffer(a: string, b: string)
    ensures |Cut(a)| < |Cut(b)| ==> Stored(a)[|Cut(a)|] != Stored(b)[|Cut(a)|]
  {
    var i := |Cut(a)|;
    StoredIsCut(a);
    if i < |Cut(b)| {
      assert Stored(b)[i] == CharAt(CString(b), i) == CString(b)[i];
    }
  }

  // ---- the attaching processes ------------------------------------------------------------------

  datatype Outcome = Granted(index: nat) | DuplicateName | NoMoreChannels

  /** Where a process is inside `AllocQueueChannel`. */
  datatype Process =
    | Start(name: string)
    | Locked(name: string)
    | Scanning(name: string, count: nat, at: nat)
    | Admitted(name: string, count: nat)
    | Named(name: string, count: nat)
    | Leaving(name: string, outcome: Outcome)
    | Finished(name: string, outcome: Outcome)

  datatype Mutex = Free | HeldBy(process: nat)

  /** `grants` is the history of the process that was given each channel. */
  datatype Segment = Segment(
    names: seq<string>,
    active: nat,
    mutex: Mutex,
    processes: seq<Process>,
    grants: seq<nat>)

  function Step(s: Segment, p: nat): Segment
    requires p < |s.processes|
  {
    match s.processes[p]
    case Start(name) =>
      if s.mutex.Free? then At(s, p, Locked(name)).(mutex := HeldBy(p)) else s
    case Locked(name) => At(s, p, Scanning(name, s.active, 0))
    case Scanning(name, count, at) =>
      if at < count then
        (if at < |s.names| && CharAt(s.names[at], 0) != NUL && StrncmpEqual(s.names[at], name, NAME_SIZE - 1, 0)
         then At(s, p, Leaving(name, DuplicateName))
         else At(s, p, Scanning(name, count, at + 1)))
      else if count + 1 > |s.names| then At(s, p, Leaving(name, NoMoreChannels))
      else At(s, p, Admitted(name, count))
    case Admitted(name, count) =>
      if count < |s.names| then At(s, p, Named(name, count)).(names := s.names[count := Stored(name)]) else s
    case Named(name, count) =>
      At(s, p, Leaving(name, Granted(count))).(active := count + 1, grants := s.grants + [p])
    case Leaving(name, outcome) => At(s, p, Finished(name, outcome)).(mutex := Free)
    case Finished(_, _) => s
  }

  function At(s: Segment, p: nat, pc: Process): Segment
    requires p < |s.processes|
  {
    s.(processes := s.processes[p := pc])
  }

  // ---- the invariant ----------------------------------------------------------------------------

  predicate Inside(pc: Process) {
    !pc.Start? && !pc.Finished?
  }

  predicate NonEmptyName(name: string) {
    CharAt(name, 0) != NUL
  }

  /** No published channel among the first `n` carries the name. */
  ghost predicate Unused(s: Segment, name: string, n: nat)
    requires n <= |s.names|
  {
    forall i :: 0 <= i < n && NonEmptyName(s.names[i]) ==> s.names[i] != Stored(name)
  }

  ghost predicate ProcessInv(s: Segment, p: nat)
    requires p < |s.processes| && s.active <= |s.names|
  {
    match s.processes[p]
    case Scanning(name, count, at) => count == s.active && at <= count && Unused(s, name, at)
    case Admitted(name, count) => count == s.active < |s.names| && Unused(s, name, count)
    case Named(name, count) =>
      count == s.active < |s.names| && Unused(s, name, count) && s.names[count] == Stored(name)
    case Leaving(name, outcome) => OutcomeInv(s, p, name, outcome)
    case Finished(name, outcome) => OutcomeInv(s, p, name, outcome)
    case _ => true
  }

  /** A granted channel is published under the name it was asked for, and is this process's only; a refused
      name is taken, or all channels are. */
  ghost predicate OutcomeInv(s: Segment, p: nat, name: string, outcome: Outcome)
    requires s.active <= |s.names|
  {
    match outcome
    case Granted(index) => index < s.active <= |s.grants| && s.grants[index] == p && s.names[index] == Stored(name)
    case DuplicateName => Taken(s, name)
    case NoMoreChannels => s.active == |s.names|
  }

  /** Some published channel carries the name. */
  ghost predicate Taken(s: Segment, name: string)
    requires s.active <= |s.names|
  {
    exists i :: 0 <= i < s.active && NonEmptyName(s.names[i]) && s.names[i] == Stored(name)
  }

  ghost predicate IsStored(buffer: string) {
    exists name :: buffer == Stored(name)
  }

  ghost predicate SegmentInv(s: Segment) {
    && s.active <= |s.names|
    && |s.grants| == s.active
    && (forall i :: 0 <= i < |s.names| ==> IsStored(s.names[i]))
    && (forall i, j :: 0 <= i < j < s.active && NonEmptyName(s.names[i]) ==> s.names[i] != s.names[j])
    && (forall p :: 0 <= p < |s.processes| ==> ProcessInv(s, p))
    && (forall p :: 0 <= p < |s.processes| ==> (Inside(s.processes[p]) <==> s.mutex == HeldBy(p)))
    && (forall i :: 0 <= i < s.active ==> s.grants[i] < |s.processes| && Holds(s, s.grants[i], i))
  }

  ghost predicate Holds(s: Segment, p: nat, index: nat)
    requires p < |s.processes|
  {
    var pc := s.processes[p];
    (pc.Leaving? || pc.Finished?) && pc.outcome == Granted(index)
  }

  lemma OtherKept(s: Segment, p: nat, q: nat)
    requires SegmentInv(s) && p < |s.processes| && q < |s.processes| && p != q
    ensures var t := Step(s, p);
            t.active <= |t.names| && ProcessInv(t, q)
  {
    assert ProcessInv(s, p) && ProcessInv(s, q);
    assert Step(s, p).processes[q] == s.processes[q];
    TakenStays(s, p, q);
    hide Taken;
  }

  /** The other processes are outside the critical section, so nothing they rely on has changed. */
  lemma OthersKept(s: Segment, p: nat)
    requires SegmentInv(s) && p < |s.processes|
    ensures var t := Step(s, p);
            && t.active <= |t.names|
            && |t.grants| == t.active
            && (forall i :: 0 <= i < |t.names| ==> IsStored(t.names[i]))
            && (forall q :: 0 <= q < |t.processes| && q != p ==> ProcessInv(t, q))
  {
    var t := Step(s, p);
    assert ProcessInv(s, p);
    forall q | 0 <= q < |t.processes| && q != p
      ensures ProcessInv(t, q)
    {
      OtherKept(s, p, q);
    }
  }

  /** What was taken stays taken. */
  lemma TakenStays(s: Segment, p: nat, q: nat)
    requires SegmentInv(s) && p < |s.processes| && q < |s.processes| && p != q
    ensures var t := Step(s, p);
            && t.active <= |t.names| == |s.names|
            && (Taken(s, s.processes[q].name) ==> Taken(t, s.processes[q].name))
            && (s.active == |s.names| ==> t.active == |t.names|)
  {
    var t := Step(s, p);
    assert ProcessInv(s, p);
    if Taken(s, s.processes[q].name) {
      var i :| 0 <= i < s.active && NonEmptyName(s.names[i]) && s.names[i] == Stored(s.processes[q].name);
      assert t.names[i] == s.names[i] && i < t.active;
    }
  }

  lemma ScanStepInv(s: Segment, p: nat)
    requires SegmentInv(s) && p < |s.processes| && s.processes[p].Scanning?
    ensures SegmentInv(Step(s, p))
  {
    OthersKept(s, p);
    var t := Step(s, p);
    var Scanning(name, count, at) := s.processes[p];
    assert ProcessInv(s, p);
    if at < count {
      assert IsStored(s.names[at]);
      var other :| s.names[at] == Stored(other);
      SameBuffer(other, name);
    }
    assert ProcessInv(t, p);
    GrantsKept(s, p);
  }

  lemma PublishInv(s: Segment, p: nat)
    requires SegmentInv(s) && p < |s.processes| && s.processes[p].Named?
    ensures SegmentInv(Step(s, p))
  {
    OthersKept(s, p);
    var t := Step(s, p);
    assert ProcessInv(s, p);
    forall i | 0 <= i < t.active
      ensures t.grants[i] < |t.processes| && Holds(t, t.grants[i], i)
    {
      if i < s.active {
        assert Holds(s, s.grants[i], i);
      }
    }
  }

  lemma GrantsKept(s: Segment, p: nat)
    requires SegmentInv(s) && p < |s.processes| && !s.processes[p].Named?
    ensures var t := Step(s, p);
            && t.grants == s.grants && t.active == s.active
            && forall i :: 0 <= i < t.active ==> t.grants[i] < |t.processes| && Holds(t, t.grants[i], i)
  {
    forall i | 0 <= i < s.active
      ensures s.grants[i] < |s.processes| && Holds(Step(s, p), s.grants[i], i)
    {
      assert Holds(s, s.grants[i], i);
    }
  }

  lemma StepInv(s: Segment, p: nat)
    requires SegmentInv(s) && p < |s.processes|
    ensures SegmentInv(Step(s, p))
  {
    match s.processes[p]
    case Scanning(_, _, _) => ScanStepInv(s, p);
    case Named(_, _) => PublishInv(s, p);
    case _ =>
      OthersKept(s, p);
      GrantsKept(s, p);
      assert ProcessInv(s, p);
      assert ProcessInv(Step(s, p), p);
  }

  // ---- whole runs -------------------------------------------------------------------------------

  ghost predicate Initial(s: Segment) {
    && s.active == 0 && s.mutex.Free? && s.grants == []
    && (forall i :: 0 <= i < |s.names| ==> s.names[i] == Stored(""))
    && (forall p :: 0 <= p < |s.processes| ==> s.processes[p].Start?)
  }

  ghost function Execute(s: Segment, schedule: seq<nat>): (end: Segment)
    requires SegmentInv(s)
    requires forall i :: 0 <= i < |schedule| ==> schedule[i] < |s.processes|
    ensures SegmentInv(end) && |end.processes| == |s.processes| && |end.names| == |s.names|
    decreases |schedule|
  {
    if schedule == [] then s
    else
      var before := Execute(s, schedule[..|schedule| - 1]);
      StepInv(before, schedule[|schedule| - 1]);
      Step(before, schedule[|schedule| - 1])
  }

  /** Under every interleaving of the attaching processes: no channel is granted twice, a granted
      channel is published and carries its process's name, published non-empty names differ, and a process
      is refused only when its name is taken or there are no more channels. */
  lemma EveryAttach(s: Segment, schedule: seq<nat>, p: nat, q: nat)
    requires Initial(s) && p < |s.processes| && q < |s.processes|
    requires forall i :: 0 <= i < |schedule| ==> schedule[i] < |s.processes|
    ensures SegmentInv(s)
    ensures var end := Execute(s, schedule);
            && end.active <= |end.names|
            && (end.processes[p].Finished? && end.processes[p].outcome.Granted? ==>
                  && end.processes[p].outcome.index < end.active
                  && end.names[end.processes[p].outcome.index] == Stored(end.processes[p].name))
            && (p != q && end.processes[p].Finished? && end.processes[q].Finished?
                && end.processes[p].outcome.Granted? && end.processes[q].outcome.Granted? ==>
                  end.processes[p].outcome.index != end.processes[q].outcome.index)
            && (end.processes[p].Finished? && end.processes[p].outcome.DuplicateName? ==> Taken(end, end.processes[p].name))
            && (end.processes[p].Finished? && end.processes[p].outcome.NoMoreChannels? ==> end.active == |end.names|)
            && (forall i, j :: 0 <= i < j < end.active && NonEmptyName(end.names[i]) ==> end.names[i] != end.names[j])
  {
    var end := Execute(s, schedule);
    assert ProcessInv(end, p) && ProcessInv(end, q);
  }

  /** A process that is refused has changed neither the names nor the number of active channels:
      only the two steps after its admission write to the segment. */
  lemma RefusalChangesNothing(s: Segment, p: nat)
    requires SegmentInv(s) && p < |s.processes|
    requires !s.processes[p].Admitted? && !s.processes[p].Named?
    ensures Step(s, p).names == s.names && Step(s, p).active == s.active && Step(s, p).grants == s.grants
    ensures Step(s, p).processes[p].Leaving? && s.processes[p].Scanning? ==> !Step(s, p).processes[p].outcome.Granted?
  {
  }

  /** A slot behind the published ones is empty, or an attach is about to publish it. */
  ghost predicate Blank(s: Segment, i: nat)
    requires i < |s.names|
  {
    || s.names[i] == Stored("")
    || (s.mutex.HeldBy? && s.mutex.process < |s.processes|
        && s.processes[s.mutex.process].Named? && s.processes[s.mutex.process].count == i)
  }

  ghost predicate AllBlank(s: Segment) {
    forall i :: s.active <= i < |s.names| ==> Blank(s, i)
  }

  lemma StepBlank(s: Segment, p: nat)
    requires SegmentInv(s) && p < |s.processes|
    requires AllBlank(s)
    ensures AllBlank(Step(s, p))
  {
    var t := Step(s, p);
    assert ProcessInv(s, p);
    forall i | t.active <= i < |t.names|
      ensures Blank(t, i)
    {
      assert Blank(s, i);
      if !s.processes[p].Admitted? && !s.processes[p].Named? {
        RefusalChangesNothing(s, p);
      }
    }
  }

  lemma {:induction false} RunBlank(s: Segment, schedule: seq<nat>)
    requires SegmentInv(s) && forall i :: 0 <= i < |schedule| ==> schedule[i] < |s.processes|
    requires AllBlank(s)
    ensures AllBlank(Execute(s, schedule))
    decreases |schedule|
  {
    hide SegmentInv, AllBlank, Step;
    if schedule != [] {
      var last := |schedule| - 1;
      RunBlank(s, schedule[..last]);
      StepBlank(Execute(s, schedule[..last]), schedule[last]);
    }
  }

  /** Attaches that are refused leave no trace: whenever no attach is in progress, the published names are
      exactly those of the processes that were granted channels, and the other slots are blank. */
  lemma OnlyGrantsLeaveATrace(s: Segment, schedule: seq<nat>)
    requires Initial(s) && forall i :: 0 <= i < |schedule| ==> schedule[i] < |s.processes|
    ensures SegmentInv(s)
    ensures var end := Execute(s, schedule);
            && end.active == |end.grants| <= |end.names|
            && (forall i :: 0 <= i < end.active ==>
                  end.grants[i] < |end.processes| && end.names[i] == Stored(end.processes[end.grants[i]].name))
            && (end.mutex.Free? ==> forall i :: end.active <= i < |end.names| ==> end.names[i] == Stored(""))
  {
    var end := Execute(s, schedule);
    RunBlank(s, schedule);
    forall i | 0 <= i < end.active
      ensures end.grants[i] < |end.processes| && end.names[i] == Stored(end.processes[end.grants[i]].name)
    {
      assert Holds(end, end.grants[i], i) && ProcessInv(end, end.grants[i]);
    }
    if end.mutex.Free? {
      forall i | end.active <= i < |end.names|
        ensures end.names[i] == Stored("")
      {
        assert Blank(end, i);
      }
    }
  }

  /** When a channel becomes visible to the producer its name has already been written. */
  lemma NamedBeforePublished(s: Segment, p: nat)
    requires SegmentInv(s) && p < |s.processes| && Step(s, p).active != s.active
    ensures Step(s, p).active == s.active + 1
    ensures Step(s, p).names == s.names && s.active < |s.names| && s.names[s.active] == Stored(s.processes[p].name)
  {
    assert ProcessInv(s, p);
  }

  // ---- an attach from its start to its end ------------------------------------------------------

  ghost function Alone(s: Segment, p: nat, n: nat): (end: Segment)
    requires SegmentInv(s) && p < |s.processes|
    ensures SegmentInv(end)
    decreases n
  {
    if n == 0 then s
    else
      StepInv(s, p);
      Alone(Step(s, p), p, n - 1)
  }

  /** What an attach does to a segment: it is refused iff its name is taken or all channels are; else the
      next channel gets its name and is published. */
  ghost predicate Attached(s: Segment, p: nat, name: string, end: Segment)
    requires p < |s.processes| && s.active <= |s.names|
  {
    var refused := s.(mutex := Free, processes := s.processes[p := Finished(name, if Taken(s, name) then DuplicateName else NoMoreChannels)]);
    if Taken(s, name) || s.active == |s.names| then end == refused
    else
      end == refused.(names := s.names[s.active := Stored(name)], active := s.active + 1, grants := s.grants + [p],
                      processes := s.processes[p := Finished(name, Granted(s.active))])
  }

  lemma {:induction false} FinishedStays(s: Segment, p: nat, n: nat)
    requires SegmentInv(s) && p < |s.processes| && s.processes[p].Finished?
    ensures Alone(s, p, n) == s
    decreases n
  {
    hide SegmentInv;
    if n > 0 {
      FinishedStays(s, p, n - 1);
    }
  }

  lemma LeavesAlone(s: Segment, p: nat, n: nat)
    requires SegmentInv(s) && p < |s.processes| && s.processes[p].Leaving? && n >= 1
    ensures Alone(s, p, n) == s.(mutex := Free, processes := s.processes[p := Finished(s.processes[p].name, s.processes[p].outcome)])
  {
    hide SegmentInv;
    StepInv(s, p);
    FinishedStays(Step(s, p), p, n - 1);
  }

  lemma AdmittedAlone(s: Segment, p: nat, n: nat)
    requires SegmentInv(s) && p < |s.processes| && s.processes[p].Admitted? && n >= 3
    ensures var Admitted(name, count) := s.processes[p];
            && count == s.active < |s.names|
            && Alone(s, p, n) == s.(names := s.names[count := Stored(name)], active := count + 1, grants := s.grants + [p], mutex := Free,
                                    processes := s.processes[p := Finished(name, Granted(count))])
  {
    assert ProcessInv(s, p);
    hide SegmentInv, ProcessInv;
    StepInv(s, p);
    var named := Step(s, p);
    StepInv(named, p);
    LeavesAlone(Step(named, p), p, n - 2);
    assert Alone(named, p, n - 1) == Alone(Step(named, p), p, n - 2);
  }

  lemma ScanSees(s: Segment, p: nat)
    requires SegmentInv(s) && p < |s.processes| && s.processes[p].Scanning? && s.processes[p].at < s.active
    ensures var Scanning(name, count, at) := s.processes[p];
            && count == s.active <= |s.names|
            && Step(s, p) == At(s, p, if NonEmptyName(s.names[at]) && s.names[at] == Stored(name) then Leaving(name, DuplicateName)
                                      else Scanning(name, count, at + 1))
  {
    var Scanning(name, count, at) := s.processes[p];
    assert ProcessInv(s, p) && IsStored(s.names[at]);
    var other :| s.names[at] == Stored(other);
    SameBuffer(other, name);
  }

  lemma ScanEnds(s: Segment, p: nat)
    requires SegmentInv(s) && p < |s.processes| && s.processes[p].Scanning? && s.processes[p].at >= s.active
    ensures var Scanning(name, count, at) := s.processes[p];
            && at == count == s.active <= |s.names| && !Taken(s, name)
            && Step(s, p) == At(s, p, if s.active == |s.names| then Leaving(name, NoMoreChannels) else Admitted(name, count))
  {
    assert ProcessInv(s, p);
  }

  lemma {:induction false} ScansAlone(s: Segment, p: nat, n: nat)
    requires SegmentInv(s) && p < |s.processes| && s.processes[p].Scanning? && n >= s.active - s.processes[p].at + 4
    ensures s.active <= |s.names| && Attached(s, p, s.processes[p].name, Alone(s, p, n))
    decreases n
  {
    hide SegmentInv, Step, NonEmptyName, Stored;
    StepInv(s, p);
    var t := Step(s, p);
    if s.processes[p].at < s.active {
      ScanSees(s, p);
      if t.processes[p].Leaving? {
        LeavesAlone(t, p, n - 1);
      } else {
        ScansAlone(t, p, n - 1);
      }
    } else {
      ScanEnds(s, p);
      if t.processes[p].Leaving? {
        LeavesAlone(t, p, n - 1);
      } else {
        AdmittedAlone(t, p, n - 1);
      }
    }
  }

  lemma LocksAndScans(s: Segment, p: nat)
    requires SegmentInv(s) && p < |s.processes| && s.processes[p].Start? && s.mutex.Free?
    ensures var name := s.processes[p].name;
            var locked := At(s, p, Locked(name)).(mutex := HeldBy(p));
            var scanning := At(locked, p, Scanning(name, s.active, 0));
            && Step(s, p) == locked && Step(locked, p) == scanning && s.active <= |s.names|
            && (Taken(scanning, name) <==> Taken(s, name))
            && scanning.processes == s.processes[p := Scanning(name, s.active, 0)]
  {
  }

  /** An attach that nothing interrupts, once the mutex is free, does exactly that. */
  lemma AttachesAlone(s: Segment, p: nat, n: nat)
    requires SegmentInv(s) && p < |s.processes| && s.processes[p].Start? && s.mutex.Free? && n >= s.active + 6
    ensures Attached(s, p, s.processes[p].name, Alone(s, p, n))
  {
    LocksAndScans(s, p);
    hide SegmentInv, Step, Taken;
    StepInv(s, p);
    var locked := Step(s, p);
    StepInv(locked, p);
    ScansAlone(Step(locked, p), p, n - 2);
    assert Alone(locked, p, n - 1) == Alone(Step(locked, p), p, n - 2);
  }

  // ---- the allocation as one call ---------------------------------------------------------------

  class SharedMemoryLayout {
    const allowedChannels: nat
    var names: seq<string>
    var activeChannels: nat

    ghost predicate Valid()
      reads this
    {
      && |names| == allowedChannels && activeChannels <= allowedChannels
      && (forall i :: 0 <= i < |names| ==> IsStored(names[i]))
      && (forall i, j :: 0 <= i < j < activeChannels && NonEmptyName(names[i]) ==> names[i] != names[j])
    }

    constructor (channels: nat)
      ensures Valid() && allowedChannels == channels && activeChannels == 0
    {
      allowedChannels := channels;
      names := seq(channels, _ => Stored(""));
      activeChannels := 0;
    }

    method AllocQueueChannel(consumerName: string) returns (outcome: Outcome)
      requires Valid()
      modifies this
      ensures Valid()
      ensures outcome.DuplicateName? <==>
                exists i :: 0 <= i < old(activeChannels) && NonEmptyName(old(names)[i]) && old(names)[i] == Stored(consumerName)
      ensures outcome.NoMoreChannels? <==> !outcome.DuplicateName? && old(activeChannels) == allowedChannels
      ensures outcome.Granted? ==>
                && outcome.index == old(activeChannels) < allowedChannels
                && activeChannels == old(activeChannels) + 1
                && names == old(names)[outcome.index := Stored(consumerName)]
      ensures !outcome.Granted? ==> names == old(names) && activeChannels == old(activeChannels)
    {
      var currentChannels := activeChannels;
      var i := 0;
      while i < currentChannels
        invariant i <= currentChannels && names == old(names) && activeChannels == old(activeChannels)
        invariant forall k :: 0 <= k < i && NonEmptyName(names[k]) ==> names[k] != Stored(consumerName)
      {
        assert IsStored(names[i]);
        ghost var other :| names[i] == Stored(other);
        SameBuffer(other, consumerName);
        if CharAt(names[i], 0) != NUL && StrncmpEqual(names[i], consumerName, NAME_SIZE - 1, 0) {
          return DuplicateName;
        }
        i := i + 1;
      }
      currentChannels := currentChannels + 1;
      if currentChannels > allowedChannels {
        return NoMoreChannels;
      }
      names := names[currentChannels - 1 := Stored(consumerName)];
      activeChannels := currentChannels;
      outcome := Granted(currentChannels - 1);
    }
  }

  // ---- where the channels lie -------------------------------------------------------------------

  /** Conversion to an unsigned 32-bit integer. */
  function U32(n: nat): nat {
    n % 0x1_0000_0000
  }

  /** The bytes of one channel: its header and its slots, for a queue of `entries` entries. */
  function QueueBytes(header: nat, slot: nat, entries: nat): nat {
    header + slot * U32(entries + 1)
  }

  /** The address a channel's `next` computes from the queue size stored in the channel itself. */
  function NextChannel(at: nat, header: nat, slot: nat, storedQueueSize: nat): nat {
    at + header + slot * storedQueueSize
  }

  /** Where the constructor's walk over the channels stands after `i` of them. */
  function Walk(base: nat, header: nat, slot: nat, entries: nat, i: nat): nat {
    if i == 0 then base
    else NextChannel(Walk(base, header, slot, entries, i - 1), header, slot, U32(entries + 1))
  }

  /** Where `getQueueChannel` finds channel `i`. */
  function Indexed(base: nat, header: nat, slot: nat, entries: nat, i: nat): nat {
    base + QueueBytes(header, slot, entries) * i
  }

  function SegmentBytes(layout: nat, header: nat, slot: nat, entries: nat, channels: nat): nat {
    var wanted := layout + QueueBytes(header, slot, entries) * channels;
    if wanted < 4096 then 4096 else wanted
  }

  /** Slot counts wrap at 32 bits, and a segment is never smaller than a page of 4096 bytes. */
  lemma SegmentSize(layout: nat, header: nat, slot: nat, entries: nat, channels: nat)
    ensures U32(entries) < 4_294_967_296 && (entries < 4_294_967_296 ==> U32(entries) == entries)
    ensures U32(entries + 4_294_967_296) == U32(entries)
    ensures var bytes := SegmentBytes(layout, header, slot, entries, channels);
            var wanted := layout + (header + slot * U32(entries + 1)) * channels;
            bytes >= 4096 && bytes >= wanted && (bytes == 4096 || bytes == wanted)
  {
  }

  lemma {:induction false} WalkIsIndexed(base: nat, header: nat, slot: nat, entries: nat, i: nat)
    ensures Walk(base, header, slot, entries, i) == Indexed(base, header, slot, entries, i)
  {
    if i > 0 {
      WalkIsIndexed(base, header, slot, entries, i - 1);
      var bytes := QueueBytes(header, slot, entries);
      assert bytes * i == bytes * (i - 1) + bytes;
    }
  }

  lemma {:induction false} MultipleBelow(bytes: nat, i: nat, j: nat)
    requires i < j
    ensures bytes * i + bytes <= bytes * j
  {
    assert bytes * j == bytes * (j - 1) + bytes;
    if i < j - 1 {
      MultipleBelow(bytes, i, j - 1);
    }
  }

  /** The regions constructed by the walk are the ones looked up by index, pairwise disjoint, behind
      the segment's own header and inside the segment; and a slot below the stored queue size lies
      inside its channel's region. */
  lemma ChannelRegions(layout: nat, header: nat, slot: nat, entries: nat, channels: nat, i: nat, j: nat, at: nat)
    requires i < channels && j < channels && at < U32(entries + 1)
    ensures var bytes := QueueBytes(header, slot, entries);
            var a := Walk(layout, header, slot, entries, i);
            var b := Indexed(layout, header, slot, entries, j);
            && (i == j ==> a == b)
            && (i < j ==> a + bytes <= b)
            && (j < i ==> b + bytes <= a)
            && layout <= a && a + bytes <= SegmentBytes(layout, header, slot, entries, channels)
            && a + header + slot * at + slot <= a + bytes
  {
    var bytes := QueueBytes(header, slot, entries);
    WalkIsIndexed(layout, header, slot, entries, i);
    if i < j { MultipleBelow(bytes, i, j); }
    if j < i { MultipleBelow(bytes, j, i); }
    MultipleBelow(bytes, i, channels);
    MultipleBelow(slot, at, U32(entries + 1));
  }
}
