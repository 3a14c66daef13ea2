/** The send queue of the TLS and TCP endpoints: partial writes, a byte budget, completion callbacks
    that may send again, and the drain task that the event loop runs until the queue is empty.
 */
module SendQueue {
  import opened Wrappers

  datatype Transport = Tls | Tcp

  /** The byte budget of a connection. */
  function Limit(t: Transport): nat {
    match t
    case Tls => 10 * 1024 * 1024
    case Tcp => 100 * 1024
  }

  /** What a non-blocking write reports. */
  datatype WriteResult = Wrote(bytes: nat) | WouldBlock | Broken

  /** Over TCP every write that gets nothing out is an error, also one that would block. */
  predicate Fails(t: Transport, write: WriteResult) {
    write == Broken || (t == Tcp && (write == WouldBlock || write == Wrote(0)))
  }

  /** A send that was queued; `id` is its place among all accepted sends. */
  datatype PendingAsyncSend = PendingAsyncSend(payload: string, id: nat)

  /** A send that was accepted, and whether it has a completion callback. */
  datatype Accepted = Accepted(payload: string, callback: bool)

  /** A send made by a completion callback. */
  datatype Nested = Nested(payload: string, sync: bool)

  /** The fields of an endpoint, the number of drain tasks in the event queue, and the histories: what
      was accepted, how many of those sends are complete, the bytes written, the callbacks run.
      `firing` says that the active callback has been called and has not returned well; `stalled` that
      the drain task of a send in progress was lost. */
  datatype Queue = Queue(
    outboundBuffer: string, asyncBytesSent: nat, queuedBackpressureBytes: nat, asyncSendInProgress: bool,
    activeFinishCB: Option<nat>, pendingAsyncSends: seq<PendingAsyncSend>,
    tasks: nat, connected: bool, firing: bool, stalled: bool,
    accepted: seq<Accepted>, completed: nat, wire: string, fired: seq<nat>)

  const START := Queue("", 0, 0, false, None, [], 0, true, false, false, [], 0, "", [])

  // ---- sending ----------------------------------------------------------------------------------

  function ActiveBytes(q: Queue): nat {
    if q.asyncSendInProgress && |q.outboundBuffer| >= q.asyncBytesSent then |q.outboundBuffer| - q.asyncBytesSent else 0
  }

  /** `clearAsyncSendState`, when the connection is dropped. */
  function Dropped(q: Queue): Queue {
    q.(outboundBuffer := "", pendingAsyncSends := [], activeFinishCB := None, queuedBackpressureBytes := 0,
       asyncBytesSent := 0, asyncSendInProgress := false, firing := false, connected := false)
  }

  function Queued(q: Queue, payload: string): Queue {
    q.(queuedBackpressureBytes := q.queuedBackpressureBytes + |payload|,
       pendingAsyncSends := q.pendingAsyncSends + [PendingAsyncSend(payload, |q.accepted|)],
       accepted := q.accepted + [Accepted(payload, true)])
  }

  /** `posted` says whether the event queue took the drain task. */
  function Activated(q: Queue, payload: string, posted: bool): Queue {
    q.(outboundBuffer := payload, activeFinishCB := Some(|q.accepted|), asyncBytesSent := 0, asyncSendInProgress := true,
       accepted := q.accepted + [Accepted(payload, true)],
       tasks := if posted then q.tasks + 1 else q.tasks, stalled := !posted)
  }

  function SendAsync(t: Transport, q: Queue, payload: string, posted: bool): Queue {
    if !q.connected then q
    else if q.queuedBackpressureBytes + ActiveBytes(q) + |payload| > Limit(t) then Dropped(q)
    else if q.asyncSendInProgress then Queued(q, payload)
    else Activated(q, payload, posted)
  }

  /** How much a sequence of writes gets out of `left` bytes; over TLS, writes that would block are tried
      again.  None when the writes do not suffice, Some((n, broken)) otherwise. */
  function Written(t: Transport, left: nat, writes: seq<WriteResult>): (r: Option<(nat, bool)>)
    ensures r.Some? ==> r.value.0 <= left && (r.value.1 || r.value.0 == left)
    decreases |writes|
  {
    if left == 0 then Some((0, false))
    else if writes == [] then None
    else if Fails(t, writes[0]) then Some((0, true))
    else if writes[0] == WouldBlock then Written(t, left, writes[1..])
    else
      var n := writes[0].bytes;
      if n == 0 || n > left then None
      else
        match Written(t, left - n, writes[1..])
        case None => None
        case Some(w) => Some((n + w.0, w.1))
  }

  /** A send with nothing in progress goes straight to the socket. */
  function WrittenDirectly(t: Transport, q: Queue, payload: string, writes: seq<WriteResult>): Queue
    requires Written(t, |payload|, writes).Some?
  {
    var w := Written(t, |payload|, writes).value;
    var p := q.(accepted := q.accepted + [Accepted(payload, false)], wire := q.wire + payload[..w.0]);
    if w.1 then Dropped(p) else p.(completed := p.completed + 1)
  }

  function Send(t: Transport, q: Queue, payload: string, writes: seq<WriteResult>): Queue
    requires Written(t, |payload|, writes).Some?
  {
    if !q.connected then q
    else if q.asyncSendInProgress then if t == Tls then SendAsync(t, q, payload, true) else q
    else WrittenDirectly(t, q, payload, writes)
  }

  // ---- draining ---------------------------------------------------------------------------------

  /** The sends of a callback; a send is in progress while it runs. */
  function RunCallback(t: Transport, q: Queue, script: seq<Nested>): Queue
    decreases |script|
  {
    if script == [] then q
    else
      var n := script[0];
      RunCallback(t, if n.sync && t == Tcp then q else SendAsync(t, q, n.payload, true), script[1..])
  }

  /** All bytes of the active send are written: its callback is called. */
  function Fire(q: Queue): Queue {
    q.(outboundBuffer := "", asyncBytesSent := 0, wire := q.wire + q.outboundBuffer[if q.asyncBytesSent <= |q.outboundBuffer| then q.asyncBytesSent else 0..],
       completed := q.completed + 1, fired := if q.activeFinishCB.Some? then q.fired + [q.activeFinishCB.value] else q.fired,
       firing := true)
  }

  /** The drain task returns an error, or posts itself again in vain, and is not run again. */
  function TaskLost(q: Queue): Queue {
    q.(tasks := if q.tasks > 0 then q.tasks - 1 else 0, stalled := true)
  }

  /** The drain task is not finished and posts itself again; the event queue refuses that while a payload
      is engaged. */
  function PostedAgain(q: Queue, reposted: bool): Queue {
    if reposted then q else TaskLost(q)
  }

  /** The drain task goes on with the next send, or ends. */
  function TakeNext(q: Queue, reposted: bool): Queue {
    var p := q.(activeFinishCB := None, asyncSendInProgress := false, firing := false);
    if p.pendingAsyncSends == [] then p.(tasks := if p.tasks > 0 then p.tasks - 1 else 0)
    else PostedAgain(Promoted(p), reposted)
  }

  /** The oldest pending send becomes the active one. */
  function Promoted(q: Queue): Queue
    requires q.pendingAsyncSends != []
  {
    var next := q.pendingAsyncSends[0];
    q.(pendingAsyncSends := q.pendingAsyncSends[1..],
       queuedBackpressureBytes := if q.queuedBackpressureBytes >= |next.payload| then q.queuedBackpressureBytes - |next.payload| else 0,
       outboundBuffer := next.payload, activeFinishCB := Some(next.id), asyncBytesSent := 0, asyncSendInProgress := true)
  }

  /** The callback has returned. */
  function Returned(q: Queue, ok: bool, reposted: bool): Queue {
    if ok then TakeNext(q, reposted) else TaskLost(q)
  }

  function PartlyWritten(q: Queue, n: nat): Queue
    requires q.asyncBytesSent + n <= |q.outboundBuffer|
  {
    q.(asyncBytesSent := q.asyncBytesSent + n, wire := q.wire + q.outboundBuffer[q.asyncBytesSent..q.asyncBytesSent + n])
  }

  /** What comes from outside in one run of the drain task: the outcome of its write, what the callback
      does and returns should it be called, and the event queue's answer should the task post itself
      again. */
  datatype TaskRun = TaskRun(write: WriteResult, script: seq<Nested>, ok: bool, reposted: bool)

  function Drain(t: Transport, q: Queue, run: TaskRun): Queue {
    if q.tasks == 0 then q
    else if !q.asyncSendInProgress then TakeNext(q, run.reposted)
    else if q.outboundBuffer == "" then TaskLost(q)
    else if Fails(t, run.write) then if t == Tls then TakeNext(Dropped(q), run.reposted) else TaskLost(q)
    else if run.write == WouldBlock then PostedAgain(q, run.reposted)
    else
      var n := run.write.bytes;
      if n == 0 || n > ActiveBytes(q) then q
      else if n < ActiveBytes(q) then PostedAgain(PartlyWritten(q, n), run.reposted)
      else Returned(RunCallback(t, Fire(q), run.script), run.ok, run.reposted)
  }

  // ---- what every queue satisfies ---------------------------------------------------------------

  /** All the bytes of some accepted sends. */
  function Bytes(sends: seq<Accepted>): string {
    if sends == [] then "" else Bytes(sends[..|sends| - 1]) + sends[|sends| - 1].payload
  }

  function PendingBytes(pending: seq<PendingAsyncSend>): string {
    if pending == [] then "" else pending[0].payload + PendingBytes(pending[1..])
  }

  function Sum(pending: seq<PendingAsyncSend>): nat {
    if pending == [] then 0 else |pending[0].payload| + Sum(pending[1..])
  }

  /** The sends among the first `k` that have a callback, in acceptance order. */
  function Callbacks(sends: seq<Accepted>, k: nat): seq<nat>
    requires k <= |sends|
  {
    if k == 0 then [] else Callbacks(sends, k - 1) + if sends[k - 1].callback then [k - 1] else []
  }

  /** An active send whose callback has not been called. */
  predicate Sending(q: Queue) { q.asyncSendInProgress && !q.firing }

  /** Where the pending sends begin among the accepted ones. */
  function FirstPending(q: Queue): nat { q.completed + if Sending(q) then 1 else 0 }

  /** The pending sends are the last accepted ones. */
  ghost predicate PendingOk(q: Queue) {
    && |q.accepted| == FirstPending(q) + |q.pendingAsyncSends|
    && forall i :: 0 <= i < |q.pendingAsyncSends| ==> PendingAt(q, i)
  }

  ghost predicate PendingAt(q: Queue, i: nat)
    requires i < |q.pendingAsyncSends| && FirstPending(q) + i < |q.accepted|
  {
    var id := FirstPending(q) + i;
    q.pendingAsyncSends[i] == PendingAsyncSend(q.accepted[id].payload, id) && q.accepted[id].callback
  }

  ghost predicate ActiveOk(q: Queue) {
    if Sending(q) then
      && q.completed < |q.accepted| && q.accepted[q.completed] == Accepted(q.outboundBuffer, true)
      && q.activeFinishCB == Some(q.completed)
      && (q.asyncBytesSent < |q.outboundBuffer| || (q.outboundBuffer == "" && q.asyncBytesSent == 0))
    else
      q.outboundBuffer == "" && q.asyncBytesSent == 0 && (q.firing ==> q.asyncSendInProgress)
  }

  /** A connected endpoint: what is accepted is written, in the buffer, or pending; the budget holds; a
      drain task is posted iff a send is in progress that is not stalled. */
  ghost predicate Open(t: Transport, q: Queue) {
    && PendingOk(q) && ActiveOk(q)
    && q.queuedBackpressureBytes == Sum(q.pendingAsyncSends)
    && q.queuedBackpressureBytes + ActiveBytes(q) <= Limit(t)
    && q.wire == Bytes(q.accepted[..q.completed]) + q.outboundBuffer[..q.asyncBytesSent]
    && (!q.asyncSendInProgress ==> q.pendingAsyncSends == [] && !q.stalled)
    && q.tasks == (if q.asyncSendInProgress && !q.stalled then 1 else 0)
  }

  /** A dropped connection: nothing is left to send, and what was written is the front of what was
      accepted. */
  ghost predicate Over(q: Queue) {
    && q.outboundBuffer == "" && q.asyncBytesSent == 0 && q.queuedBackpressureBytes == 0 && q.pendingAsyncSends == []
    && !q.asyncSendInProgress && !q.firing && q.tasks <= 1 && q.completed <= |q.accepted|
    && Bytes(q.accepted[..q.completed]) <= q.wire <= Bytes(q.accepted)
  }

  ghost predicate Inv(t: Transport, q: Queue) {
    && q.completed <= |q.accepted|
    && q.fired == Callbacks(q.accepted, q.completed)
    && if q.connected then Open(t, q) else Over(q)
  }

  /** Between two runs of the drain task no callback is running. */
  ghost predicate AtRest(t: Transport, q: Queue) {
    Inv(t, q) && (q.firing ==> q.stalled)
  }

  // ---- lemmas about the histories ---------------------------------------------------------------

  lemma {:induction false} CallbacksGrow(sends: seq<Accepted>, x: Accepted, k: nat)
    requires k <= |sends|
    ensures Callbacks(sends + [x], k) == Callbacks(sends, k)
  {
    if k > 0 {
      CallbacksGrow(sends, x, k - 1);
    }
  }

  lemma BytesTaken(sends: seq<Accepted>, k: nat)
    requires k < |sends|
    ensures Bytes(sends[..k + 1]) == Bytes(sends[..k]) + sends[k].payload
  {
    assert sends[..k + 1][..k] == sends[..k];
  }

  lemma {:induction false} BytesPrefix(sends: seq<Accepted>, k: nat)
    requires k <= |sends|
    ensures Bytes(sends[..k]) <= Bytes(sends)
    decreases |sends| - k
  {
    if k < |sends| {
      BytesTaken(sends, k);
      BytesPrefix(sends, k + 1);
    } else {
      assert sends[..k] == sends;
    }
  }

  /** Accepting one more send changes nothing about the earlier ones. */
  lemma HistoryGrows(sends: seq<Accepted>, x: Accepted, k: nat)
    requires k <= |sends|
    ensures (sends + [x])[..k] == sends[..k]
    ensures Callbacks(sends + [x], k) == Callbacks(sends, k)
    ensures Bytes(sends + [x]) == Bytes(sends) + x.payload
  {
    CallbacksGrow(sends, x, k);
    assert (sends + [x])[..|sends|] == sends;
  }

  lemma {:induction false} SumAppends(pending: seq<PendingAsyncSend>, x: PendingAsyncSend)
    ensures Sum(pending + [x]) == Sum(pending) + |x.payload|
  {
    if pending == [] {
      assert pending + [x] == [x] && [x][1..] == [];
    } else {
      assert (pending + [x])[1..] == pending[1..] + [x];
      SumAppends(pending[1..], x);
    }
  }

  lemma {:induction false} SumIsLength(pending: seq<PendingAsyncSend>)
    ensures |PendingBytes(pending)| == Sum(pending)
  {
    if pending != [] {
      SumIsLength(pending[1..]);
    }
  }

  // ---- every operation keeps the invariant ------------------------------------------------------

  lemma DroppedInv(t: Transport, q: Queue)
    requires Inv(t, q) && q.connected
    ensures Inv(t, Dropped(q))
  {
    BytesPrefix(q.accepted, q.completed);
    if Sending(q) {
      BytesTaken(q.accepted, q.completed);
      BytesPrefix(q.accepted, q.completed + 1);
    } else {
      assert q.outboundBuffer[..q.asyncBytesSent] == "";
    }
  }

  lemma QueuedInv(t: Transport, q: Queue, payload: string)
    requires Inv(t, q) && q.connected && q.asyncSendInProgress
    requires q.queuedBackpressureBytes + ActiveBytes(q) + |payload| <= Limit(t)
    ensures Inv(t, Queued(q, payload))
  {
    hide Bytes, Callbacks, Sum;
    var p := Queued(q, payload);
    HistoryGrows(q.accepted, Accepted(payload, true), q.completed);
    SumAppends(q.pendingAsyncSends, PendingAsyncSend(payload, |q.accepted|));
    forall i | 0 <= i < |p.pendingAsyncSends|
      ensures PendingAt(p, i)
    {
      if i < |q.pendingAsyncSends| {
        assert PendingAt(q, i);
      }
    }
  }

  lemma ActivatedInv(t: Transport, q: Queue, payload: string, posted: bool)
    requires Inv(t, q) && q.connected && !q.asyncSendInProgress && |payload| <= Limit(t)
    ensures Inv(t, Activated(q, payload, posted))
  {
    HistoryGrows(q.accepted, Accepted(payload, true), q.completed);
  }

  lemma SendAsyncInv(t: Transport, q: Queue, payload: string, posted: bool)
    requires Inv(t, q)
    ensures var p := SendAsync(t, q, payload, posted);
            && Inv(t, p)
            && (p.connected ==> q.connected && p.asyncSendInProgress && p.firing == q.firing)
            && (p.connected && q.asyncSendInProgress ==> p.stalled == q.stalled)
  {
    if q.connected {
      if q.queuedBackpressureBytes + ActiveBytes(q) + |payload| > Limit(t) {
        DroppedInv(t, q);
      } else if q.asyncSendInProgress {
        QueuedInv(t, q, payload);
      } else {
        ActivatedInv(t, q, payload, posted);
      }
    }
  }

  lemma WholeWriteInv(t: Transport, q: Queue, payload: string)
    requires Inv(t, q) && q.connected && !q.asyncSendInProgress
    ensures var x := Accepted(payload, false);
            Inv(t, q.(accepted := q.accepted + [x], wire := q.wire + payload, completed := q.completed + 1))
  {
    hide Bytes;
    var x := Accepted(payload, false);
    HistoryGrows(q.accepted, x, q.completed);
    assert q.accepted[..q.completed] == q.accepted && (q.accepted + [x])[..|q.accepted| + 1] == q.accepted + [x];
    assert Callbacks(q.accepted + [x], |q.accepted| + 1) == Callbacks(q.accepted + [x], |q.accepted|) + [];
    assert q.wire == Bytes(q.accepted);
  }

  lemma CutWriteInv(t: Transport, q: Queue, payload: string, n: nat)
    requires Inv(t, q) && q.connected && !q.asyncSendInProgress && n <= |payload|
    ensures var x := Accepted(payload, false);
            Inv(t, Dropped(q.(accepted := q.accepted + [x], wire := q.wire + payload[..n])))
  {
    hide Bytes, Callbacks;
    var x := Accepted(payload, false);
    HistoryGrows(q.accepted, x, q.completed);
    assert q.accepted[..q.completed] == q.accepted;
    assert q.wire == Bytes(q.accepted);
    assert q.wire + payload[..n] <= Bytes(q.accepted + [x]);
  }

  lemma WrittenDirectlyInv(t: Transport, q: Queue, payload: string, writes: seq<WriteResult>)
    requires Inv(t, q) && q.connected && !q.asyncSendInProgress && Written(t, |payload|, writes).Some?
    ensures Inv(t, WrittenDirectly(t, q, payload, writes))
  {
    hide Written, Inv, Dropped;
    var (n, broken) := Written(t, |payload|, writes).value;
    if broken {
      CutWriteInv(t, q, payload, n);
    } else {
      WholeWriteInv(t, q, payload);
      assert payload[..n] == payload;
    }
  }

  lemma FireInv(t: Transport, q: Queue)
    requires AtRest(t, q) && q.connected && Sending(q) && !q.stalled
    ensures Inv(t, Fire(q)) && Fire(q).connected && Fire(q).asyncSendInProgress && Fire(q).firing
  {
    hide Bytes;
    var p := Fire(q);
    BytesTaken(q.accepted, q.completed);
    assert q.outboundBuffer == q.outboundBuffer[..q.asyncBytesSent] + q.outboundBuffer[q.asyncBytesSent..];
    assert p.wire == Bytes(p.accepted[..p.completed]) + p.outboundBuffer[..p.asyncBytesSent];
    forall i | 0 <= i < |p.pendingAsyncSends|
      ensures PendingAt(p, i)
    {
      assert PendingAt(q, i);
    }
  }

  lemma {:induction false} RunCallbackInv(t: Transport, q: Queue, script: seq<Nested>)
    requires Inv(t, q) && (q.connected ==> q.firing)
    ensures var p := RunCallback(t, q, script);
            Inv(t, p) && (p.connected ==> q.connected && p.firing && p.stalled == q.stalled)
    decreases |script|
  {
    if script != [] {
      var n := script[0];
      SendAsyncInv(t, q, n.payload, true);
      RunCallbackInv(t, if n.sync && t == Tcp then q else SendAsync(t, q, n.payload, true), script[1..]);
    }
  }

  lemma TaskLostInv(t: Transport, q: Queue)
    requires Inv(t, q) && (q.connected ==> q.asyncSendInProgress && !q.stalled)
    ensures AtRest(t, TaskLost(q))
  {
    var p := TaskLost(q);
    if q.connected {
      forall i | 0 <= i < |p.pendingAsyncSends|
        ensures PendingAt(p, i)
      {
        assert PendingAt(q, i);
      }
    }
  }

  lemma PostedAgainInv(t: Transport, q: Queue, reposted: bool)
    requires AtRest(t, q) && q.connected && q.asyncSendInProgress && !q.stalled
    ensures AtRest(t, PostedAgain(q, reposted))
  {
    hide Inv;
    TaskLostInv(t, q);
  }

  lemma PromotedInv(t: Transport, q: Queue)
    requires Inv(t, q) && q.connected && q.firing && !q.stalled && q.pendingAsyncSends != []
    ensures AtRest(t, Promoted(q.(activeFinishCB := None, asyncSendInProgress := false, firing := false)))
  {
    var p := Promoted(q.(activeFinishCB := None, asyncSendInProgress := false, firing := false));
    assert PendingAt(q, 0);
    forall i | 0 <= i < |p.pendingAsyncSends|
      ensures PendingAt(p, i)
    {
      assert PendingAt(q, i + 1);
    }
    assert p.outboundBuffer[..0] == q.outboundBuffer[..0];
  }

  lemma TakeNextInv(t: Transport, q: Queue, reposted: bool)
    requires Inv(t, q) && (q.connected ==> q.firing && !q.stalled)
    ensures AtRest(t, TakeNext(q, reposted))
  {
    hide Bytes, Callbacks, Sum;
    if q.connected && q.pendingAsyncSends != [] {
      PromotedInv(t, q);
      PostedAgainInv(t, Promoted(q.(activeFinishCB := None, asyncSendInProgress := false, firing := false)), reposted);
    }
  }

  lemma PartialWriteInv(t: Transport, q: Queue, n: nat)
    requires AtRest(t, q) && q.connected && Sending(q) && 0 < n < ActiveBytes(q)
    ensures AtRest(t, PartlyWritten(q, n))
  {
    hide Bytes, Callbacks, Sum;
    var sent := q.asyncBytesSent;
    var p := PartlyWritten(q, n);
    assert q.outboundBuffer[..sent + n] == q.outboundBuffer[..sent] + q.outboundBuffer[sent..sent + n];
    forall i | 0 <= i < |p.pendingAsyncSends|
      ensures PendingAt(p, i)
    {
      assert PendingAt(q, i);
    }
  }

  lemma WholeSendInv(t: Transport, q: Queue, run: TaskRun)
    requires AtRest(t, q) && q.connected && Sending(q) && !q.stalled
    ensures AtRest(t, Returned(RunCallback(t, Fire(q), run.script), run.ok, run.reposted))
  {
    hide Inv;
    var p := RunCallback(t, Fire(q), run.script);
    FireInv(t, q);
    RunCallbackInv(t, Fire(q), run.script);
    if run.ok {
      TakeNextInv(t, p, run.reposted);
    } else {
      if p.connected {
        CallbackStays(t, p);
      }
      TaskLostInv(t, p);
    }
  }

  lemma CallbackStays(t: Transport, q: Queue)
    requires Inv(t, q) && q.connected && q.firing
    ensures q.asyncSendInProgress
  {
  }

  lemma DrainInv(t: Transport, q: Queue, run: TaskRun)
    requires AtRest(t, q)
    ensures AtRest(t, Drain(t, q, run))
  {
    hide Bytes, Callbacks, PendingOk;
    if q.tasks > 0 {
      if !q.asyncSendInProgress {
        TakeNextInv(t, q, run.reposted);
      } else if q.outboundBuffer == "" {
        TaskLostInv(t, q);
      } else if Fails(t, run.write) {
        if t == Tls {
          DroppedInv(t, q);
          TakeNextInv(t, Dropped(q), run.reposted);
        } else {
          TaskLostInv(t, q);
        }
      } else if run.write == WouldBlock {
        PostedAgainInv(t, q, run.reposted);
      } else if 0 < run.write.bytes < ActiveBytes(q) {
        PartialWriteInv(t, q, run.write.bytes);
        PostedAgainInv(t, PartlyWritten(q, run.write.bytes), run.reposted);
      } else if run.write.bytes == ActiveBytes(q) {
        WholeSendInv(t, q, run);
      }
    }
  }

  // ---- every run --------------------------------------------------------------------------------

  /** What can happen to an endpoint between two runs of its callbacks; `Drop` is a disconnection
      noticed elsewhere. */
  datatype Action =
    | DoSendAsync(payload: string, posted: bool)
    | DoSend(payload: string, writes: seq<WriteResult>)
    | DoDrain(run: TaskRun)
    | Drop

  function Next(t: Transport, q: Queue, a: Action): Queue {
    match a
    case DoSendAsync(payload, posted) => SendAsync(t, q, payload, posted)
    case DoSend(payload, writes) => if Written(t, |payload|, writes) == None then q else Send(t, q, payload, writes)
    case DoDrain(run) => Drain(t, q, run)
    case Drop => if q.connected then Dropped(q) else q
  }

  function Run(t: Transport, q: Queue, actions: seq<Action>): Queue
    decreases |actions|
  {
    if actions == [] then q else Run(t, Next(t, q, actions[0]), actions[1..])
  }

  lemma NextInv(t: Transport, q: Queue, a: Action)
    requires AtRest(t, q)
    ensures AtRest(t, Next(t, q, a))
  {
    match a
    case DoSendAsync(payload, posted) => SendAsyncInv(t, q, payload, posted);
    case DoSend(payload, writes) =>
      if q.connected && q.asyncSendInProgress {
        SendAsyncInv(t, q, payload, true);
      } else if q.connected && Written(t, |payload|, writes).Some? {
        WrittenDirectlyInv(t, q, payload, writes);
      }
    case DoDrain(run) => DrainInv(t, q, run);
    case Drop =>
      if q.connected {
        DroppedInv(t, q);
      }
  }

  lemma {:induction false} RunInv(t: Transport, q: Queue, actions: seq<Action>)
    requires AtRest(t, q)
    ensures AtRest(t, Run(t, q, actions))
    decreases |actions|
  {
    hide AtRest, Next;
    if actions != [] {
      NextInv(t, q, actions[0]);
      RunInv(t, Next(t, q, actions[0]), actions[1..]);
    }
  }

  // ---- what the caller hands in -----------------------------------------------------------------

  /** The budgets are ten megabytes and a hundred kilobytes. */
  lemma Limits()
    ensures Limit(Tls) == 10_485_760 && Limit(Tcp) == 102_400
  {
  }

  /** What the budget leaves room for, by the bytes that are waiting. */
  function Room(t: Transport, q: Queue): int
    requires q.asyncBytesSent <= |q.outboundBuffer|
  {
    Limit(t) - |PendingBytes(q.pendingAsyncSends)| - |q.outboundBuffer[q.asyncBytesSent..]|
  }

  /** The sends of a callback that are accepted: those before the first that there is no room for, which
      drops the connection.  Over TCP a synchronous send is refused during a send. */
  function ScriptAccepted(t: Transport, room: int, script: seq<Nested>): seq<Accepted>
    decreases |script|
  {
    if script == [] then []
    else
      var n := script[0];
      if n.sync && t == Tcp then ScriptAccepted(t, room, script[1..])
      else if |n.payload| > room then []
      else [Accepted(n.payload, true)] + ScriptAccepted(t, room - |n.payload|, script[1..])
  }

  /** The payloads of one action that are accepted, each whole. */
  function HandedIn(t: Transport, q: Queue, a: Action): seq<Accepted>
    requires q.asyncBytesSent <= |q.outboundBuffer|
  {
    if !q.connected then []
    else
      match a
      case DoSendAsync(payload, _) => if |payload| <= Room(t, q) then [Accepted(payload, true)] else []
      case DoSend(payload, writes) =>
        if Written(t, |payload|, writes) == None then []
        else if !q.asyncSendInProgress then [Accepted(payload, false)]
        else if t == Tls && |payload| <= Room(t, q) then [Accepted(payload, true)]
        else []
      case DoDrain(run) =>
        if q.tasks > 0 && q.outboundBuffer != "" && run.write == Wrote(|q.outboundBuffer[q.asyncBytesSent..]|)
        then ScriptAccepted(t, Limit(t) - |PendingBytes(q.pendingAsyncSends)|, run.script)
        else []
      case Drop => []
  }

  lemma RoomCounted(t: Transport, q: Queue)
    requires Inv(t, q)
    ensures q.asyncBytesSent <= |q.outboundBuffer|
    ensures q.connected ==> Room(t, q) == Limit(t) - q.queuedBackpressureBytes - ActiveBytes(q)
    ensures q.connected ==> q.queuedBackpressureBytes == |PendingBytes(q.pendingAsyncSends)|
  {
    hide PendingOk, Bytes, Callbacks, Sum;
    SumIsLength(q.pendingAsyncSends);
  }

  /** The endpoint after one send of a callback. */
  function AfterNested(t: Transport, q: Queue, n: Nested): Queue {
    if n.sync && t == Tcp then q else SendAsync(t, q, n.payload, true)
  }

  lemma NestedSend(t: Transport, q: Queue, n: Nested)
    requires Inv(t, q) && (q.connected ==> q.firing)
    ensures var p := AfterNested(t, q, n);
            var room := Limit(t) - |PendingBytes(q.pendingAsyncSends)|;
            && Inv(t, p) && (p.connected ==> p.firing)
            && if !q.connected || (n.sync && t == Tcp) then p == q
               else if |n.payload| > room then !p.connected && p.accepted == q.accepted
               else p.connected && p.accepted == q.accepted + [Accepted(n.payload, true)]
                    && |PendingBytes(p.pendingAsyncSends)| == |PendingBytes(q.pendingAsyncSends)| + |n.payload|
  {
    hide PendingBytes, PendingOk, Bytes, Callbacks, Sum;
    var p := AfterNested(t, q, n);
    RoomCounted(t, q);
    SendAsyncInv(t, q, n.payload, true);
    RoomCounted(t, p);
    if q.connected {
      CallbackStays(t, q);
      FiringSent(t, q);
    }
  }

  lemma {:induction false} CallbackAccepts(t: Transport, q: Queue, script: seq<Nested>)
    requires Inv(t, q) && (q.connected ==> q.firing)
    ensures var accepted := if q.connected then ScriptAccepted(t, Limit(t) - |PendingBytes(q.pendingAsyncSends)|, script) else [];
            RunCallback(t, q, script).accepted == q.accepted + accepted
    decreases |script|
  {
    hide Inv, PendingBytes, SendAsync;
    if script != [] {
      NestedSend(t, q, script[0]);
      CallbackAccepts(t, AfterNested(t, q, script[0]), script[1..]);
    }
  }

  lemma FiringSent(t: Transport, q: Queue)
    requires Inv(t, q) && q.connected && q.firing
    ensures q.outboundBuffer == "" && ActiveBytes(q) == 0
  {
  }

  lemma DrainAccepts(t: Transport, q: Queue, run: TaskRun)
    requires AtRest(t, q)
    ensures q.asyncBytesSent <= |q.outboundBuffer|
    ensures Drain(t, q, run).accepted == q.accepted + HandedIn(t, q, DoDrain(run))
  {
    hide PendingOk, Bytes, Callbacks, ScriptAccepted, RunCallback, PendingBytes;
    RoomCounted(t, q);
    if q.connected && Sending(q) && !q.stalled && q.outboundBuffer != "" {
      FireInv(t, q);
      CallbackAccepts(t, Fire(q), run.script);
    }
  }

  /** A send on a connected endpoint that the budget has room for is accepted with exactly its payload;
      any other is not, and nothing else is ever accepted. */
  lemma AcceptsWhatIsHandedIn(t: Transport, q: Queue, a: Action)
    requires AtRest(t, q)
    ensures q.asyncBytesSent <= |q.outboundBuffer|
    ensures Next(t, q, a).accepted == q.accepted + HandedIn(t, q, a)
  {
    hide PendingOk, Bytes, Callbacks, Drain, Written;
    RoomCounted(t, q);
    match a
    case DoDrain(run) => DrainAccepts(t, q, run);
    case _ =>
  }

  // ---- what is written, and when the connection is dropped --------------------------------------

  /** The bytes that one action puts on the wire: as many as the writes report. */
  function Emitted(t: Transport, q: Queue, a: Action): string
    requires q.asyncBytesSent <= |q.outboundBuffer|
  {
    var unsent := q.outboundBuffer[q.asyncBytesSent..];
    match a
    case DoSend(payload, writes) =>
      if q.connected && !q.asyncSendInProgress && Written(t, |payload|, writes).Some?
      then payload[..Written(t, |payload|, writes).value.0] else ""
    case DoDrain(run) =>
      if q.tasks > 0 && run.write.Wrote? && 0 < run.write.bytes <= |unsent| then unsent[..run.write.bytes] else ""
    case _ => ""
  }

  function Total(writes: seq<WriteResult>): nat {
    if writes == [] then 0
    else Total(writes[..|writes| - 1]) + if writes[|writes| - 1].Wrote? then writes[|writes| - 1].bytes else 0
  }

  /** Writes get out what they report, one after the other, until all is written or one fails. */
  lemma {:induction false} WrittenIsTotal(t: Transport, left: nat, writes: seq<WriteResult>) returns (k: nat)
    requires Written(t, left, writes).Some?
    ensures var (n, broken) := Written(t, left, writes).value;
            && k <= |writes| && n == Total(writes[..k]) <= left
            && (forall i :: 0 <= i < k ==> writes[i].Wrote? || (t == Tls && writes[i] == WouldBlock))
            && if broken then
                 k < |writes| && (writes[k] == Broken || (t == Tcp && (writes[k] == WouldBlock || writes[k] == Wrote(0))))
               else n == left
    decreases |writes|
  {
    k := 0;
    if left > 0 && !Fails(t, writes[0]) {
      var n := if writes[0].Wrote? then writes[0].bytes else 0;
      var j := WrittenIsTotal(t, left - n, writes[1..]);
      k := j + 1;
      TotalFirst(writes[..k]);
      assert writes[..k][1..] == writes[1..][..j] && writes[..k][0] == writes[0];
      assert forall i :: 0 < i < k ==> writes[i] == writes[1..][i - 1];
      assert j < |writes| - 1 ==> writes[k] == writes[1..][j];
    }
  }

  /** And writes that get something out, or would block over TLS, do suffice once they add up to all there is
      or one fails. */
  lemma {:induction false} WritesSuffice(t: Transport, left: nat, writes: seq<WriteResult>, k: nat)
    requires k <= |writes| && Total(writes[..k]) <= left
    requires forall i :: 0 <= i < k ==> (writes[i].Wrote? && writes[i].bytes > 0) || (t == Tls && writes[i] == WouldBlock)
    requires Total(writes[..k]) < left ==>
               k < |writes| && (writes[k] == Broken || (t == Tcp && (writes[k] == WouldBlock || writes[k] == Wrote(0))))
    ensures Written(t, left, writes) == Some((Total(writes[..k]), Total(writes[..k]) < left))
    decreases k
  {
    if k > 0 {
      TotalFirst(writes[..k]);
      assert writes[..k][1..] == writes[1..][..k - 1] && writes[..k][0] == writes[0];
      assert forall i :: 0 <= i < k - 1 ==> writes[1..][i] == writes[i + 1];
      assert k < |writes| ==> writes[1..][k - 1] == writes[k];
      if left > 0 {
        WritesSuffice(t, if writes[0].Wrote? then left - writes[0].bytes else left, writes[1..], k - 1);
      }
    }
  }

  lemma {:induction false} TotalFirst(writes: seq<WriteResult>)
    requires writes != []
    ensures Total(writes) == (if writes[0].Wrote? then writes[0].bytes else 0) + Total(writes[1..])
    decreases |writes|
  {
    if |writes| > 1 {
      var n := |writes| - 1;
      TotalFirst(writes[..n]);
      assert writes[..n][1..] == writes[1..][..n - 1];
    } else {
      assert writes[1..] == [] && writes[..0] == [];
    }
  }

  lemma {:induction false} CallbackKeepsWire(t: Transport, q: Queue, script: seq<Nested>)
    ensures RunCallback(t, q, script).wire == q.wire
    decreases |script|
  {
    if script != [] {
      var n := script[0];
      CallbackKeepsWire(t, if n.sync && t == Tcp then q else SendAsync(t, q, n.payload, true), script[1..]);
    }
  }

  /** What ends a run of the drain task puts nothing on the wire. */
  lemma EndsKeepWire(q: Queue, ok: bool, reposted: bool)
    ensures Returned(q, ok, reposted).wire == q.wire && TakeNext(q, reposted).wire == q.wire
    ensures PostedAgain(q, reposted).wire == q.wire && TaskLost(q).wire == q.wire && Dropped(q).wire == q.wire
  {
  }

  lemma DrainEmits(t: Transport, q: Queue, run: TaskRun)
    requires AtRest(t, q) && q.asyncBytesSent <= |q.outboundBuffer|
    ensures Drain(t, q, run).wire == q.wire + Emitted(t, q, DoDrain(run))
  {
    hide PendingOk, Bytes, Callbacks, RunCallback, Sum, Returned, TakeNext, PostedAgain, TaskLost, Dropped;
    var unsent := q.outboundBuffer[q.asyncBytesSent..];
    assert q.wire + "" == q.wire && unsent[..|unsent|] == unsent;
    EndsKeepWire(q, run.ok, run.reposted);
    EndsKeepWire(Dropped(q), run.ok, run.reposted);
    if q.tasks > 0 && q.asyncSendInProgress && q.outboundBuffer != "" && run.write.Wrote? && 0 < run.write.bytes <= |unsent| {
      var n := run.write.bytes;
      assert unsent[..n] == q.outboundBuffer[q.asyncBytesSent..q.asyncBytesSent + n];
      EndsKeepWire(PartlyWritten(q, n), run.ok, run.reposted);
      CallbackKeepsWire(t, Fire(q), run.script);
      EndsKeepWire(RunCallback(t, Fire(q), run.script), run.ok, run.reposted);
    }
  }

  /** An action puts exactly the bytes on the wire that its writes report. */
  lemma WritesWhatIsReported(t: Transport, q: Queue, a: Action)
    requires AtRest(t, q)
    ensures q.asyncBytesSent <= |q.outboundBuffer| && Next(t, q, a).wire == q.wire + Emitted(t, q, a)
  {
    hide PendingOk, Bytes, Callbacks, Drain, Written;
    RoomCounted(t, q);
    assert q.wire + "" == q.wire;
    match a
    case DoDrain(run) => DrainEmits(t, q, run);
    case _ =>
  }

  /** The budget has room for all sends of a callback. */
  predicate ScriptFits(t: Transport, room: int, script: seq<Nested>)
    decreases |script|
  {
    script == []
    || (if script[0].sync && t == Tcp then ScriptFits(t, room, script[1..])
        else |script[0].payload| <= room && ScriptFits(t, room - |script[0].payload|, script[1..]))
  }

  /** The ways a connection is dropped: a send, or one of a callback, that the budget has no room for; a write
      that breaks, over TCP in a synchronous send also one that gets nothing out; and a disconnection. */
  predicate Drops(t: Transport, q: Queue, a: Action)
    requires q.asyncBytesSent <= |q.outboundBuffer|
  {
    match a
    case DoSendAsync(payload, _) => |payload| > Room(t, q)
    case DoSend(payload, writes) =>
      && Written(t, |payload|, writes).Some?
      && if q.asyncSendInProgress then t == Tls && |payload| > Room(t, q) else Written(t, |payload|, writes).value.1
    case DoDrain(run) =>
      && q.tasks > 0 && q.outboundBuffer != ""
      && (|| (t == Tls && run.write == Broken)
          || (run.write == Wrote(|q.outboundBuffer[q.asyncBytesSent..]|)
              && !ScriptFits(t, Limit(t) - |PendingBytes(q.pendingAsyncSends)|, run.script)))
    case Drop => true
  }

  lemma {:induction false} CallbackFits(t: Transport, q: Queue, script: seq<Nested>)
    requires Inv(t, q) && (q.connected ==> q.firing)
    ensures RunCallback(t, q, script).connected
            <==> q.connected && ScriptFits(t, Limit(t) - |PendingBytes(q.pendingAsyncSends)|, script)
    decreases |script|
  {
    hide Inv, PendingBytes, SendAsync;
    if script != [] {
      NestedSend(t, q, script[0]);
      CallbackFits(t, AfterNested(t, q, script[0]), script[1..]);
    }
  }

  lemma DrainDropsIff(t: Transport, q: Queue, run: TaskRun)
    requires AtRest(t, q) && q.asyncBytesSent <= |q.outboundBuffer|
    ensures Drain(t, q, run).connected <==> q.connected && !Drops(t, q, DoDrain(run))
  {
    hide PendingOk, Bytes, Callbacks, ScriptFits, RunCallback, PendingBytes;
    RoomCounted(t, q);
    if q.connected && Sending(q) && !q.stalled && q.outboundBuffer != "" {
      FireInv(t, q);
      CallbackFits(t, Fire(q), run.script);
    }
  }

  lemma DropsIff(t: Transport, q: Queue, a: Action)
    requires AtRest(t, q)
    ensures q.asyncBytesSent <= |q.outboundBuffer|
    ensures Next(t, q, a).connected <==> q.connected && !Drops(t, q, a)
  {
    hide PendingOk, Bytes, Callbacks, Drain, Written;
    RoomCounted(t, q);
    match a
    case DoDrain(run) => DrainDropsIff(t, q, run);
    case _ =>
  }

  // ---- whole runs -------------------------------------------------------------------------------

  /** What is accepted over a run, read off its actions. */
  ghost function AllHandedIn(t: Transport, q: Queue, actions: seq<Action>): seq<Accepted>
    requires AtRest(t, q)
    decreases |actions|
  {
    if actions == [] then []
    else
      NextInv(t, q, actions[0]);
      RoomCounted(t, q);
      HandedIn(t, q, actions[0]) + AllHandedIn(t, Next(t, q, actions[0]), actions[1..])
  }

  lemma {:induction false} RunAccepts(t: Transport, q: Queue, actions: seq<Action>)
    requires AtRest(t, q)
    ensures Run(t, q, actions).accepted == q.accepted + AllHandedIn(t, q, actions)
    decreases |actions|
  {
    hide AtRest, Next, HandedIn;
    if actions != [] {
      NextInv(t, q, actions[0]);
      AcceptsWhatIsHandedIn(t, q, actions[0]);
      RunAccepts(t, Next(t, q, actions[0]), actions[1..]);
    }
  }

  lemma {:induction false} TailBytes(sends: seq<Accepted>, first: nat, pending: seq<PendingAsyncSend>)
    requires |sends| == first + |pending|
    requires forall i :: 0 <= i < |pending| ==> pending[i].payload == sends[first + i].payload
    ensures Bytes(sends[..first]) + PendingBytes(pending) == Bytes(sends)
    decreases |pending|
  {
    if pending == [] {
      assert sends[..first] == sends;
    } else {
      BytesTaken(sends, first);
      TailBytes(sends, first + 1, pending[1..]);
      assert Bytes(sends[..first]) + (pending[0].payload + PendingBytes(pending[1..]))
             == (Bytes(sends[..first]) + pending[0].payload) + PendingBytes(pending[1..]);
    }
  }

  lemma Conserved(t: Transport, q: Queue)
    requires AtRest(t, q) && q.connected
    ensures q.asyncBytesSent <= |q.outboundBuffer|
    ensures q.wire + q.outboundBuffer[q.asyncBytesSent..] + PendingBytes(q.pendingAsyncSends) == Bytes(q.accepted)
  {
    forall i | 0 <= i < |q.pendingAsyncSends|
      ensures q.pendingAsyncSends[i].payload == q.accepted[FirstPending(q) + i].payload
    {
      assert PendingAt(q, i);
    }
    TailBytes(q.accepted, FirstPending(q), q.pendingAsyncSends);
    assert q.outboundBuffer == q.outboundBuffer[..q.asyncBytesSent] + q.outboundBuffer[q.asyncBytesSent..];
    var done := Bytes(q.accepted[..q.completed]);
    assert q.wire + q.outboundBuffer[q.asyncBytesSent..] == done + q.outboundBuffer;
    if Sending(q) {
      BytesTaken(q.accepted, q.completed);
    } else {
      assert done + "" == done;
    }
  }

  /** Whatever is sent, written, blocked or called back: bytes leave in acceptance order with none lost
      or doubled, within the budget, and pending sends have a drain task unless it was lost. */
  lemma EveryRun(t: Transport, actions: seq<Action>)
    ensures var q := Run(t, START, actions);
            var handedIn := Bytes((StartsAtRest(t); AllHandedIn(t, START, actions)));
            && (q.connected ==>
                  && q.asyncBytesSent <= |q.outboundBuffer|
                  && q.wire + q.outboundBuffer[q.asyncBytesSent..] + PendingBytes(q.pendingAsyncSends) == handedIn
                  && q.queuedBackpressureBytes == |PendingBytes(q.pendingAsyncSends)|
                  && q.queuedBackpressureBytes + ActiveBytes(q) <= Limit(t)
                  && (q.pendingAsyncSends != [] ==> q.asyncSendInProgress)
                  && q.tasks == (if q.asyncSendInProgress && !q.stalled then 1 else 0))
            && (!q.connected ==> q.wire <= handedIn && q.pendingAsyncSends == [] && !q.asyncSendInProgress)
  {
    hide Run, AllHandedIn;
    var q := Run(t, START, actions);
    StartsAtRest(t);
    RunAccepts(t, START, actions);
    assert q.accepted == AllHandedIn(t, START, actions);
    RunInv(t, START, actions);
    if q.connected {
      Conserved(t, q);
      SumIsLength(q.pendingAsyncSends);
    }
  }

  // ---- callbacks --------------------------------------------------------------------------------

  lemma {:induction false} CallbacksAt(sends: seq<Accepted>, k: nat)
    requires k <= |sends|
    ensures var ids := Callbacks(sends, k);
            && (forall i :: 0 <= i < |ids| ==> ids[i] < k && sends[ids[i]].callback)
            && (forall i, j :: 0 <= i < j < |ids| ==> ids[i] < ids[j])
            && (forall id :: 0 <= id < k && sends[id].callback ==> id in ids)
  {
    if k > 0 {
      CallbacksAt(sends, k - 1);
      var before, ids := Callbacks(sends, k - 1), Callbacks(sends, k);
      forall id | 0 <= id < k && sends[id].callback
        ensures id in ids
      {
        if id == k - 1 {
          assert ids[|ids| - 1] == id;
        }
      }
    }
  }

  lemma CallbackWritten(t: Transport, q: Queue, i: nat)
    requires AtRest(t, q) && i < |q.fired|
    ensures q.fired[i] < |q.accepted| && q.accepted[q.fired[i]].callback && Bytes(q.accepted[..q.fired[i] + 1]) <= q.wire
  {
    hide PendingOk;
    CallbacksAt(q.accepted, q.completed);
    assert q.fired[i] == Callbacks(q.accepted, q.completed)[i];
    var done := q.accepted[..q.completed];
    BytesPrefix(done, q.fired[i] + 1);
    assert done[..q.fired[i] + 1] == q.accepted[..q.fired[i] + 1];
  }

  lemma StartsAtRest(t: Transport)
    ensures AtRest(t, START)
  {
    assert START.accepted[..0] == [] && START.outboundBuffer[..0] == "" && "" + "" == "";
  }

  /** Callbacks run at most once, in acceptance order, and only when all bytes of their send and of
      those before it are written; and no completed send misses its callback. */
  lemma CallbacksOfEveryRun(t: Transport, actions: seq<Action>)
    ensures var q := Run(t, START, actions);
            && (forall i, j :: 0 <= i < j < |q.fired| ==> q.fired[i] < q.fired[j])
            && (forall i :: 0 <= i < |q.fired| ==>
                  q.fired[i] < |q.accepted| && q.accepted[q.fired[i]].callback && Bytes(q.accepted[..q.fired[i] + 1]) <= q.wire)
            && (forall id :: 0 <= id < q.completed <= |q.accepted| && q.accepted[id].callback ==> id in q.fired)
  {
    hide Run, Bytes, Callbacks, Open, Over;
    var q := Run(t, START, actions);
    StartsAtRest(t);
    RunInv(t, START, actions);
    CallbacksAt(q.accepted, q.completed);
    forall i | 0 <= i < |q.fired|
      ensures q.fired[i] < |q.accepted| && q.accepted[q.fired[i]].callback && Bytes(q.accepted[..q.fired[i] + 1]) <= q.wire
    {
      CallbackWritten(t, q, i);
    }
  }

  /** A dropped connection writes nothing more and calls nothing back. */
  lemma {:induction false} NothingAfterDrop(t: Transport, q: Queue, actions: seq<Action>)
    requires AtRest(t, q) && !q.connected
    ensures var p := Run(t, q, actions);
            !p.connected && p.wire == q.wire && p.fired == q.fired && p.accepted == q.accepted
    decreases |actions|
  {
    hide AtRest, Next;
    if actions != [] {
      NextInv(t, q, actions[0]);
      DroppedStep(t, q, actions[0]);
      NothingAfterDrop(t, Next(t, q, actions[0]), actions[1..]);
    }
  }

  lemma DroppedStep(t: Transport, q: Queue, a: Action)
    requires AtRest(t, q) && !q.connected
    ensures var p := Next(t, q, a);
            !p.connected && p.wire == q.wire && p.fired == q.fired && p.accepted == q.accepted
  {
    hide PendingOk, Bytes, Callbacks;
  }

  /** A drain task that is left when the connection is dropped ends with its next run. */
  lemma LeftoverTaskEnds(t: Transport, q: Queue, run: TaskRun)
    requires AtRest(t, q) && !q.connected
    ensures Drain(t, q, run) == q.(activeFinishCB := if q.tasks > 0 then None else q.activeFinishCB, tasks := 0)
  {
  }

  // ---- lost drain tasks -------------------------------------------------------------------------

  /** Whether a callback queues a send, should the budget let it. */
  predicate Queues(t: Transport, script: seq<Nested>) {
    exists i :: 0 <= i < |script| && !(script[i].sync && t == Tcp)
  }

  /** The ways a drain task is lost.  The event queue refuses it when it is first posted.  Or, in a run of
      it, the active send is empty, or over TCP the write fails or would block; or all bytes were written
      and the callback fails; or it must post itself again, since not all bytes were written or more
      sends are pending, and the event queue refuses that. */
  predicate Loses(t: Transport, q: Queue, a: Action) {
    match a
    case DoSendAsync(payload, posted) => !posted && !q.asyncSendInProgress
    case DoSend(_, _) => false
    case DoDrain(run) =>
      && q.asyncSendInProgress
      && (|| q.outboundBuffer == ""
          || (t == Tcp && (run.write == Broken || run.write == WouldBlock || run.write == Wrote(0)))
          || (run.write == Wrote(ActiveBytes(q))
              && (!run.ok || (!run.reposted && (q.pendingAsyncSends != [] || Queues(t, run.script)))))
          || (!run.reposted && (run.write == WouldBlock || (run.write.Wrote? && 0 < run.write.bytes < ActiveBytes(q)))))
    case Drop => false
  }

  lemma {:induction false} RunCallbackQueues(t: Transport, q: Queue, script: seq<Nested>)
    requires Inv(t, q) && (q.connected ==> q.firing) && RunCallback(t, q, script).connected
    ensures RunCallback(t, q, script).pendingAsyncSends != [] <==> q.pendingAsyncSends != [] || Queues(t, script)
    decreases |script|
  {
    hide Inv;
    if script != [] {
      var n, rest := script[0], script[1..];
      assert Queues(t, script) <==> !(n.sync && t == Tcp) || Queues(t, rest) by {
        if i :| 0 <= i < |rest| && !(rest[i].sync && t == Tcp) {
          assert script[i + 1] == rest[i];
        }
      }
      SendAsyncInv(t, q, n.payload, true);
      var p := if n.sync && t == Tcp then q else SendAsync(t, q, n.payload, true);
      RunCallbackInv(t, p, rest);
      if q.connected {
        CallbackStays(t, q);
      }
      RunCallbackQueues(t, p, rest);
    }
  }

  lemma DrainStallsIff(t: Transport, q: Queue, run: TaskRun)
    requires AtRest(t, q) && q.connected && !q.stalled && Drain(t, q, run).connected
    ensures Drain(t, q, run).stalled <==> Loses(t, q, DoDrain(run))
  {
    hide PendingOk, Bytes, Callbacks, Queues, Sum, RunCallback;
    if Sending(q) && q.outboundBuffer != "" && run.write == Wrote(ActiveBytes(q)) {
      FireInv(t, q);
      RunCallbackInv(t, Fire(q), run.script);
      if RunCallback(t, Fire(q), run.script).connected {
        RunCallbackQueues(t, Fire(q), run.script);
      }
    }
  }

  lemma StallsIff(t: Transport, q: Queue, a: Action)
    requires AtRest(t, q) && q.connected && !q.stalled && Next(t, q, a).connected
    ensures Next(t, q, a).stalled <==> Loses(t, q, a)
  {
    hide PendingOk, Bytes, Callbacks, Queues;
    NextInv(t, q, a);
    match a
    case DoSendAsync(payload, posted) => SendAsyncInv(t, q, payload, posted);
    case DoSend(payload, writes) =>
    case Drop =>
    case DoDrain(run) => DrainStallsIff(t, q, run);
  }

  lemma StalledStep(t: Transport, q: Queue, a: Action)
    requires AtRest(t, q) && q.connected && q.stalled
    ensures var p := Next(t, q, a);
            && p.wire == q.wire && p.fired == q.fired
            && (p.connected ==> p.stalled && p.tasks == 0 && |p.pendingAsyncSends| >= |q.pendingAsyncSends|)
  {
    hide PendingOk, Bytes, Callbacks;
    NextInv(t, q, a);
  }

  /** A stalled connection never sends again: later sends only pile up, until it is dropped. */
  lemma {:induction false} StalledForever(t: Transport, q: Queue, actions: seq<Action>)
    requires AtRest(t, q) && q.connected && q.stalled
    ensures var p := Run(t, q, actions);
            && p.wire == q.wire && p.fired == q.fired
            && (p.connected ==> p.stalled && p.tasks == 0 && |p.pendingAsyncSends| >= |q.pendingAsyncSends|)
    decreases |actions|
  {
    hide AtRest, Next;
    if actions == [] {
      StalledTasks(t, q);
    } else {
      var p := Next(t, q, actions[0]);
      NextInv(t, q, actions[0]);
      StalledStep(t, q, actions[0]);
      if p.connected {
        StalledForever(t, p, actions[1..]);
      } else {
        NothingAfterDrop(t, p, actions[1..]);
      }
    }
  }

  lemma StalledTasks(t: Transport, q: Queue)
    requires AtRest(t, q) && q.connected && q.stalled
    ensures q.tasks == 0
  {
  }

  // ---- the drain ends ---------------------------------------------------------------------------

  function Unsent(q: Queue): nat { ActiveBytes(q) + Sum(q.pendingAsyncSends) }

  ghost predicate NoneEmpty(q: Queue) {
    && (q.asyncSendInProgress ==> q.outboundBuffer != "")
    && forall i :: 0 <= i < |q.pendingAsyncSends| ==> q.pendingAsyncSends[i].payload != ""
  }

  /** A write of at least one byte, and no more than there is. */
  function Progress(q: Queue, n: nat): WriteResult {
    Wrote(if n == 0 then 1 else if n > ActiveBytes(q) then ActiveBytes(q) else n)
  }

  /** A run of the drain task that writes some bytes; `reposted` is the event queue's answer. */
  datatype Turn = Turn(bytes: nat, reposted: bool)

  function RunOf(q: Queue, turn: Turn): TaskRun {
    TaskRun(Progress(q, turn.bytes), [], true, turn.reposted)
  }

  /** The drain task run again and again, each write making some progress. */
  function DrainLoop(t: Transport, q: Queue, turns: seq<Turn>): Queue
    decreases |turns|
  {
    if turns == [] || q.tasks == 0 then q
    else DrainLoop(t, Drain(t, q, RunOf(q, turns[0])), turns[1..])
  }

  lemma DrainProgress(t: Transport, q: Queue, turn: Turn)
    requires AtRest(t, q) && q.connected && q.tasks > 0 && NoneEmpty(q) && turn.reposted
    ensures var p := Drain(t, q, RunOf(q, turn));
            p.connected && NoneEmpty(p) && Unsent(p) < Unsent(q) && p.accepted == q.accepted && !p.stalled
  {
    hide Bytes, Callbacks;
    FireInv(t, q);
    assert RunCallback(t, Fire(q), []) == Fire(q);
    if q.pendingAsyncSends != [] {
      assert PendingAt(q, 0);
    }
  }

  /** Writes that each take at least one byte empty the queue, if the task is taken whenever it posts
      itself again: everything accepted is written and called back, and the task ends. */
  lemma {:induction false} DrainTerminates(t: Transport, q: Queue, turns: seq<Turn>)
    requires AtRest(t, q) && q.connected && !q.stalled && NoneEmpty(q) && |turns| >= Unsent(q)
    requires forall i :: 0 <= i < |turns| ==> turns[i].reposted
    ensures var p := DrainLoop(t, q, turns);
            && p.tasks == 0 && !p.asyncSendInProgress && p.pendingAsyncSends == []
            && p.accepted == q.accepted && p.wire == Bytes(q.accepted) && p.fired == Callbacks(q.accepted, |q.accepted|)
    decreases |turns|
  {
    hide Bytes, Callbacks;
    if q.tasks == 0 {
      assert q.accepted[..q.completed] == q.accepted && q.outboundBuffer[..0] == "";
      assert q.wire == Bytes(q.accepted);
    } else {
      DrainProgress(t, q, turns[0]);
      DrainInv(t, q, RunOf(q, turns[0]));
      DrainTerminates(t, Drain(t, q, RunOf(q, turns[0])), turns[1..]);
    }
  }
}
