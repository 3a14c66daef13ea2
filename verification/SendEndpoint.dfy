/** The endpoint with the send queue in its fields, updated as the TLS and TCP endpoints do.
 */
module SendEndpoint {
  import opened SendQueue
  import opened Wrappers

  /** What is outside the endpoint's own fields: its drain tasks in the event queue, its connection,
      and the histories. */
  datatype World = World(
    tasks: nat, connected: bool, firing: bool, stalled: bool,
    accepted: seq<Accepted>, completed: nat, wire: string, fired: seq<nat>)

  lemma WrittenNothing(t: Transport, writes: seq<WriteResult>)
    ensures Written(t, 0, writes) == Some((0, false))
  {
  }

  /** The first of the writes that get out `left` bytes. */
  lemma WrittenStep(t: Transport, left: nat, writes: seq<WriteResult>)
    requires left > 0 && Written(t, left, writes).Some?
    ensures writes != []
    ensures var w := Written(t, left, writes).value;
            if Fails(t, writes[0]) then w == (0, true)
            else if writes[0] == WouldBlock then Written(t, left, writes[1..]) == Some(w)
            else
              var n := writes[0].bytes;
              0 < n <= left && Written(t, left - n, writes[1..]) == Some((w.0 - n, w.1))
  {
  }

  class LiveEndpoint {
    const transport: Transport
    var outboundBuffer: string
    var asyncBytesSent: nat
    var queuedBackpressureBytes: nat
    var asyncSendInProgress: bool
    var activeFinishCB: Option<nat>
    var pendingAsyncSends: seq<PendingAsyncSend>
    var world: World

    constructor (transport: Transport)
      ensures this.transport == transport && Current() == START && Valid()
    {
      this.transport := transport;
      outboundBuffer, asyncBytesSent, queuedBackpressureBytes, asyncSendInProgress := "", 0, 0, false;
      activeFinishCB, pendingAsyncSends := None, [];
      world := World(0, true, false, false, [], 0, "", []);
      new;
      StartsAtRest(transport);
    }

    function Current(): Queue
      reads this
    {
      Queue(outboundBuffer, asyncBytesSent, queuedBackpressureBytes, asyncSendInProgress, activeFinishCB,
            pendingAsyncSends, world.tasks, world.connected, world.firing, world.stalled, world.accepted,
            world.completed, world.wire, world.fired)
    }

    ghost predicate Valid()
      reads this
    {
      AtRest(transport, Current())
    }

    method ClearAsyncSendState()
      modifies this
      ensures Current() == Dropped(old(Current())).(connected := old(world.connected))
    {
      outboundBuffer := "";
      pendingAsyncSends := [];
      activeFinishCB := None;
      queuedBackpressureBytes := 0;
      asyncBytesSent := 0;
      asyncSendInProgress := false;
      world := world.(firing := false);
    }

    method OnDisconnected()
      modifies this
      ensures Current() == Dropped(old(Current()))
    {
      ClearAsyncSendState();
      world := world.(connected := false);
    }

    method VerifyBackpressureLimit(incomingBytes: nat) returns (ok: bool)
      requires world.connected
      modifies this
      ensures ok == (old(queuedBackpressureBytes + ActiveBytes(Current())) + incomingBytes <= Limit(transport))
      ensures Current() == if ok then old(Current()) else Dropped(old(Current()))
    {
      var activeBackpressureBytes := 0;
      if asyncSendInProgress && |outboundBuffer| >= asyncBytesSent {
        activeBackpressureBytes := |outboundBuffer| - asyncBytesSent;
      }
      ok := queuedBackpressureBytes + activeBackpressureBytes + incomingBytes <= Limit(transport);
      if !ok {
        OnDisconnected();
      }
    }

    /** `posted` is the event queue's answer, should a drain task be posted. */
    method SendAsync(payload: string, posted: bool)
      modifies this
      ensures Current() == SendQueue.SendAsync(transport, old(Current()), payload, posted)
      ensures var room := Limit(transport) - old(queuedBackpressureBytes) - old(ActiveBytes(Current()));
              if !old(world).connected then pendingAsyncSends == old(pendingAsyncSends) && outboundBuffer == old(outboundBuffer)
              else if |payload| > room then !world.connected && pendingAsyncSends == [] && !asyncSendInProgress
              else
                && world.connected && asyncSendInProgress
                && if old(asyncSendInProgress) then
                     && pendingAsyncSends == old(pendingAsyncSends) + [PendingAsyncSend(payload, |old(world).accepted|)]
                     && queuedBackpressureBytes == old(queuedBackpressureBytes) + |payload|
                     && outboundBuffer == old(outboundBuffer)
                   else
                     outboundBuffer == payload && asyncBytesSent == 0 && pendingAsyncSends == old(pendingAsyncSends)
                     && world.tasks == old(world).tasks + if posted then 1 else 0
    {
      if !world.connected {
        return;
      }
      var ok := VerifyBackpressureLimit(|payload|);
      if !ok {
        return;
      }
      var id := |world.accepted|;
      world := world.(accepted := world.accepted + [Accepted(payload, true)]);
      if asyncSendInProgress {
        queuedBackpressureBytes := queuedBackpressureBytes + |payload|;
        pendingAsyncSends := pendingAsyncSends + [PendingAsyncSend(payload, id)];
        return;
      }
      outboundBuffer := payload;
      activeFinishCB := Some(id);
      asyncBytesSent := 0;
      asyncSendInProgress := true;
      world := world.(tasks := if posted then world.tasks + 1 else world.tasks, stalled := !posted);
    }

    /** A synchronous send; `writes` are the answers of the socket. */
    method Send(payload: string, writes: seq<WriteResult>)
      requires Written(transport, |payload|, writes).Some?
      modifies this
      ensures Current() == SendQueue.Send(transport, old(Current()), payload, writes)
    {
      if !world.connected {
        return;
      }
      if asyncSendInProgress {
        if transport == Tls {
          SendAsync(payload, true);
        }
        return;
      }
      WriteAll(payload, writes);
    }

    /** Writes a whole payload; over TLS it tries again whenever the socket would block. */
    method WriteAll(payload: string, writes: seq<WriteResult>)
      requires Written(transport, |payload|, writes).Some?
      modifies this
      ensures Current() == WrittenDirectly(transport, old(Current()), payload, writes)
    {
      hide Written;
      world := world.(accepted := world.accepted + [Accepted(payload, false)]);
      var offset: nat, i: nat, broken := 0, 0, false;
      ghost var wanted := Written(transport, |payload|, writes).value;
      ghost var before := world;
      assert writes[0..] == writes && payload[..0] == "" && before.wire + "" == before.wire;
      while offset < |payload| && !broken
        invariant offset <= |payload| && i <= |writes|
        invariant world == before.(wire := before.wire + payload[..offset])
        invariant if broken then wanted == (offset, true)
                  else Written(transport, |payload| - offset, writes[i..]) == Some((wanted.0 - offset, wanted.1))
        decreases |writes| - i, !broken
        modifies this`world
      {
        WrittenStep(transport, |payload| - offset, writes[i..]);
        var written := writes[i];
        assert writes[i..][0] == written && writes[i..][1..] == writes[i + 1..];
        i := i + 1;
        if Fails(transport, written) {
          broken := true;
        } else if written.Wrote? {
          Transmit(payload, offset, written.bytes, before.wire);
          offset := offset + written.bytes;
        }
      }
      if broken {
        OnDisconnected();
      } else {
        WrittenNothing(transport, writes[i..]);
        world := world.(completed := world.completed + 1);
      }
    }

    method Transmit(payload: string, offset: nat, bytes: nat, ghost before: string)
      requires offset + bytes <= |payload| && world.wire == before + payload[..offset]
      modifies this`world
      ensures world == old(world).(wire := before + payload[..offset + bytes])
    {
      assert payload[..offset + bytes] == payload[..offset] + payload[offset..offset + bytes];
      world := world.(wire := world.wire + payload[offset..offset + bytes]);
    }

    /** The sends that a completion callback makes. */
    method RunFinishCB(script: seq<Nested>)
      modifies this
      ensures Current() == RunCallback(transport, old(Current()), script)
    {
      ghost var q := Current();
      assert script[0..] == script;
      for i := 0 to |script|
        invariant RunCallback(transport, Current(), script[i..]) == RunCallback(transport, q, script)
      {
        assert script[i..][0] == script[i] && script[i..][1..] == script[i + 1..];
        if !(script[i].sync && transport == Tcp) {
          SendAsync(script[i].payload, true);
        }
      }
      assert script[|script|..] == [];
    }

    /** Writes more of the active send.  None is an error, Some(true) the end of the send. */
    method SendAsyncCont(write: WriteResult) returns (done: Option<bool>)
      requires AtRest(transport, Current()) && world.tasks > 0 && asyncSendInProgress
      requires write.Wrote? && outboundBuffer != "" && !Fails(transport, write) ==> 0 < write.bytes <= |outboundBuffer| - asyncBytesSent
      modifies this
      ensures var q := old(Current());
              var failed := Fails(transport, write);
              if q.outboundBuffer == "" || (failed && transport == Tcp) then done == None && Current() == q
              else if failed then done == Some(true) && Current() == Dropped(q)
              else if write == WouldBlock then done == Some(false) && Current() == q
              else if write.bytes < ActiveBytes(q) then done == Some(false) && Current() == PartlyWritten(q, write.bytes)
              else done == Some(true) && write.bytes == ActiveBytes(q) && Current() == Fire(q).(fired := q.fired, firing := q.firing)
    {
      hide Bytes, Callbacks, PendingOk;
      if outboundBuffer == "" {
        return None;
      }
      if Fails(transport, write) {
        if transport == Tcp {
          return None;
        }
        OnDisconnected();
        return Some(true);
      }
      if write == WouldBlock {
        return Some(false);
      }
      world := world.(wire := world.wire + outboundBuffer[asyncBytesSent..asyncBytesSent + write.bytes]);
      asyncBytesSent := asyncBytesSent + write.bytes;
      if asyncBytesSent == |outboundBuffer| {
        outboundBuffer := "";
        asyncBytesSent := 0;
        world := world.(completed := world.completed + 1);
        return Some(true);
      }
      return Some(false);
    }

    /** One run of the drain task: it ends, fails, or posts itself again. */
    method ProcessAsyncSendQueue(run: TaskRun)
      requires Valid() && world.tasks > 0
      requires run.write.Wrote? && outboundBuffer != "" && !Fails(transport, run.write) ==>
                 0 < run.write.bytes <= |outboundBuffer| - asyncBytesSent
      modifies this
      ensures Current() == Drain(transport, old(Current()), run)
    {
      hide Bytes, Callbacks, PendingOk;
      if asyncSendInProgress {
        var done := SendAsyncCont(run.write);
        if done == None {
          LoseTask();
          return;
        }
        if !done.value {
          PostAgain(run.reposted);
          return;
        }
        if activeFinishCB.Some? {
          world := world.(fired := world.fired + [activeFinishCB.value], firing := true);
          RunFinishCB(run.script);
          if !run.ok {
            LoseTask();
            return;
          }
          activeFinishCB := None;
        }
        asyncSendInProgress := false;
        world := world.(firing := false);
      }
      StartNextSend(run.reposted);
    }

    /** The event loop does not run the task again. */
    method LoseTask()
      modifies this`world
      ensures Current() == TaskLost(old(Current()))
    {
      world := world.(tasks := if world.tasks > 0 then world.tasks - 1 else 0, stalled := true);
    }

    /** The task returned false and is posted again, if the event queue takes it. */
    method PostAgain(reposted: bool)
      modifies this`world
      ensures Current() == PostedAgain(old(Current()), reposted)
    {
      if !reposted {
        LoseTask();
      }
    }

    method StartNextSend(reposted: bool)
      requires !asyncSendInProgress && !world.firing
      modifies this
      ensures Current() == TakeNext(old(Current()).(activeFinishCB := None), reposted)
    {
      activeFinishCB := None;
      if pendingAsyncSends == [] {
        world := world.(tasks := if world.tasks > 0 then world.tasks - 1 else 0);
        return;
      }
      var nextSend := pendingAsyncSends[0];
      pendingAsyncSends := pendingAsyncSends[1..];
      queuedBackpressureBytes := if queuedBackpressureBytes >= |nextSend.payload| then queuedBackpressureBytes - |nextSend.payload| else 0;
      outboundBuffer := nextSend.payload;
      activeFinishCB := Some(nextSend.id);
      asyncBytesSent := 0;
      asyncSendInProgress := true;
      PostAgain(reposted);
    }

    /** Runs any schedule of sends, drain runs and disconnections. */
    method Execute(actions: seq<Action>)
      requires Valid()
      modifies this
      ensures Current() == Run(transport, old(Current()), actions) && Valid()
    {
      hide Bytes, Callbacks, PendingOk;
      ghost var q := Current();
      assert actions[0..] == actions;
      for i := 0 to |actions|
        invariant Valid() && Run(transport, Current(), actions[i..]) == Run(transport, q, actions)
      {
        assert actions[i..][0] == actions[i] && actions[i..][1..] == actions[i + 1..];
        NextInv(transport, Current(), actions[i]);
        Perform(actions[i]);
      }
      assert actions[|actions|..] == [];
    }

    method Perform(action: Action)
      requires Valid()
      modifies this
      ensures Current() == Next(transport, old(Current()), action)
    {
      hide Bytes, Callbacks, PendingOk;
      match action {
        case DoSendAsync(payload, posted) =>
          SendAsync(payload, posted);
        case DoSend(payload, writes) =>
          if Written(transport, |payload|, writes).Some? {
            Send(payload, writes);
          }
        case DoDrain(run) =>
          var answer := run.write.Wrote? && outboundBuffer != "" && !Fails(transport, run.write) ==>
                          0 < run.write.bytes <= |outboundBuffer| - asyncBytesSent;
          if world.tasks > 0 && answer {
            ProcessAsyncSendQueue(run);
          }
        case Drop =>
          if world.connected {
            OnDisconnected();
          }
      }
    }
  }
}
