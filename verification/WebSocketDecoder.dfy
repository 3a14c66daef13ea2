/** The WebSocket endpoint as it reads: a decoder over the inbound buffer that keeps a frame cut short
    by the end of a read, and a header cut short at the front of the buffer.
 */
module WebSocketDecoder {
  import opened WebSocketFrames
  import WebSocketMessages
  import opened Reads
  import opened Wrappers

  // ---- one frame --------------------------------------------------------------------------------

  /** What is left to decode after a frame. */
  function After(serverSide: bool, o: Outcome, t: seq<byte>): Decoded
  {
    if o.status != Running then Decoded(o.events, o.assembly, [], o.status)
    else Prepend(o.events, Decode(serverSide, o.assembly, t))
  }

  /** A frame that has begun: its header and the first bytes of its payload were read. */
  ghost predicate Begun(serverSide: bool, held: seq<byte>) {
    && ParseHeader(held).Some?
    && HeaderStatus(serverSide, ParseHeader(held).value) == Running
    && |held| < Total(ParseHeader(held).value)
  }

  /** The assembly once the bytes of the begun frame are added to it. */
  function Partial(a: Assembly, held: seq<byte>): Assembly
    requires ParseHeader(held).Some?
  {
    var h := ParseHeader(held).value;
    StartFrame(a, h).(content := a.content + held[Prefix(h)..])
  }

  /** More of a frame arrives, but not its end. */
  lemma BegunGrows(serverSide: bool, a: Assembly, held: seq<byte>, data: seq<byte>)
    requires Begun(serverSide, held) && |held| + |data| < Total(ParseHeader(held).value)
    ensures Begun(serverSide, held + data) && ParseHeader(held + data) == ParseHeader(held)
    ensures Partial(a, held + data) == Partial(a, held).(content := Partial(a, held).content + data)
  {
    HeaderStable(held, data);
    var p := Prefix(ParseHeader(held).value);
    assert (held + data)[p..] == held[p..] + data;
    assert a.content + (held[p..] + data) == (a.content + held[p..]) + data;
  }

  lemma EndFrameSplit(b: Assembly, fin: bool, p: seq<byte>, q: seq<byte>)
    requires b.firstOp.Some?
    ensures EndFrame(b.(content := b.content + p), fin, q) == EndFrame(b, fin, p + q)
  {
    assert (b.content + p) + q == b.content + (p + q);
  }

  /** The rest of a begun frame arrives. */
  lemma BegunEnds(serverSide: bool, a: Assembly, held: seq<byte>, data: seq<byte>)
    requires Begun(serverSide, held) && |held| + |data| >= Total(ParseHeader(held).value)
    ensures var h := ParseHeader(held).value;
            var missing := Total(h) - |held|;
           
            && Decode(serverSide, a, held + data)
               == After(serverSide, EndFrame(Partial(a, held), h.fin, data[..missing]), data[missing..])
  {
    hide Decode, ParseHeader, HeaderStatus, EndFrame;
    var h := ParseHeader(held).value;
    var missing := Total(h) - |held|;
    HeaderStable(held, data);
    assert (held + data)[Prefix(h)..Total(h)] == held[Prefix(h)..] + data[..missing];
    assert (held + data)[Total(h)..] == data[missing..];
    EndFrameSplit(StartFrame(a, h), h.fin, held[Prefix(h)..], data[..missing]);
    DecodeStep(serverSide, a, held + data);
  }

  lemma SliceOfSlice<T>(b: seq<T>, lo: nat, hi: nat, i: nat, j: nat)
    requires i <= j && lo + j <= hi <= |b|
    ensures b[lo..hi][i..j] == b[lo + i..lo + j]
  {
    assert |b[lo..hi][i..j]| == j - i;
    forall k | 0 <= k < j - i
      ensures b[lo..hi][i..j][k] == b[lo + i..lo + j][k]
    {
      assert b[lo..hi][i..j][k] == b[lo..hi][i + k] == b[lo + i + k];
    }
  }

  /** What the bytes from `offset` on decode to, by the header that stands there. */
  lemma FreshRound(serverSide: bool, a: Assembly, b: seq<byte>, offset: nat, n: nat)
    requires offset <= n <= |b|
    ensures var s := b[offset..n];
            match ParseHeader(s)
            case None => Decode(serverSide, a, s) == Decoded([], a, s, Running)
            case Some(h) =>
              if HeaderStatus(serverSide, h) != Running then Decode(serverSide, a, s) == Decoded([], a, [], HeaderStatus(serverSide, h))
              else if |s| < Total(h) then
                && Begun(serverSide, s)
                && Decode(serverSide, a, s) == Decoded([], a, s, Running)
                && Partial(a, s) == StartFrame(a, h).(content := a.content + b[offset + Prefix(h)..n])
              else
                Decode(serverSide, a, s)
                == After(serverSide, EndFrame(StartFrame(a, h), h.fin, b[offset + Prefix(h)..offset + Total(h)]), b[offset + Total(h)..n])
  {
    hide Decode, ParseHeader, EndFrame, HeaderStatus;
    var s := b[offset..n];
    if FrameReady(serverSide, s) {
      var h := ParseHeader(s).value;
      DecodeStep(serverSide, a, s);
      SliceOfSlice(b, offset, n, Prefix(h), Total(h));
      SliceOfSlice(b, offset, n, Total(h), n - offset);
    } else {
      DecodeStops(serverSide, a, s);
      if Begun(serverSide, s) {
        SliceOfSlice(b, offset, n, Prefix(ParseHeader(s).value), n - offset);
      }
    }
  }

  lemma AfterPrepend(serverSide: bool, events: seq<Event>, o: Outcome, t: seq<byte>)
    ensures var d := Prepend(events, After(serverSide, o, t));
            (o.status == Running ==> d == Prepend(events + o.events, Decode(serverSide, o.assembly, t)))
            && (o.status != Running ==> d.status == o.status && d.events == events + o.events)
  {
    hide Decode;
    if o.status == Running {
      var d := Decode(serverSide, o.assembly, t);
      assert events + (o.events + d.events) == (events + o.events) + d.events;
    }
  }

  /** The bytes of an incomplete header at the end of a stream, which wait in the buffer for the next read. */
  function Carried(serverSide: bool, stream: seq<byte>): nat {
    var rest := Decode(serverSide, EMPTY, stream).rest;
    if ParseHeader(rest) == None then |rest| else 0
  }

  /** Reads of at least one byte, each of which fits the buffer behind what waits there. */
  ghost predicate Readable(serverSide: bool, chunks: seq<seq<byte>>, size: nat) {
    forall i :: 0 <= i < |chunks| ==> 0 < |chunks[i]| && Carried(serverSide, Concat(chunks[..i])) + |chunks[i]| <= size
  }

  // ---- the endpoint -----------------------------------------------------------------------------

  class WebSocketLiveEndpoint {
    const serverSide: bool
    const inboundBuffer: array<byte>
    var inboundWriteOffset: nat
    var pendingWSFrameContent: nat
    var finalFrame: bool
    var firstOp: Option<nat>
    var maskingKey: Key
    var continuationBuffer: seq<byte>
    var compressedMessage: bool
    var status: Status
    /** What was dispatched and read so far, and the stream position the fields stand for: the
        assembly before the frame in progress, and the bytes held of that frame. */
    ghost var dispatched: seq<Event>
    ghost var received: seq<byte>
    ghost var before: Assembly
    ghost var held: seq<byte>

    constructor (serverSide: bool, size: nat)
      requires size >= 14
      ensures Valid() && fresh(inboundBuffer) && this.serverSide == serverSide && inboundBuffer.Length == size
      ensures status == Running && dispatched == [] && received == []
    {
      this.serverSide := serverSide;
      inboundBuffer := new byte[size];
      inboundWriteOffset, pendingWSFrameContent, finalFrame := 0, 0, false;
      firstOp, maskingKey, continuationBuffer, compressedMessage := None, [], [], false;
      status, dispatched, received, before, held := Running, [], [], EMPTY, [];
    }

    function Current(): Assembly
      reads this
    {
      Assembly(firstOp, continuationBuffer, maskingKey, compressedMessage)
    }

    /** The fields stand for the assembly `before` and the bytes `held` of a frame in progress. */
    ghost predicate InFrame()
      reads this
    {
      && Begun(serverSide, held)
      && pendingWSFrameContent == Total(ParseHeader(held).value) - |held|
      && finalFrame == ParseHeader(held).value.fin
      && Current() == Partial(before, held)
    }

    /** A partial header stands at the front of the buffer; the fields are the assembly itself. */
    ghost predicate BetweenFrames()
      reads this, inboundBuffer
    {
      && pendingWSFrameContent == 0 && Current() == before
      && inboundWriteOffset <= inboundBuffer.Length && held == inboundBuffer[..inboundWriteOffset]
      && ParseHeader(held) == None
    }

    ghost predicate Valid()
      reads this, inboundBuffer
    {
      && inboundWriteOffset < 14 <= inboundBuffer.Length
      && if status == Running then
           && Decode(serverSide, EMPTY, received) == Decoded(dispatched, before, held, Running)
           && if pendingWSFrameContent == 0 then BetweenFrames() else InFrame() && inboundWriteOffset == 0
         else
           var d := Decode(serverSide, EMPTY, received);
           d.status == status && d.events == dispatched
    }

    /** Between frames, all that was read is what was dispatched and the decoding of `s`. */
    ghost predicate Position(a: Assembly, s: seq<byte>)
      reads this
    {
      Decode(serverSide, EMPTY, received) == Prepend(dispatched, Decode(serverSide, a, s))
    }

    /** XORs a stretch of the buffer with the repeating key, in place. */
    method UnmaskInPlace(lo: nat, hi: nat)
      requires lo <= hi <= inboundBuffer.Length && maskingKey != []
      modifies inboundBuffer
      ensures inboundBuffer[lo..hi] == Masked(old(inboundBuffer[lo..hi]), maskingKey)
      ensures inboundBuffer[hi..] == old(inboundBuffer[hi..])
    {
      hide XorByte;
      var i := 0;
      while i < hi - lo
        invariant 0 <= i <= hi - lo
        invariant forall k :: 0 <= k < inboundBuffer.Length ==>
                    inboundBuffer[k] == if lo <= k < lo + i then XorByte(old(inboundBuffer[k]), maskingKey[(k - lo) % 4])
                                        else old(inboundBuffer[k])
      {
        inboundBuffer[lo + i] := XorByte(inboundBuffer[lo + i], maskingKey[i % 4]);
        i := i + 1;
      }
    }

    /** Moves an incomplete header to the front of the buffer, where the next read continues it. */
    method ShiftIncompleteHdrToFrontForNextRead(offset: nat, size: nat)
      requires offset + size <= inboundBuffer.Length
      modifies this`inboundWriteOffset, this`pendingWSFrameContent, inboundBuffer
      ensures pendingWSFrameContent == 0 && inboundWriteOffset == size
      ensures inboundBuffer[..size] == old(inboundBuffer[offset..offset + size])
    {
      var i := 0;
      while i < size
        invariant 0 <= i <= size
        invariant forall k :: 0 <= k < inboundBuffer.Length ==>
                    inboundBuffer[k] == if k < i then old(inboundBuffer[offset + k]) else old(inboundBuffer[k])
      {
        inboundBuffer[i] := inboundBuffer[offset + i];
        i := i + 1;
      }
      pendingWSFrameContent := 0;
      inboundWriteOffset := size;
    }

    /** Reads the header of the frame at `offset`, if all its bytes are there. */
    method ReadHeader(offset: nat, n: nat) returns (r: Option<Header>)
      requires offset <= n <= inboundBuffer.Length
      ensures r == ParseHeader(inboundBuffer[offset..n])
    {
      ghost var s := inboundBuffer[offset..n];
      if n - offset < 2 {
        return None;
      }
      var first, second := inboundBuffer[offset], inboundBuffer[offset + 1];
      assert s[0] == first && s[1] == second;
      var headerSize := HeaderSize(second);
      if n - offset < headerSize {
        return None;
      }
      var payloadLength := Length(inboundBuffer[offset..offset + headerSize]);
      var key: Key := [];
      if second >= 128 {
        if n - offset < headerSize + 4 {
          return None;
        }
        key := inboundBuffer[offset + headerSize..offset + headerSize + 4];
        SliceOfSlice(inboundBuffer[..], offset, n, headerSize, headerSize + 4);
      }
      return Some(Header(first >= 128, first / 64 % 2 == 1, first / 16 % 4 != 0, first % 16, key, payloadLength, headerSize));
    }

    /** A new frame at `offset`.  `more` says that there is a payload to look at, in `lo..hi`. */
    method StartNewFrame(offset: nat, n: nat) returns (more: bool, lo: nat, hi: nat, next: nat)
      requires offset <= n <= inboundBuffer.Length && pendingWSFrameContent == 0 && status == Running
      requires inboundWriteOffset == 0
      modifies this`inboundWriteOffset, this`pendingWSFrameContent, this`finalFrame, this`firstOp, this`maskingKey,
               this`compressedMessage, this`status, inboundBuffer
      ensures var s := old(inboundBuffer[offset..n]);
              match ParseHeader(s)
              case None =>
                && !more && status == Running && pendingWSFrameContent == 0 && Current() == old(Current())
                && inboundWriteOffset == |s| <= inboundBuffer.Length && inboundBuffer[..|s|] == s
              case Some(h) =>
                && inboundBuffer[..] == old(inboundBuffer[..]) && inboundWriteOffset == 0
                && status == HeaderStatus(serverSide, h)
                && (status != Running ==> !more)
                && (status == Running ==>
                      && more && Current() == StartFrame(old(Current()), h) && finalFrame == h.fin
                      && lo == offset + Prefix(h)
                      && if |s| < Total(h) then hi == n && next == 0 && pendingWSFrameContent == Total(h) - |s|
                         else hi == next == offset + Total(h) && pendingWSFrameContent == 0)
    {
      hide ParseHeader, Length, HeaderSize;
      more, lo, hi, next := false, 0, 0, 0;
      var header := ReadHeader(offset, n);
      if header == None {
        ShiftIncompleteHdrToFrontForNextRead(offset, n - offset);
        return;
      }
      var h := header.value;
      if h.key != [] {
        maskingKey := h.key;
      } else if serverSide {
        status := Unmasked;
        return;
      }
      if h.length + h.size >= TWO_TO_THE_32 {
        status := TooLong;
        return;
      }
      if n - offset < Total(h) {
        pendingWSFrameContent := Total(h) - (n - offset);
        hi, next := n, 0;
      } else {
        next := offset + Total(h);
        hi := next;
      }
      finalFrame := h.fin;
      if h.rsv23 {
        status := BadReserved;
        return;
      }
      NoteOpcode(h.op, h.rsv1);
      more, lo := true, offset + Prefix(h);
    }

    /** The part of a header that says what kind of message this is. */
    method NoteOpcode(op: nat, rsv1: bool)
      modifies this`firstOp, this`compressedMessage
      ensures firstOp == if old(firstOp) == None then Some(op) else old(firstOp)
      ensures compressedMessage == if op == TEXT || op == BINARY then rsv1 else op == CONTINUATION && old(compressedMessage)
    {
      if op == TEXT || op == BINARY {
        compressedMessage := rsv1;
      } else if op != CONTINUATION {
        compressedMessage := false;
      }
      if firstOp == None {
        firstOp := Some(op);
      }
    }

    /** Hands a complete message, at `lo..hi` or in the continuation buffer, to the handler. */
    method Dispatch(lo: nat, hi: nat)
      requires lo <= hi <= inboundBuffer.Length && firstOp.Some? && status == Running
      modifies this`firstOp, this`maskingKey, this`continuationBuffer, this`compressedMessage, this`status,
               this`dispatched, inboundBuffer
      ensures var o := DispatchMessage(old(Current()), old(continuationBuffer + inboundBuffer[lo..hi]));
              && status == o.status && dispatched == old(dispatched) + o.events
              && (status == Running ==> Current() == o.assembly)
      ensures inboundBuffer[hi..] == old(inboundBuffer[hi..])
    {
      ghost var raw := continuationBuffer + inboundBuffer[lo..hi];
      var continued := continuationBuffer != [];
      assert !continued ==> raw == inboundBuffer[lo..hi];
      if continued {
        continuationBuffer := continuationBuffer + inboundBuffer[lo..hi];
      }
      var op := firstOp.value;
      if op == CLOSE || op == CONTINUATION {
        status := Disconnected;
        return;
      } else if op == PING || op == PONG {
        var message := if continued then continuationBuffer else inboundBuffer[lo..hi];
        assert message == raw;
        if op == PING {
          dispatched := dispatched + [SendPong(message), Message(PING, message, false)];
        } else {
          dispatched := dispatched + [Message(PONG, message, false)];
        }
      } else if op == TEXT || op == BINARY {
        var message := UnmaskMessage(continued, lo, hi);
        dispatched := dispatched + [Message(op, message, compressedMessage)];
      } else {
        firstOp, continuationBuffer := None, [];
        status := Disconnected;
        return;
      }
      firstOp, continuationBuffer, compressedMessage := None, [], false;
    }

    /** The message, unmasked where it stands if a key is pending. */
    method UnmaskMessage(continued: bool, lo: nat, hi: nat) returns (message: seq<byte>)
      requires lo <= hi <= inboundBuffer.Length
      modifies this`maskingKey, this`continuationBuffer, inboundBuffer
      ensures message == Masked(if continued then old(continuationBuffer) else old(inboundBuffer[lo..hi]), old(maskingKey))
      ensures maskingKey == [] && inboundBuffer[hi..] == old(inboundBuffer[hi..])
    {
      if maskingKey != [] {
        if continued {
          ghost var was := continuationBuffer;
          continuationBuffer := WebSocketMessages.MaskFrom(continuationBuffer, 0, maskingKey);
          assert continuationBuffer[0..] == continuationBuffer && was[0..] == was;
        } else {
          UnmaskInPlace(lo, hi);
        }
        maskingKey := [];
      }
      message := if continued then continuationBuffer else inboundBuffer[lo..hi];
    }

    /** The end of a frame: a final one is dispatched, another is put aside. */
    method FinishFrame(lo: nat, hi: nat)
      requires lo <= hi <= inboundBuffer.Length && firstOp.Some? && status == Running
      modifies this`firstOp, this`maskingKey, this`continuationBuffer, this`compressedMessage, this`status,
               this`dispatched, inboundBuffer
      ensures var o := EndFrame(old(Current()), finalFrame, old(inboundBuffer[lo..hi]));
              && status == o.status && dispatched == old(dispatched) + o.events
              && (status == Running ==> Current() == o.assembly)
      ensures inboundBuffer[hi..] == old(inboundBuffer[hi..])
    {
      if finalFrame {
        Dispatch(lo, hi);
      } else {
        continuationBuffer := continuationBuffer + inboundBuffer[lo..hi];
      }
    }

    /** What `FreshFrame` and `PendingFrame` leave when a complete frame was found: the read so far is
        what was dispatched, that frame, and the rest of the buffer. */
    ghost predicate FrameFound(lo: nat, hi: nat, n: nat)
      reads this, inboundBuffer
      requires lo <= hi <= n <= inboundBuffer.Length
    {
      && status == Running && pendingWSFrameContent == 0 && inboundWriteOffset == 0
      && firstOp.Some?
      && Decode(serverSide, EMPTY, received)
         == Prepend(dispatched, After(serverSide, EndFrame(Current(), finalFrame, inboundBuffer[lo..hi]), inboundBuffer[hi..n]))
    }

    /** The read ends inside a frame. */
    method KeepPartial(lo: nat, hi: nat, ghost a: Assembly, ghost s: seq<byte>)
      requires lo <= hi <= inboundBuffer.Length && inboundBuffer.Length >= 14 && inboundWriteOffset == 0
      requires status == Running && Begun(serverSide, s)
      requires Decode(serverSide, EMPTY, received) == Decoded(dispatched, a, s, Running)
      requires Partial(a, s) == Current().(content := continuationBuffer + inboundBuffer[lo..hi])
      requires pendingWSFrameContent == Total(ParseHeader(s).value) - |s| && finalFrame == ParseHeader(s).value.fin
      modifies this`continuationBuffer, this`before, this`held
      ensures Valid()
    {
      hide Decode, ParseHeader, HeaderStatus;
      continuationBuffer := continuationBuffer + inboundBuffer[lo..hi];
      before, held := a, s;
    }

    /** One round of the decoding loop, up to the end of the frame: a new frame begins at `offset`. */
    method FreshFrame(offset: nat, n: nat) returns (more: bool, lo: nat, hi: nat)
      requires offset < n <= inboundBuffer.Length && pendingWSFrameContent == 0 && status == Running
      requires inboundBuffer.Length >= 14 && inboundWriteOffset == 0
      requires Position(Current(), inboundBuffer[offset..n])
      modifies this, inboundBuffer
      ensures dispatched == old(dispatched) && received == old(received)
      ensures !more ==> Valid()
      ensures more ==> offset < hi && lo <= hi <= n && FrameFound(lo, hi, n)
    {
      hide Decode, EndFrame, ParseHeader, HeaderStatus;
      ghost var a, b := Current(), inboundBuffer[..];
      ghost var s := b[offset..n];
      assert s == inboundBuffer[offset..n];
      FreshRound(serverSide, a, b, offset, n);
      PrependStopped(dispatched, Decode(serverSide, a, s));
      var next;
      more, lo, hi, next := StartNewFrame(offset, n);
      if !more {
        before, held := a, if status == Running then s else [];
      } else {
        assert inboundBuffer[lo..hi] == b[lo..hi] && inboundBuffer[hi..n] == b[hi..n];
        if pendingWSFrameContent > 0 {
          KeepPartial(lo, hi, a, s);
          more := false;
        }
      }
    }

    /** The same, when the frame in progress goes on at the front of the buffer. */
    method PendingFrame(n: nat) returns (more: bool, lo: nat, hi: nat)
      requires 0 < n <= inboundBuffer.Length && pendingWSFrameContent > 0 && status == Running && InFrame()
      requires inboundBuffer.Length >= 14 && inboundWriteOffset == 0
      requires Position(before, held + inboundBuffer[..n])
      modifies this, inboundBuffer
      ensures dispatched == old(dispatched) && received == old(received)
      ensures !more ==> Valid()
      ensures more ==> 0 < hi && lo <= hi <= n && FrameFound(lo, hi, n)
    {
      hide Decode, EndFrame, ParseHeader, HeaderStatus;
      ghost var data := inboundBuffer[..n];
      lo := 0;
      if n < pendingWSFrameContent {
        BegunGrows(serverSide, before, held, data);
        DecodeStops(serverSide, before, held + data);
        PrependStopped(dispatched, Decode(serverSide, before, held + data));
        pendingWSFrameContent := pendingWSFrameContent - n;
        continuationBuffer := continuationBuffer + inboundBuffer[..n];
        held, hi, more := held + data, n, false;
      } else {
        BegunEnds(serverSide, before, held, data);
        hi, more := pendingWSFrameContent, true;
        pendingWSFrameContent := 0;
        assert data[..hi] == inboundBuffer[lo..hi] && data[hi..] == inboundBuffer[hi..n];
      }
    }

    /** Decodes the `n` bytes at the front of the buffer. */
    method HandleWebsocketPayload(n: nat)
      requires 0 < n <= inboundBuffer.Length && status == Running && inboundBuffer.Length >= 14
      requires inboundWriteOffset == 0
      requires if pendingWSFrameContent == 0 then Position(Current(), inboundBuffer[..n])
               else InFrame() && Position(before, held + inboundBuffer[..n])
      modifies this, inboundBuffer
      ensures Valid() && received == old(received)
    {
      hide Decode, EndFrame;
      var nextMessageOffset := 0;
      assert inboundBuffer[0..n] == inboundBuffer[..n];
      while true
        invariant 0 <= nextMessageOffset < n && received == old(received)
        invariant status == Running && inboundWriteOffset == 0
        invariant if pendingWSFrameContent == 0 then Position(Current(), inboundBuffer[nextMessageOffset..n])
                  else nextMessageOffset == 0 && InFrame() && Position(before, held + inboundBuffer[..n])
        decreases n - nextMessageOffset
      {
        var more, lo, hi;
        if pendingWSFrameContent == 0 {
          more, lo, hi := FreshFrame(nextMessageOffset, n);
        } else {
          more, lo, hi := PendingFrame(n);
        }
        if !more {
          return;
        }
        EndOfFrame(lo, hi, n);
        nextMessageOffset := hi;
        if status != Running || nextMessageOffset == n {
          return;
        }
      }
    }

    /** A read from the socket: the bytes land after the incomplete header kept from the last one. */
    method OnPayloadReady(bytes: seq<byte>)
      requires Valid() && status == Running && 0 < |bytes| <= inboundBuffer.Length - inboundWriteOffset
      modifies this, inboundBuffer
      ensures Valid() && received == old(received) + bytes
    {
      hide Decode, ParseHeader;
      ghost var carry := inboundBuffer[..inboundWriteOffset];
      DecodeResumes(serverSide, EMPTY, received, bytes);
      Append(bytes);
      var n := |bytes| + inboundWriteOffset;
      assert carry == [] ==> carry + bytes == bytes;
      received := received + bytes;
      inboundWriteOffset := 0;
      HandleWebsocketPayload(n);
    }

    method Append(bytes: seq<byte>)
      requires inboundWriteOffset + |bytes| <= inboundBuffer.Length
      modifies inboundBuffer
      ensures inboundBuffer[..inboundWriteOffset + |bytes|] == old(inboundBuffer[..inboundWriteOffset]) + bytes
    {
      var i := 0;
      while i < |bytes|
        invariant 0 <= i <= |bytes|
        invariant inboundBuffer[..inboundWriteOffset + i] == old(inboundBuffer[..inboundWriteOffset]) + bytes[..i]
      {
        inboundBuffer[inboundWriteOffset + i] := bytes[i];
        i := i + 1;
      }
    }

    /** Reads until the socket has no more or the connection ends.  However the stream is cut, what is
        dispatched is what the whole stream means. */
    method ReadAll(chunks: seq<seq<byte>>)
      requires Valid() && status == Running && received == []
      requires Readable(serverSide, chunks, inboundBuffer.Length)
      modifies this, inboundBuffer
      ensures var d := Decode(serverSide, EMPTY, Concat(chunks));
              Valid() && dispatched == d.events && status == d.status
    {
      hide Decode, ParseHeader;
      var i := 0;
      assert chunks[..|chunks|] == chunks;
      while i < |chunks| && status == Running
        invariant 0 <= i <= |chunks| && Valid() && received == Concat(chunks[..i])
      {
        ConcatNext(chunks, i);
        assert inboundWriteOffset == Carried(serverSide, received);
        OnPayloadReady(chunks[i]);
        i := i + 1;
      }
      ConcatSplits(chunks, i);
      DecodeResumes(serverSide, EMPTY, received, Concat(chunks[i..]));
      if i == |chunks| {
        assert received + Concat(chunks[i..]) == received;
      }
    }

    /** Any legal encoding of any list of messages, cut into any reads, is dispatched as that list. */
    method ReadMessages(chunks: seq<seq<byte>>, ghost messages: seq<WebSocketMessages.WireMessage>)
      requires Valid() && status == Running && received == []
      requires Readable(serverSide, chunks, inboundBuffer.Length)
      requires WebSocketMessages.AllAcceptable(serverSide, messages)
      requires Concat(chunks) == WebSocketMessages.WireBytes(serverSide, messages)
      modifies this, inboundBuffer
      ensures Valid() && dispatched == WebSocketMessages.AllEvents(messages) && status == Running
    {
      hide Decode;
      WebSocketMessages.RoundTrip(serverSide, messages);
      ReadAll(chunks);
    }

    /** A close frame, or one with an opcode that is not known, ends the connection, however the bytes up to
        it and behind it are cut: what was complete before it is dispatched, and nothing else. */
    method ReadUntilClose(chunks: seq<seq<byte>>, ghost messages: seq<WebSocketMessages.WireMessage>, ghost op: nat,
                          ghost frames: seq<WebSocketMessages.KeyedFragment>, ghost behind: seq<byte>)
      requires Valid() && status == Running && received == []
      requires Readable(serverSide, chunks, inboundBuffer.Length)
      requires WebSocketMessages.AllAcceptable(serverSide, messages)
      requires op == 8 || 3 <= op <= 7 || 11 <= op <= 15
      requires frames != [] && WebSocketMessages.Sendable(serverSide, frames)
      requires Concat(chunks) == WebSocketMessages.WireBytes(serverSide, messages)
                                 + (WebSocketMessages.KeyedBytes(serverSide, op, frames) + behind)
      modifies this, inboundBuffer
      ensures Valid() && dispatched == WebSocketMessages.AllEvents(messages) && status == Disconnected
    {
      hide Decode, WebSocketMessages.WireBytes, WebSocketMessages.KeyedBytes;
      WebSocketMessages.CloseEndsDecoding(serverSide, messages, op, frames, behind);
      ReadAll(chunks);
    }

    /** Finishes the frame that was found; at the end of the buffer the endpoint is ready for the next read. */
    method EndOfFrame(lo: nat, hi: nat, n: nat)
      requires lo <= hi <= n <= inboundBuffer.Length && inboundBuffer.Length >= 14 && FrameFound(lo, hi, n)
      modifies this, inboundBuffer
      ensures received == old(received)
      ensures if status != Running || hi == n then Valid()
              else pendingWSFrameContent == 0 && inboundWriteOffset == 0
                   && Position(Current(), inboundBuffer[hi..n])
    {
      hide Decode, EndFrame;
      ghost var o := EndFrame(Current(), finalFrame, inboundBuffer[lo..hi]);
      ghost var t := inboundBuffer[hi..n];
      AfterPrepend(serverSide, dispatched, o, t);
      FinishFrame(lo, hi);
      assert inboundBuffer[hi..][..n - hi] == t && inboundBuffer[hi..n] == t;
      before, held := Current(), [];
      if status == Running && hi == n {
        DecodeStops(serverSide, before, []);
        PrependStopped(dispatched, Decode(serverSide, before, []));
      }
    }
  }

}
