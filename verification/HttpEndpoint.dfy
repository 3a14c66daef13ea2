/** The parser of the HTTP endpoint as it runs: over one read at a time, scanning lines, copying bodies
    in bulk, and keeping an unfinished line for the next read.
 */
module HttpEndpoint {
  import opened HttpText
  import opened HttpParser
  import opened Reads
  import opened Wrappers

  /** The position of the first carriage return and line feed, or the length of the text. */
  function FindCRLF(s: string): (c: nat)
    ensures c <= |s| && (c < |s| ==> c + 1 < |s| && s[c] == '\r' && s[c + 1] == '\n')
    ensures forall i :: 0 <= i < c && i + 1 < |s| ==> !(s[i] == '\r' && s[i + 1] == '\n')
  {
    if |s| < 2 then |s|
    else if s[0] == '\r' && s[1] == '\n' then 0
    else if FindCRLF(s[1..]) == |s| - 1 then |s| else 1 + FindCRLF(s[1..])
  }

  class HTTPLiveEndpoint {
    var state: Phase
    var prepended: string
    var incomingAction: Action
    var incomingURIPath: string
    var activeHeaders: seq<Field>
    var contentSize: nat
    var chunkSize: Option<nat>
    var chunkedBody: string
    var httpBody: string
    var status: Status
    ghost var dispatched: seq<Request>
    ghost var received: string

    constructor ()
      ensures Valid() && status == Running && received == "" && dispatched == []
    {
      state, prepended, incomingAction, incomingURIPath, activeHeaders := AwaitingClientRequest, "", GET, "", [];
      contentSize, chunkSize, chunkedBody, httpBody := 0, None, "", "";
      status, dispatched, received := Running, [], "";
    }

    ghost function Current(): Parser
      reads this
    {
      Parser(state, prepended, incomingAction, incomingURIPath, activeHeaders, contentSize, chunkSize,
             httpBody + chunkedBody, dispatched, status)
    }

    ghost predicate Consistent()
      reads this
    {
      && (state != ReadingChunks ==> chunkedBody == "" && chunkSize == None)
      && (chunkSize == None || chunkSize == Some(0) ==> chunkedBody == "")
      && (state == ReadingHeaders ==> httpBody == "")
      && (state == ReadingContent ==> |httpBody| < contentSize)
      && (if state == AwaitingClientRequest then NoCRLF(prepended)
          else if state == ReadingContent || (state == ReadingChunks && chunkSize.Some? && chunkSize.value > 0)
          then prepended == ""
          else !Contains(prepended, '\n'))
    }

    /** The endpoint is where the byte-by-byte parser is. */
    ghost predicate Matches(q: Parser)
      reads this
    {
      q.status == status && q.requests == dispatched && (status == Running ==> q == Current() && Consistent())
    }

    ghost predicate Valid()
      reads this
    {
      Matches(FeedAll(START, received))
    }

    /** A line up to its end, or what is there of it. */
    static method GetLine(payload: string, pos: nat) returns (line: string, hasEOL: bool, next: nat)
      requires pos <= |payload|
      ensures !Contains(line, '\n') && pos <= next <= |payload|
      ensures if hasEOL then payload[pos..next] == line + "\n" else next == |payload| && payload[pos..] == line
    {
      line, next := "", pos;
      while next < |payload|
        invariant pos <= next <= |payload| && line == payload[pos..next] && !Contains(line, '\n')
      {
        var ch := payload[next];
        next := next + 1;
        if ch == '\n' {
          assert payload[pos..next] == payload[pos..next - 1] + "\n";
          return line, true, next;
        }
        assert payload[pos..next] == payload[pos..next - 1] + [ch];
        line := line + [ch];
      }
      return line, false, next;
    }

    method DispatchPayload(ghost q: Parser)
      requires status == Running && prepended == "" && chunkedBody == ""
      requires Current().(phase := q.phase) == q.(chunkSize := None)
      modifies this`state, this`dispatched
      ensures Matches(Dispatch(q))
    {
      state := AwaitingClientRequest;
      dispatched := dispatched + [Request(incomingAction, incomingURIPath, activeHeaders, httpBody)];
      assert httpBody + chunkedBody == httpBody;
    }

    method ReadContent(payload: string, pos: nat, ghost q: Parser) returns (next: nat)
      requires pos <= |payload| && status == Running && state == ReadingContent && Current() == q
      requires prepended == "" && chunkedBody == "" && chunkSize == None && |httpBody| <= contentSize
      modifies this
      ensures pos <= next <= |payload| && received == old(received)
      ensures Matches(FeedAll(if |q.body| == q.contentSize then Dispatch(q) else q, payload[pos..next]))
      ensures prepended == "" && (old(|httpBody|) < old(contentSize) && pos < |payload| ==> pos < next)
    {
      var remaining := contentSize - |httpBody|;
      assert httpBody + chunkedBody == httpBody;
      if |payload| - pos <= remaining {
        next := |payload|;
      } else {
        next := pos + remaining;
      }
      ghost var data := payload[pos..next];
      httpBody := httpBody + payload[pos..next];
      if remaining > 0 {
        ContentFeeds(q, data);
      } else {
        assert data == "" && q.body + data == q.body;
      }
      assert httpBody + chunkedBody == httpBody;
      if |httpBody| >= contentSize {
        DispatchPayload(q.(body := q.body + data));
      }
    }

    /** The line with the size of the next chunk.  `stop` says that reading is over for now. */
    method ReadChunkSize(payload: string, pos: nat, ghost q: Parser) returns (stop: bool, next: nat)
      requires pos <= |payload| && status == Running && state == ReadingChunks && Current() == q
      requires prepended == "" && chunkSize == None && chunkedBody == ""
      modifies this`prepended, this`status, this`chunkSize
      ensures pos <= next <= |payload| && (pos < |payload| ==> pos < next)
      ensures Matches(FeedAll(q, payload[pos..next]))
      ensures if stop then prepended != "" || next == pos ==> next == |payload|
              else pos < next && status == Running && prepended == "" && Current() == FeedAll(q, payload[pos..next])
    {
      hide FeedAll;
      var line, hasEOL;
      line, hasEOL, next := GetLine(payload, pos);
      if !hasEOL {
        PartialLineFeeds(q, line);
        assert payload[pos..next] == line && q.line + line == line;
        prepended := line;
        return true, next;
      }
      LineFeeds(q, line);
      assert q.line + line == line && q.(line := "") == q;
      stop := false;
      if Trim(line) != "" {
        var size := ParseNumber(line, 16);
        if size == None {
          status, stop := BadSize, true;
        } else {
          chunkSize := size;
        }
      }
    }

    /** The lines after the last chunk, up to an empty one. */
    method ReadTrailer(payload: string, pos: nat, ghost q: Parser) returns (next: nat)
      requires pos <= |payload| && status == Running && state == ReadingChunks && Current() == q
      requires prepended == "" && chunkSize == Some(0) && chunkedBody == ""
      modifies this
      ensures pos <= next <= |payload| && (pos < |payload| ==> pos < next) && received == old(received)
      ensures Matches(FeedAll(q, payload[pos..next]))
      ensures prepended != "" || next == pos ==> next == |payload|
    {
      hide FeedAll;
      next := pos;
      FeedNothing(q);
      assert payload[pos..pos] == "";
      while true
        invariant pos <= next <= |payload| && FeedAll(q, payload[pos..next]) == q
        invariant status == Running && Current() == q && prepended == "" && chunkSize == Some(0) && chunkedBody == ""
        invariant received == old(received)
        decreases |payload| - next
      {
        var line, hasEOL, end := GetLine(payload, next);
        Continue(q, payload, pos, next, end);
        assert q.line + line == line && q.(line := "") == q;
        if !hasEOL {
          PartialLineFeeds(q, line);
          assert payload[next..end] == line;
          prepended, next := line, end;
          return;
        }
        LineFeeds(q, line);
        next := end;
        if Trim(line) == "" {
          break;
        }
      }
      chunkedBody := "";
      chunkSize := None;
      DispatchPayload(q);
    }

    /** As much of the chunk as this read has. */
    method ReadChunkData(payload: string, pos: nat, ghost q: Parser) returns (stop: bool, next: nat)
      requires pos <= |payload| && status == Running && state == ReadingChunks && Current() == q
      requires prepended == "" && chunkSize.Some? && chunkSize.value > 0
      modifies this`chunkedBody, this`httpBody, this`chunkSize
      ensures pos <= next <= |payload| && (pos < |payload| ==> pos < next)
      ensures Matches(FeedAll(q, payload[pos..next])) && Current() == FeedAll(q, payload[pos..next])
      ensures if stop then next == |payload| else chunkedBody == "" && chunkSize == None && pos < next
    {
      var remaining := |payload| - pos;
      if remaining < chunkSize.value {
        next, stop := |payload|, true;
        ChunkFeeds(q, payload[pos..next]);
        chunkedBody := chunkedBody + payload[pos..next];
        chunkSize := Some(chunkSize.value - remaining);
        assert httpBody + chunkedBody == q.body + payload[pos..next];
      } else {
        next, stop := pos + chunkSize.value, false;
        ChunkFeeds(q, payload[pos..next]);
        chunkedBody := chunkedBody + payload[pos..next];
        httpBody := httpBody + chunkedBody;
        chunkedBody, chunkSize := "", None;
        assert httpBody + chunkedBody == q.body + payload[pos..next];
      }
    }

    method ReadChunks(payload: string, pos: nat, ghost q: Parser) returns (next: nat)
      requires pos <= |payload| && status == Running && state == ReadingChunks && Current() == q
      requires prepended == "" && (chunkSize == None || chunkSize == Some(0) ==> chunkedBody == "")
      modifies this
      ensures pos <= next <= |payload| && (pos < |payload| ==> pos < next) && received == old(received)
      ensures Matches(FeedAll(q, payload[pos..next]))
      ensures prepended != "" || next == pos ==> next == |payload|
    {
      hide FeedAll;
      next := pos;
      ghost var cur := q;
      FeedNothing(q);
      assert payload[pos..pos] == "";
      while true
        invariant pos <= next <= |payload| && FeedAll(q, payload[pos..next]) == cur
        invariant status == Running && state == ReadingChunks && Current() == cur && prepended == ""
        invariant chunkSize == None || chunkSize == Some(0) ==> chunkedBody == ""
        invariant received == old(received)
        decreases |payload| - next
      {
        var stop, end;
        if chunkSize == None {
          stop, end := ReadChunkSize(payload, next, cur);
          Continue(q, payload, pos, next, end);
          cur := FeedAll(cur, payload[next..end]);
          next := end;
          if stop {
            return;
          }
        } else if chunkSize.value == 0 {
          end := ReadTrailer(payload, next, cur);
          Continue(q, payload, pos, next, end);
          next := end;
          return;
        } else {
          stop, end := ReadChunkData(payload, next, cur);
          Continue(q, payload, pos, next, end);
          cur := FeedAll(cur, payload[next..end]);
          next := end;
          if stop {
            return;
          }
        }
      }
    }

    /** What an empty line after the headers leads to. */
    method FinishHeaders(payload: string, pos: nat, ghost q: Parser) returns (next: nat)
      requires pos <= |payload| && status == Running && prepended == "" && httpBody == "" && chunkedBody == ""
      requires Current().(phase := ReadingHeaders) == q && chunkSize == None
      modifies this
      ensures pos <= next <= |payload| && received == old(received)
      ensures Matches(FeedAll(EndOfHeaders(q), payload[pos..next]))
      ensures prepended != "" ==> next == |payload|
    {
      hide FeedAll;
      next := pos;
      assert payload[pos..pos] == "" && httpBody + chunkedBody == "";
      var encoding := Lookup(activeHeaders, CONTENT_ENCODING);
      if encoding.Some? && !KnownEncoding(encoding.value) {
        status := Unsupported;
        FeedNothing(EndOfHeaders(q));
        return;
      }
      var contentLength := Lookup(activeHeaders, CONTENT_LENGTH);
      if contentLength.Some? {
        var size := ParseNumber(contentLength.value, 10);
        if size == None {
          status := BadSize;
          FeedNothing(EndOfHeaders(q));
          return;
        }
        contentSize := size.value;
        state := ReadingContent;
        next := ReadContent(payload, pos, q.(phase := ReadingContent, contentSize := size.value));
      } else if Lookup(activeHeaders, TRANSFER_ENCODING) == Some("chunked") {
        state := ReadingChunks;
        next := ReadChunks(payload, pos, q.(phase := ReadingChunks));
      } else {
        DispatchPayload(q);
        FeedNothing(Dispatch(q));
      }
    }

    method KeepHeaderLine(line: string, ghost q: Parser)
      requires status == Running && prepended == "" && httpBody == "" && chunkedBody == "" && chunkSize == None
      requires Current().(phase := ReadingHeaders) == q && !Contains(line, '\n')
      modifies this`state, this`prepended
      ensures Matches(FeedAll(q, line))
    {
      hide FeedAll;
      PartialLineFeeds(q, line);
      assert q.line + line == line;
      state, prepended := ReadingHeaders, line;
    }

    method ReadHeaders(payload: string, pos: nat, ghost q: Parser) returns (next: nat)
      requires pos <= |payload| && status == Running && prepended == "" && chunkedBody == "" && chunkSize == None
      requires Current().(phase := ReadingHeaders, body := "") == q && q.line == ""
      modifies this
      ensures pos <= next <= |payload| && received == old(received)
      ensures Matches(FeedAll(q, payload[pos..next]))
      ensures (prepended != "" ==> next == |payload|) && (pos < |payload| ==> pos < next)
    {
      hide FeedAll, EndOfHeaders, Trim, Upper, IndexOf;
      httpBody := "";
      next := pos;
      ghost var cur := q;
      FeedNothing(q);
      assert payload[pos..pos] == "" && httpBody + chunkedBody == "";
      while true
        invariant pos <= next <= |payload| && FeedAll(q, payload[pos..next]) == cur
        invariant status == Running && Current().(phase := ReadingHeaders) == cur
        invariant prepended == "" && chunkedBody == "" && httpBody == "" && chunkSize == None && received == old(received)
        decreases |payload| - next
      {
        var line, hasEOL, end := GetLine(payload, next);
        Continue(q, payload, pos, next, end);
        assert cur.line + line == line && cur.(line := "") == cur;
        if !hasEOL {
          assert payload[next..end] == line;
          KeepHeaderLine(line, cur);
          return end;
        }
        LineFeeds(cur, line);
        var start := next;
        next := end;
        var delimiterPos := IndexOf(line, ':');
        if delimiterPos < |line| {
          var key := Trim(line[..delimiterPos]);
          var value := Trim(line[delimiterPos + 1..]);
          activeHeaders := activeHeaders + [Field(Upper(key), value)];
          cur := OnHeaderLine(cur, line);
        } else if Trim(line) == "" {
          next := FinishHeaders(payload, end, cur);
          Continue(q, payload, pos, end, next);
          return;
        }
      }
    }

    /** A request line at the front of what is left of the read, then its headers.  `cur` is where the
        parser is, which has yet to be fed what is behind `next`. */
    method ReadRequest(payload: string, pos: nat, ghost q: Parser) returns (next: nat, ghost cur: Parser)
      requires pos < |payload| && status == Running && state == AwaitingClientRequest && Consistent()
      requires Current() == q && prepended == ""
      modifies this
      ensures pos < next <= |payload| && received == old(received)
      ensures Matches(cur) && FeedAll(q, payload[pos..]) == FeedAll(cur, payload[next..])
      ensures prepended != "" ==> next == |payload|
    {
      hide FeedAll, FindCRLF, ReadRequestLine, NoCRLF, OnRequestLine;
      var c := FindCRLF(payload[pos..]);
      if c == |payload[pos..]| {
        NoCRLFInside(payload[pos..]);
        KeepRequestLine(payload[pos..], q);
        FeedNothing(FeedAll(q, payload[pos..]));
        return |payload|, FeedAll(q, payload[pos..]);
      }
      next := pos + c + 2;
      RequestLineCut(q, payload, pos, c);
      if !RegularLine(payload[pos..next]) {
        RefuseIrregular(q, payload[pos..next]);
        cur := OnRequestLine(q, payload[pos..next]);
        StoppedBefore(q, payload, pos, next, cur);
        return;
      }
      next, cur := AcceptRequestLine(payload, pos, next, q);
    }

    method KeepRequestLine(rest: string, ghost q: Parser)
      requires status == Running && state == AwaitingClientRequest && Consistent()
      requires Current() == q && prepended == "" && NoCRLF(rest)
      modifies this`prepended
      ensures Matches(FeedAll(q, rest))
    {
      hide FeedAll, NoCRLF;
      assert q.line + rest == rest;
      PartialRequestLineFeeds(q, rest);
      prepended := rest;
    }

    method RefuseIrregular(ghost q: Parser, ghost line: string)
      requires status == Running && Current() == q && !RegularLine(line)
      modifies this`status
      ensures Matches(OnRequestLine(q, line)) && status != Running && received == old(received)
    {
      status := Irregular;
    }

    /** The line that was waited for ends at `end`, the request line there or before. */
    method AcceptRequestLine(payload: string, pos: nat, end: nat, ghost q: Parser) returns (next: nat, ghost cur: Parser)
      requires pos < end <= |payload| && status == Running && state == AwaitingClientRequest && Consistent()
      requires Current() == q && prepended == ""
      requires var line := payload[pos..end];
               && RegularLine(line) && ReadRequestLine(payload[pos..]) == ReadRequestLine(line)
               && FeedAll(q, line) == FeedAll(OnRequestLine(q, line), line[ReadRequestLine(line).next..])
      modifies this
      ensures pos < next <= |payload| && received == old(received)
      ensures Matches(cur) && FeedAll(q, payload[pos..]) == FeedAll(cur, payload[next..])
      ensures prepended != "" ==> next == |payload|
    {
      hide FeedAll, ReadRequestLine, NoCRLF, ToAction;
      ghost var line := payload[pos..end];
      var r := ReadRequestLine(payload[pos..]);
      cur := OnRequestLine(q, line);
      var accepted := StartRequest(r, cur);
      if !accepted {
        StoppedBefore(q, payload, pos, end, cur);
        return end, cur;
      }
      next := ReadHeaders(payload, pos + r.next, cur);
      BehindTheLine(q, payload, pos, end, cur, r.next);
      AndTheRest(cur, payload, pos + r.next, next);
      cur := FeedAll(cur, payload[pos + r.next..next]);
    }

    /** Clears what the last request left, and takes over the words of the request line. */
    method StartRequest(r: RequestLine, ghost q: Parser) returns (accepted: bool)
      requires status == Running && state == AwaitingClientRequest && prepended == "" && chunkedBody == ""
      requires if r.version == "" || ToAction(r.method_) == None then q == Current().(status := Closed)
               else q == Current().(phase := ReadingHeaders, action := ToAction(r.method_).value, uri := r.uri, headers := [],
                                    contentSize := 0, chunkSize := None, body := "")
      modifies this`activeHeaders, this`contentSize, this`chunkSize, this`httpBody, this`incomingURIPath,
               this`incomingAction, this`status
      ensures accepted == (r.version != "" && ToAction(r.method_) != None)
      ensures if accepted then status == Running && chunkSize == None && Current().(phase := ReadingHeaders, body := "") == q
              else Matches(q) && status != Running
    {
      hide ToAction;
      activeHeaders, contentSize, chunkSize, httpBody := [], 0, None, "";
      incomingURIPath := r.uri;
      var action := ToAction(r.method_);
      if r.method_ == "" || r.version == "" || action == None {
        status := Closed;
        return false;
      }
      incomingAction := action.value;
      return true;
    }

    /** Parses one read: the carried bytes and what was received after them. */
    method HandlePayload(payload: string, ghost q: Parser)
      requires status == Running && Consistent() && prepended == "" && Current() == q
      modifies this
      ensures Matches(FeedAll(q, payload)) && received == old(received)
    {
      hide FeedAll;
      var pos := 0;
      ghost var cur := q;
      assert payload[0..] == payload;
      while pos < |payload|
        invariant 0 <= pos <= |payload| && FeedAll(q, payload) == FeedAll(cur, payload[pos..]) && Matches(cur)
        invariant received == old(received)
        invariant pos < |payload| ==> status == Running && prepended == ""
        decreases |payload| - pos
      {
        var next;
        ghost var before := cur;
        match state {
          case AwaitingClientRequest => next, cur := ReadRequest(payload, pos, cur);
          case ReadingHeaders =>
            next := ReadHeaders(payload, pos, cur);
            cur := FeedAll(cur, payload[pos..next]);
            AndTheRest(before, payload, pos, next);
          case ReadingChunks =>
            next := ReadChunks(payload, pos, cur);
            cur := FeedAll(cur, payload[pos..next]);
            AndTheRest(before, payload, pos, next);
          case ReadingContent =>
            next := ReadContent(payload, pos, cur);
            cur := FeedAll(cur, payload[pos..next]);
            AndTheRest(before, payload, pos, next);
        }
        pos := next;
        if status != Running {
          StoppedFeeds(cur, payload[pos..]);
          return;
        }
      }
      FeedNothing(cur);
    }

    /** A read from the socket. */
    method OnPayloadReady(bytes: string)
      requires Valid()
      modifies this
      ensures Valid() && received == old(received) + bytes
    {
      hide FeedAll;
      FeedAllSplits(START, received, bytes);
      received := received + bytes;
      if status != Running {
        StoppedFeeds(FeedAll(START, old(received)), bytes);
        return;
      }
      ghost var q := Current().(line := "");
      var payload := prepended + bytes;
      CarryFeeds(Current());
      FeedAllSplits(q, prepended, bytes);
      prepended := "";
      HandlePayload(payload, q);
    }

    /** However the stream is cut into reads, what is dispatched is what its bytes mean one by one. */
    method ReadAll(chunks: seq<string>)
      requires Valid() && received == ""
      modifies this
      ensures var q := FeedAll(START, Concat(chunks));
              dispatched == q.requests && status == q.status
    {
      hide FeedAll;
      for i := 0 to |chunks|
        invariant Valid() && received == Concat(chunks[..i])
      {
        ConcatNext(chunks, i);
        OnPayloadReady(chunks[i]);
      }
      assert chunks[..|chunks|] == chunks;
    }
  }

  lemma NoCRLFInside(s: string)
    requires FindCRLF(s) == |s|
    ensures NoCRLF(s)
  {
    hide FindCRLF;
  }

  lemma CutAtCRLF(s: string, c: nat)
    requires c == FindCRLF(s) < |s|
    ensures s[..c + 2] == s[..c] + "\r\n" && NoCRLF(s[..c] + "\r") && EndsWithCRLF(s[..c + 2])
  {
    hide FindCRLF;
    var cut := s[..c] + "\r";
    forall i | 0 <= i < |cut| - 1
      ensures !(cut[i] == '\r' && cut[i + 1] == '\n')
    {
      assert cut[i] == s[i];
    }
  }

  /** A read that holds the end of a request line. */
  lemma RequestLineCut(q: Parser, payload: string, pos: nat, c: nat)
    requires pos <= |payload| && c == FindCRLF(payload[pos..]) < |payload| - pos
    requires q.status == Running && q.phase == AwaitingClientRequest && q.line == ""
    ensures var line := payload[pos..pos + c + 2];
            && FeedAll(q, line) == FeedAll(OnRequestLine(q, line), line[ReadRequestLine(line).next..])
            && (RegularLine(line) ==> ReadRequestLine(payload[pos..]) == ReadRequestLine(line))
  {
    hide FeedAll, FindCRLF, ReadRequestLine, NoCRLF, OnRequestLine;
    var rest := payload[pos..];
    var line := payload[pos..pos + c + 2];
    CutAtCRLF(rest, c);
    assert line == rest[..c + 2] && rest == line + rest[c + 2..];
    RequestLineFeeds(q, rest[..c]);
    if RegularLine(line) {
      RequestLineStable(line, rest[c + 2..]);
    }
  }

  /** What is behind a line on which parsing stopped counts for nothing. */
  lemma StoppedBefore(q: Parser, payload: string, pos: nat, end: nat, stopped: Parser)
    requires pos <= end <= |payload| && stopped.status != Running
    requires var line := payload[pos..end];
             FeedAll(q, line) == FeedAll(stopped, line[ReadRequestLine(line).next..])
    ensures FeedAll(q, payload[pos..]) == FeedAll(stopped, payload[end..])
  {
    hide FeedAll, ReadRequestLine;
    var line := payload[pos..end];
    StoppedFeeds(stopped, line[ReadRequestLine(line).next..]);
    AndTheRest(q, payload, pos, end);
  }

  /** The parser goes on behind the request line, which may end before the line that was waited for. */
  lemma BehindTheLine(q: Parser, payload: string, pos: nat, end: nat, started: Parser, next: nat)
    requires pos <= end <= |payload| && next <= end - pos
    requires FeedAll(q, payload[pos..end]) == FeedAll(started, payload[pos..end][next..])
    ensures FeedAll(q, payload[pos..]) == FeedAll(started, payload[pos + next..])
  {
    hide FeedAll;
    assert payload[pos..end][next..] == payload[pos + next..end];
    AndTheRest(q, payload, pos, end);
    AndTheRest(started, payload, pos + next, end);
  }

  /** Feeding the carried line again, from the start of the line, restores the parser. */
  lemma CarryFeeds(p: Parser)
    requires p.status == Running
    requires if p.phase == AwaitingClientRequest then NoCRLF(p.line)
             else if p.phase == ReadingContent || InChunk(p) then p.line == ""
             else !Contains(p.line, '\n')
    ensures FeedAll(p.(line := ""), p.line) == p
  {
    assert "" + p.line == p.line;
    if p.phase == AwaitingClientRequest {
      PartialRequestLineFeeds(p.(line := ""), p.line);
    } else if InLines(p) {
      PartialLineFeeds(p.(line := ""), p.line);
    }
  }

  lemma FeedNothing(p: Parser)
    ensures FeedAll(p, "") == p
  {
  }

  /** Feeding a stretch of a read goes on where the stretch before it stopped. */
  lemma Continue(p: Parser, payload: string, pos: nat, mid: nat, end: nat)
    requires pos <= mid <= end <= |payload|
    ensures FeedAll(p, payload[pos..end]) == FeedAll(FeedAll(p, payload[pos..mid]), payload[mid..end])
  {
    assert payload[pos..end] == payload[pos..mid] + payload[mid..end];
    FeedAllSplits(p, payload[pos..mid], payload[mid..end]);
  }

  lemma AndTheRest(p: Parser, payload: string, pos: nat, mid: nat)
    requires pos <= mid <= |payload|
    ensures FeedAll(p, payload[pos..]) == FeedAll(FeedAll(p, payload[pos..mid]), payload[mid..])
  {
    assert payload[pos..] == payload[pos..mid] + payload[mid..];
    FeedAllSplits(p, payload[pos..mid], payload[mid..]);
  }
}
