/** The HTTP endpoint on the server's side: a parser that is called with each read, against the meaning
    of the byte stream, which takes one byte at a time and so knows nothing of reads.
 */
module HttpParser {
  import opened HttpText
  import opened Wrappers

  datatype Action = GET | POST | PUT | DELETE | PATCH | HEAD | OPTIONS | TRACE | CONNECT

  function ActionName(a: Action): string {
    match a
    case GET => "GET"
    case POST => "POST"
    case PUT => "PUT"
    case DELETE => "DELETE"
    case PATCH => "PATCH"
    case HEAD => "HEAD"
    case OPTIONS => "OPTIONS"
    case TRACE => "TRACE"
    case CONNECT => "CONNECT"
  }

  function ToAction(name: string): (r: Option<Action>)
    ensures r.Some? ==> name != "" && ActionName(r.value) == name
  {
    if name == "GET" then Some(GET)
    else if name == "POST" then Some(POST)
    else if name == "PUT" then Some(PUT)
    else if name == "DELETE" then Some(DELETE)
    else if name == "PATCH" then Some(PATCH)
    else if name == "HEAD" then Some(HEAD)
    else if name == "OPTIONS" then Some(OPTIONS)
    else if name == "TRACE" then Some(TRACE)
    else if name == "CONNECT" then Some(CONNECT)
    else None
  }

  /** The methods by the names that section 9.3 of RFC 9110 and section 2 of RFC 5789 give them. */
  lemma ActionNames()
    ensures ToAction("GET") == Some(GET) && ToAction("HEAD") == Some(HEAD) && ToAction("POST") == Some(POST)
    ensures ToAction("PUT") == Some(PUT) && ToAction("DELETE") == Some(DELETE) && ToAction("CONNECT") == Some(CONNECT)
    ensures ToAction("OPTIONS") == Some(OPTIONS) && ToAction("TRACE") == Some(TRACE) && ToAction("PATCH") == Some(PATCH)
  {
  }

  // ---- header fields ----------------------------------------------------------------------------

  const CONTENT_ENCODING := "CONTENT-ENCODING"
  const CONTENT_LENGTH := "CONTENT-LENGTH"
  const TRANSFER_ENCODING := "TRANSFER-ENCODING"

  /** A header field under its upper-case name. */
  datatype Field = Field(name: string, value: string)

  /** The first value of a name. */
  function Lookup(fields: seq<Field>, name: string): Option<string> {
    if fields == [] then None
    else if fields[0].name == name then Some(fields[0].value)
    else Lookup(fields[1..], name)
  }

  predicate KnownEncoding(value: string) {
    value == "gzip" || value == "deflate" || value == "br"
  }

  predicate EncodingRefused(fields: seq<Field>) {
    var e := Lookup(fields, CONTENT_ENCODING);
    e.Some? && !KnownEncoding(e.value)
  }

  // ---- the meaning of a byte stream -------------------------------------------------------------

  datatype Phase = AwaitingClientRequest | ReadingHeaders | ReadingContent | ReadingChunks

  /** Why parsing stopped: the endpoint closed over a bad request line, failed over an unknown content
      encoding, found a size that is no number, or met a request line whose reading depends on what
      else is in the buffer. */
  datatype Status = Running | Closed | Unsupported | BadSize | Irregular

  datatype Request = Request(action: Action, uri: string, headers: seq<Field>, body: string)

  /** `line` is the line in progress.  A chunk size of 0 stands for the trailer after the last chunk. */
  datatype Parser = Parser(
    phase: Phase, line: string, action: Action, uri: string, headers: seq<Field>, contentSize: nat,
    chunkSize: Option<nat>, body: string, requests: seq<Request>, status: Status)

  const START := Parser(AwaitingClientRequest, "", GET, "", [], 0, None, "", [], Running)

  function Dispatch(p: Parser): Parser {
    p.(phase := AwaitingClientRequest, chunkSize := None,
       requests := p.requests + [Request(p.action, p.uri, p.headers, p.body)])
  }

  /** The words and the end of the line are found in the line itself. */
  predicate RegularLine(line: string) {
    ReadRequestLine(line).complete
  }

  /** What comes behind the line is not looked at iff the line is regular. */
  lemma IndependentOfReadsIff(line: string)
    requires EndsWithCRLF(line)
    ensures (forall t :: ReadRequestLine(line + t) == ReadRequestLine(line)) <==> RegularLine(line)
    ensures RegularLine(line) <==> TwoWords(line)
  {
    hide ReadRequestLine, TwoWords;
    CompleteIff(line);
    if TwoWords(line) {
      forall t
        ensures ReadRequestLine(line + t) == ReadRequestLine(line)
      {
        RequestLineStable(line, t);
      }
    } else {
      NextWordCounts(line);
    }
  }

  function OnRequestLine(p: Parser, line: string): Parser {
    var r := ReadRequestLine(line);
    if !RegularLine(line) then p.(status := Irregular)
    else if r.version == "" || ToAction(r.method_) == None then p.(status := Closed)
    else
      p.(phase := ReadingHeaders, action := ToAction(r.method_).value, uri := r.uri, headers := [], contentSize := 0,
         chunkSize := None, body := "")
  }

  function EndOfHeaders(p: Parser): Parser {
    if EncodingRefused(p.headers) then p.(status := Unsupported)
    else
      match Lookup(p.headers, CONTENT_LENGTH)
      case Some(v) =>
        (match ParseNumber(v, 10)
         case None => p.(status := BadSize)
         case Some(n) =>
           var q := p.(phase := ReadingContent, contentSize := n);
           if n == 0 then Dispatch(q) else q)
      case None =>
        if Lookup(p.headers, TRANSFER_ENCODING) == Some("chunked") then p.(phase := ReadingChunks)
        else Dispatch(p)
  }

  function OnHeaderLine(p: Parser, line: string): Parser {
    var colon := IndexOf(line, ':');
    if colon < |line| then
      p.(headers := p.headers + [Field(Upper(Trim(line[..colon])), Trim(line[colon + 1..]))])
    else if Trim(line) == "" then EndOfHeaders(p)
    else p
  }

  /** A line between chunks, or of the trailer. */
  function OnChunkLine(p: Parser, line: string): Parser {
    if p.chunkSize == Some(0) then if Trim(line) == "" then Dispatch(p) else p
    else if Trim(line) == "" then p
    else
      match ParseNumber(line, 16)
      case None => p.(status := BadSize)
      case Some(n) => p.(chunkSize := Some(n))
  }

  predicate InChunk(p: Parser) {
    p.phase == ReadingChunks && p.chunkSize.Some? && p.chunkSize.value > 0
  }

  function FeedContent(p: Parser, c: char): Parser {
    var q := p.(body := p.body + [c]);
    if |q.body| >= q.contentSize then Dispatch(q) else q
  }

  function FeedChunk(p: Parser, c: char): Parser
    requires InChunk(p)
  {
    p.(body := p.body + [c], chunkSize := if p.chunkSize.value == 1 then None else Some(p.chunkSize.value - 1))
  }

  /** The endpoint waits for a carriage return and line feed, but the request line may end before them,
      at a line feed alone; what is behind that belongs to the headers. */
  function FeedRequestLine(p: Parser, c: char): (q: Parser)
    ensures |q.line| <= |p.line| + 1
    decreases |p.line| + 1, 1, 0
  {
    var line := p.line + [c];
    if EndsWithCRLF(line) then FeedAll(OnRequestLine(p.(line := ""), line), line[ReadRequestLine(line).next..])
    else p.(line := line)
  }

  function OnLine(p: Parser, line: string): Parser {
    if p.phase == ReadingHeaders then OnHeaderLine(p, line) else OnChunkLine(p, line)
  }

  function Feed(p: Parser, c: char): (q: Parser)
    ensures |q.line| <= |p.line| + 1
    decreases |p.line| + 1, 1, 1
  {
    if p.status != Running then p
    else if p.phase == AwaitingClientRequest then FeedRequestLine(p, c)
    else if p.phase == ReadingContent then FeedContent(p, c)
    else if InChunk(p) then FeedChunk(p, c)
    else if c == '\n' then OnLine(p.(line := ""), p.line)
    else p.(line := p.line + [c])
  }

  function FeedAll(p: Parser, s: string): (q: Parser)
    ensures |q.line| <= |p.line| + |s|
    decreases |p.line| + |s|, 2, |s|
  {
    if s == "" then p else FeedAll(Feed(p, s[0]), s[1..])
  }

  lemma {:induction false} FeedAllSplits(p: Parser, s: string, t: string)
    ensures FeedAll(p, s + t) == FeedAll(FeedAll(p, s), t)
    decreases |s|
  {
    if s == "" {
      assert s + t == t;
    } else {
      assert (s + t)[1..] == s[1..] + t;
      FeedAllSplits(Feed(p, s[0]), s[1..], t);
    }
  }

  lemma {:induction false} StoppedFeeds(p: Parser, s: string)
    requires p.status != Running
    ensures FeedAll(p, s) == p
    decreases |s|
  {
    if s != "" {
      StoppedFeeds(p, s[1..]);
    }
  }

  // ---- several bytes at once --------------------------------------------------------------------

  /** The phases in which bytes are collected into lines. */
  predicate InLines(p: Parser) {
    p.status == Running && (p.phase == ReadingHeaders || (p.phase == ReadingChunks && !InChunk(p)))
  }

  lemma {:induction false} PartialLineFeeds(p: Parser, s: string)
    requires InLines(p) && !Contains(s, '\n')
    ensures FeedAll(p, s) == p.(line := p.line + s)
    decreases |s|
  {
    if s == "" {
      assert p.line + s == p.line;
    } else {
      assert s[0] != '\n';
      var q := p.(line := p.line + [s[0]]);
      assert !Contains(s[1..], '\n') by {
        assert forall i :: 0 <= i < |s[1..]| ==> s[1..][i] == s[i + 1];
      }
      PartialLineFeeds(q, s[1..]);
      assert q.line + s[1..] == p.line + s;
    }
  }

  lemma LineFeeds(p: Parser, s: string)
    requires InLines(p) && !Contains(s, '\n')
    ensures FeedAll(p, s + "\n") == OnLine(p.(line := ""), p.line + s)
  {
    FeedAllSplits(p, s, "\n");
    PartialLineFeeds(p, s);
    var q := p.(line := p.line + s);
    assert FeedAll(q, "\n") == FeedAll(Feed(q, '\n'), "");
    assert q.(line := "") == p.(line := "");
  }

  /** No carriage return and line feed in a row, anywhere in `line + s`. */
  predicate NoCRLF(s: string) {
    forall i :: 0 <= i < |s| - 1 ==> !(s[i] == '\r' && s[i + 1] == '\n')
  }

  lemma {:induction false} PartialRequestLineFeeds(p: Parser, s: string)
    requires p.status == Running && p.phase == AwaitingClientRequest && NoCRLF(p.line + s)
    ensures FeedAll(p, s) == p.(line := p.line + s)
    decreases |s|
  {
    if s == "" {
      assert p.line + s == p.line;
    } else {
      var q := p.(line := p.line + [s[0]]);
      assert q.line + s[1..] == p.line + s;
      assert !EndsWithCRLF(q.line) by {
        assert q.line == (p.line + s)[..|q.line|];
      }
      assert Feed(p, s[0]) == FeedRequestLine(p, s[0]) == q;
      PartialRequestLineFeeds(q, s[1..]);
    }
  }

  lemma RequestLineFeeds(p: Parser, s: string)
    requires p.status == Running && p.phase == AwaitingClientRequest && p.line == "" && NoCRLF(s + "\r")
    ensures var line := s + "\r\n";
            FeedAll(p, line) == FeedAll(OnRequestLine(p, line), line[ReadRequestLine(line).next..])
  {
    hide ReadRequestLine, OnRequestLine;
    assert s + "\r\n" == (s + "\r") + "\n" && p.line + (s + "\r") == s + "\r";
    FeedAllSplits(p, s + "\r", "\n");
    PartialRequestLineFeeds(p, s + "\r");
    var q := p.(line := s + "\r");
    assert FeedAll(q, "\n") == FeedAll(Feed(q, '\n'), "");
    assert q.line + "\n" == s + "\r\n" && q.(line := "") == p;
  }

  lemma {:induction false} ContentFeeds(p: Parser, s: string)
    requires p.status == Running && p.phase == ReadingContent && |p.body| + |s| <= p.contentSize && |p.body| < p.contentSize
    ensures var q := p.(body := p.body + s);
            FeedAll(p, s) == if |q.body| == q.contentSize then Dispatch(q) else q
    decreases |s|
  {
    if s == "" {
      assert p.body + s == p.body;
    } else {
      var q := p.(body := p.body + [s[0]]);
      assert q.body + s[1..] == p.body + s;
      if |s| > 1 {
        ContentFeeds(q, s[1..]);
      } else {
        assert s[1..] == "" && s == [s[0]];
      }
    }
  }

  lemma {:induction false} ChunkFeeds(p: Parser, s: string)
    requires p.status == Running && InChunk(p) && |s| <= p.chunkSize.value
    ensures FeedAll(p, s)
            == p.(body := p.body + s, chunkSize := if |s| == p.chunkSize.value then None else Some(p.chunkSize.value - |s|))
    decreases |s|
  {
    if s == "" {
      assert p.body + s == p.body;
    } else {
      var q := FeedChunk(p, s[0]);
      assert q.body + s[1..] == p.body + s;
      if |s| > 1 {
        ChunkFeeds(q, s[1..]);
      } else {
        assert s[1..] == "" && s == [s[0]];
      }
    }
  }
}
