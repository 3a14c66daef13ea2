/** Printing HTTP requests: the header block the library prints, the bodies that may follow it, and the
    proof that parsing gives back what was printed.
 */
module HttpMessages {
  import opened FieldMap
  import HttpEndpoint
  import opened HttpParser
  import opened HttpText
  import opened Reads
  import opened Wrappers

  // ---- the header printer -----------------------------------------------------------------------

  /** The name printed last; none is before the first field. */
  function ActiveName(values: seq<FieldEntry>): string {
    if values == [] then "" else values[|values| - 1].name
  }

  /** The printed fields: the host, and one for each run of entries of one name, whose values are joined
      by "; ".  Entries without a name at the front run on from the host. */
  function Merged(host: string, values: seq<FieldEntry>): (fields: seq<Field>)
    ensures fields != []
  {
    if values == [] then [Field("Host", host)]
    else
      var n := |values| - 1;
      var fields := Merged(host, values[..n]);
      var last := fields[|fields| - 1];
      if values[n].name == ActiveName(values[..n]) then
        fields[..|fields| - 1] + [Field(last.name, last.value + "; " + values[n].value)]
      else
        fields + [Field(values[n].name, values[n].value)]
  }

  function FieldText(f: Field): string { f.name + ": " + f.value + "\r\n" }

  function FieldsText(fields: seq<Field>): string {
    if fields == [] then "" else FieldsText(fields[..|fields| - 1]) + FieldText(fields[|fields| - 1])
  }

  function RequestLineText(action: Action, uri: string): string {
    ActionName(action) + " " + uri + " HTTP/1.1\r\n"
  }

  /** The request line, a line for each field, and an empty line. */
  function HeadText(action: Action, uri: string, fields: seq<Field>): string {
    RequestLineText(action, uri) + FieldsText(fields) + "\r\n"
  }

  lemma FieldsTextLast(fields: seq<Field>, f: Field)
    ensures FieldsText(fields + [f]) == FieldsText(fields) + FieldText(f)
  {
    assert (fields + [f])[..|fields|] == fields;
  }

  lemma MergedStep(host: string, values: seq<FieldEntry>, i: nat)
    requires i < |values|
    ensures var fields := Merged(host, values[..i]);
            var last := fields[|fields| - 1];
            && ActiveName(values[..i + 1]) == values[i].name
            && Merged(host, values[..i + 1])
               == if values[i].name == ActiveName(values[..i])
                  then fields[..|fields| - 1] + [Field(last.name, last.value + "; " + values[i].value)]
                  else fields + [Field(values[i].name, values[i].value)]
  {
    assert values[..i + 1][..i] == values[..i];
  }

  /** The header printer; None is the error over the path of a file. */
  method EncodeFieldsToRequestHeader(action: Action, uri: string, host: string, values: seq<FieldEntry>) returns (r: Option<string>)
    ensures r == if HasFilePath(values) then None else Some(HeadText(action, uri, Merged(host, values)))
  {
    hide Merged, FieldsText, RequestLineText;
    ghost var start := RequestLineText(action, uri);
    var contentHeader := RequestLineText(action, uri);
    contentHeader := contentHeader + ("Host: " + host);
    var activeName := "";
    HostText(start, host);
    assert values[..0] == [];
    for i := 0 to |values|
      invariant forall j :: 0 <= j < i ==> !values[j].isFilePath
      invariant activeName == ActiveName(values[..i])
      invariant contentHeader + "\r\n" == start + FieldsText(Merged(host, values[..i]))
    {
      var FieldEntry(name, value, isFilePath) := values[i];
      if isFilePath {
        return None;
      }
      MergedStep(host, values, i);
      if name != activeName {
        NewNameText(contentHeader, start, Merged(host, values[..i]), Field(name, value));
        contentHeader := contentHeader + "\r\n" + name + ": ";
        activeName := name;
      } else {
        ghost var fields := Merged(host, values[..i]);
        assert fields == fields[..|fields| - 1] + [fields[|fields| - 1]];
        SameNameText(contentHeader, start, fields[..|fields| - 1], fields[|fields| - 1], value);
        contentHeader := contentHeader + "; ";
      }
      contentHeader := contentHeader + value;
    }
    assert values[..|values|] == values;
    assert contentHeader + "\r\n\r\n" == contentHeader + "\r\n" + "\r\n";
    contentHeader := contentHeader + "\r\n\r\n";
    return Some(contentHeader);
  }

  lemma HostText(start: string, host: string)
    ensures start + ("Host: " + host) + "\r\n" == start + FieldsText(Merged(host, []))
  {
    var f := Field("Host", host);
    FieldsTextLast([], f);
    assert [] + [f] == [f];
    assert "" + FieldText(f) == FieldText(f);
  }

  lemma NewNameText(content: string, start: string, fields: seq<Field>, f: Field)
    requires content + "\r\n" == start + FieldsText(fields)
    ensures content + "\r\n" + f.name + ": " + f.value + "\r\n" == start + FieldsText(fields + [f])
  {
    FieldsTextLast(fields, f);
  }

  lemma SameNameText(content: string, start: string, before: seq<Field>, last: Field, value: string)
    requires content + "\r\n" == start + FieldsText(before + [last])
    ensures content + "; " + value + "\r\n" == start + FieldsText(before + [Field(last.name, last.value + "; " + value)])
  {
    var joined := Field(last.name, last.value + "; " + value);
    FieldsTextLast(before, last);
    FieldsTextLast(before, joined);
    hide FieldsText, FieldText;
    Regroup(start, FieldsText(before), FieldText(last));
    Regroup(start, FieldsText(before), FieldText(joined));
    FieldExtended(content, start + FieldsText(before), last, value);
  }

  lemma Regroup(a: string, b: string, c: string)
    ensures a + (b + c) == (a + b) + c
  {
  }

  lemma FieldExtended(content: string, front: string, last: Field, value: string)
    requires content + "\r\n" == front + FieldText(last)
    ensures content + "; " + value + "\r\n" == front + FieldText(Field(last.name, last.value + "; " + value))
  {
    Unended(content, front, last.name, last.value);
    Extended(content, front, last.name, last.value, value);
  }

  lemma Extended(content: string, before: string, name: string, first: string, value: string)
    requires content == before + name + ": " + first
    ensures content + "; " + value + "\r\n" == before + (name + ": " + (first + "; " + value) + "\r\n")
  {
    assert name + ": " + (first + "; " + value) + "\r\n" == name + ": " + first + ("; " + value + "\r\n");
    assert content + "; " + value + "\r\n" == content + ("; " + value + "\r\n");
  }

  lemma Unended(content: string, before: string, name: string, value: string)
    requires content + "\r\n" == before + (name + ": " + value + "\r\n")
    ensures content == before + name + ": " + value
  {
    var unended := before + name + ": " + value;
    assert unended + "\r\n" == content + "\r\n";
    assert content == (content + "\r\n")[..|content|];
    assert unended == (unended + "\r\n")[..|unended|];
  }

  // ---- reading the header block -----------------------------------------------------------------

  /** The field that a printed field is read as. */
  function Read(f: Field): Field { Field(Upper(Trim(f.name)), Trim(f.value)) }

  function ReadFields(fields: seq<Field>): seq<Field> {
    seq(|fields|, i requires 0 <= i < |fields| => Read(fields[i]))
  }

  predicate Printable(f: Field) {
    !Contains(f.name, ':') && !Contains(f.name, '\n') && !Contains(f.value, '\n')
  }

  lemma {:induction false} TrimRightTight(s: string)
    ensures TrimRight(s) == "" || !IsTrailing(TrimRight(s)[|TrimRight(s)| - 1])
    ensures TrimRight(s) <= s
  {
    if s != "" && IsTrailing(s[|s| - 1]) {
      TrimRightTight(s[..|s| - 1]);
    }
  }

  lemma {:induction false} TrimLeftTight(s: string)
    ensures TrimLeft(s) == "" || !IsBlank(TrimLeft(s)[0])
  {
    if s != "" && IsBlank(s[0]) {
      TrimLeftTight(s[1..]);
    }
  }

  lemma {:induction false} TrimLeftBefore(s: string)
    ensures TrimLeft(s + "\r") == TrimLeft(s) + "\r"
  {
    if s == "" {
      var r := s + "\r";
      assert r == "\r" && !IsBlank(r[0]) && TrimLeft(s) + "\r" == r;
    } else if IsBlank(s[0]) {
      assert (s + "\r")[1..] == s[1..] + "\r";
      TrimLeftBefore(s[1..]);
    }
  }

  /** The blank and the carriage return that printing puts around a value are trimmed away again. */
  lemma TrimPadded(s: string)
    ensures Trim(" " + s + "\r") == Trim(s)
  {
    TrimLeftBefore(s);
    assert (" " + s + "\r")[1..] == s + "\r";
    assert (TrimLeft(s) + "\r")[..|TrimLeft(s)|] == TrimLeft(s);
  }

  lemma TrimIff(s: string)
    ensures Trim(s) == s <==> Tight(s)
  {
    TrimLeftTight(s);
    TrimRightTight(TrimLeft(s));
    if Tight(s) {
      TrimRemoves("", s, "");
      assert "" + s + "" == s;
    }
  }

  /** A printed field is read unchanged iff its name is in upper case and nothing can be trimmed off. */
  lemma FieldUnchangedIff(f: Field)
    ensures Read(f) == f <==> Tight(f.name) && Upper(f.name) == f.name && Tight(f.value)
  {
    TrimIff(f.name);
    TrimIff(f.value);
    if Read(f) == f {
      UpperTrimmed(f.name);
    }
  }

  lemma UpperTrimmed(s: string)
    requires Upper(Trim(s)) == s
    ensures Trim(s) == s
  {
    TrimShorter(s);
    assert |Upper(Trim(s))| == |Trim(s)|;
  }

  lemma {:induction false} TrimShorter(s: string)
    ensures |Trim(s)| <= |s| && (|Trim(s)| == |s| ==> Trim(s) == s)
  {
    TrimLeftShorter(s);
    TrimRightTight(TrimLeft(s));
  }

  lemma {:induction false} TrimLeftShorter(s: string)
    ensures |TrimLeft(s)| <= |s| && (|TrimLeft(s)| == |s| ==> TrimLeft(s) == s)
  {
    if s != "" && IsBlank(s[0]) {
      TrimLeftShorter(s[1..]);
    }
  }

  predicate InHeaders(p: Parser) {
    p.status == Running && p.phase == ReadingHeaders && p.line == ""
  }

  lemma FieldFeeds(p: Parser, f: Field)
    requires InHeaders(p) && Printable(f)
    ensures FeedAll(p, FieldText(f)) == p.(headers := p.headers + [Read(f)])
  {
    hide FeedAll, Trim, Upper, EndOfHeaders;
    var line := f.name + [':'] + (" " + f.value + "\r");
    assert FieldText(f) == line + "\n" && p.line + line == line && p.(line := "") == p;
    assert !Contains(line, '\n');
    LineFeeds(p, line);
    FirstIndex(f.name, ':', " " + f.value + "\r");
    assert line[..|f.name|] == f.name && line[|f.name| + 1..] == " " + f.value + "\r";
    TrimPadded(f.value);
  }

  lemma {:induction false} FieldsFeed(p: Parser, fields: seq<Field>)
    requires InHeaders(p) && forall i :: 0 <= i < |fields| ==> Printable(fields[i])
    ensures FeedAll(p, FieldsText(fields)) == p.(headers := p.headers + ReadFields(fields))
  {
    hide FeedAll;
    if fields == [] {
      HttpEndpoint.FeedNothing(p);
      assert p.headers + [] == p.headers;
    } else {
      var before, f := fields[..|fields| - 1], fields[|fields| - 1];
      FieldsFeed(p, before);
      FeedAllSplits(p, FieldsText(before), FieldText(f));
      FieldFeeds(p.(headers := p.headers + ReadFields(before)), f);
      assert p.headers + ReadFields(before) + [Read(f)] == p.headers + ReadFields(fields);
    }
  }

  lemma EmptyLineFeeds(p: Parser)
    requires InHeaders(p)
    ensures FeedAll(p, "\r\n") == EndOfHeaders(p)
  {
    hide FeedAll, EndOfHeaders;
    assert "\r\n" == "\r" + "\n" && p.line + "\r" == "\r" && p.(line := "") == p;
    LineFeeds(p, "\r");
    TrimRemoves("", "", "\r");
    assert "" + "" + "\r" == "\r";
  }

  // ---- request lines ----------------------------------------------------------------------------

  predicate IsWord(s: string) {
    s != "" && forall i :: 0 <= i < |s| ==> s[i] != ' ' && !('\t' <= s[i] <= '\r')
  }

  lemma ActionNameReads(a: Action)
    ensures IsWord(ActionName(a)) && ToAction(ActionName(a)) == Some(a)
  {
  }

  /** Two words, and a version behind them, are what the request line is read as. */
  lemma WordsRead(m: string, uri: string, version: string)
    requires IsWord(m) && IsWord(uri) && version != "" && !Contains(version, '\n') && IsSpace(version[0])
    ensures var line := m + " " + uri + version + "\n";
            ReadRequestLine(line) == RequestLine(m, uri, version, |line|, true)
  {
    var line := m + " " + uri + version + "\n";
    var u0 := |m| + 1;
    var u1 := u0 + |uri|;
    var e := u1 + |version|;
    LinePlaces(m, uri, version);
    assert WordEnd(line, 0) == |m| && SkipSpaces(line, |m|) == u0;
    assert WordEnd(line, u0) == u1 && LineEnd(line, u1) == e;
  }

  lemma LinePlaces(m: string, uri: string, version: string)
    requires IsWord(m) && IsWord(uri) && version != "" && !Contains(version, '\n') && IsSpace(version[0])
    ensures var line := m + " " + uri + version + "\n";
            var u0 := |m| + 1;
            var u1 := u0 + |uri|;
            var e := u1 + |version|;
            && line[0..|m|] == m && line[u0..u1] == uri && line[u1..e] == version
            && line[|m|] == ' ' && IsSpace(line[u1]) && line[e] == '\n'
            && (forall k :: 0 <= k < |m| ==> !IsSpace(line[k]))
            && (forall k :: u0 <= k < u1 ==> !IsSpace(line[k]))
            && (forall k :: u1 <= k < e ==> line[k] != '\n')
  {
    var line := m + " " + uri + version + "\n";
    var u0 := |m| + 1;
    var u1 := u0 + |uri|;
    assert forall k :: 0 <= k < |m| ==> line[k] == m[k];
    assert forall k :: u0 <= k < u1 ==> line[k] == uri[k - u0];
    assert forall k :: u1 <= k < u1 + |version| ==> line[k] == version[k - u1];
  }

  predicate Idle(p: Parser) {
    p.status == Running && p.phase == AwaitingClientRequest && p.line == ""
  }

  /** The parser after the request line. */
  function Started(p: Parser, action: Action, uri: string): Parser {
    p.(phase := ReadingHeaders, action := action, uri := uri, headers := [], contentSize := 0, chunkSize := None, body := "")
  }

  lemma RequestLineFed(p: Parser, action: Action, uri: string)
    requires Idle(p) && IsWord(uri)
    ensures FeedAll(p, RequestLineText(action, uri)) == Started(p, action, uri)
  {
    hide FeedAll, ReadRequestLine, ToAction, ActionName;
    var name := ActionName(action);
    ActionNameReads(action);
    WordsRead(name, uri, " HTTP/1.1\r");
    var s := name + " " + uri + " HTTP/1.1";
    assert s + "\r\n" == RequestLineText(action, uri) == name + " " + uri + " HTTP/1.1\r" + "\n";
    NoNewline(name, uri);
    RequestLineFeeds(p, s);
    HttpEndpoint.FeedNothing(Started(p, action, uri));
  }

  lemma NoNewline(name: string, uri: string)
    requires IsWord(name) && IsWord(uri)
    ensures NoCRLF(name + " " + uri + " HTTP/1.1" + "\r")
  {
    var s := name + " " + uri + " HTTP/1.1" + "\r";
    forall i | 0 <= i < |s|
      ensures s[i] != '\n'
    {
      if i < |name| {
        assert s[i] == name[i];
      } else if |name| < i < |name| + 1 + |uri| {
        assert s[i] == uri[i - |name| - 1];
      } else if i > |name| {
        assert s[i] == " HTTP/1.1\r"[i - |name| - 1 - |uri|];
      }
    }
  }

  // ---- bodies -----------------------------------------------------------------------------------

  /** A chunk: its size line, which may carry an extension, and its data. */
  datatype Chunk = Chunk(sizeLine: string, data: string)

  datatype Body = NoBody | Sized(content: string) | Chunked(chunks: seq<Chunk>, last: string, trailer: seq<string>)

  function BodyContent(b: Body): string {
    match b
    case NoBody => ""
    case Sized(content) => content
    case Chunked(chunks, _, _) => Joined(chunks)
  }

  function Joined(chunks: seq<Chunk>): string {
    if chunks == [] then "" else chunks[0].data + Joined(chunks[1..])
  }

  function ChunkText(c: Chunk): string { c.sizeLine + "\r\n" + c.data + "\r\n" }

  function ChunksText(chunks: seq<Chunk>): string {
    if chunks == [] then "" else ChunkText(chunks[0]) + ChunksText(chunks[1..])
  }

  function LinesText(lines: seq<string>): string {
    if lines == [] then "" else lines[0] + "\r\n" + LinesText(lines[1..])
  }

  function BodyText(b: Body): string {
    match b
    case NoBody => ""
    case Sized(content) => content
    case Chunked(chunks, last, trailer) => ChunksText(chunks) + last + "\r\n" + LinesText(trailer) + "\r\n"
  }

  predicate SizeLine(line: string, size: nat) {
    !Contains(line, '\n') && ParseNumber(line + "\r", 16) == Some(size)
  }

  predicate ChunkOk(c: Chunk) { c.data != "" && SizeLine(c.sizeLine, |c.data|) }

  predicate TrailerLine(line: string) { !Contains(line, '\n') && Trim(line + "\r") != "" }

  /** The body is in no content coding, or in one that the endpoint knows. */
  predicate CodingKnown(headers: seq<Field>) {
    var coding := Lookup(headers, "CONTENT-ENCODING");
    coding == None || coding == Some("gzip") || coding == Some("deflate") || coding == Some("br")
  }

  /** The headers announce the body that follows. */
  predicate Framed(headers: seq<Field>, b: Body) {
    var length := Lookup(headers, "CONTENT-LENGTH");
    var chunked := Lookup(headers, "TRANSFER-ENCODING") == Some("chunked");
    match b
    case NoBody => length == None && !chunked
    case Sized(content) => length.Some? && ParseNumber(length.value, 10) == Some(|content|)
    case Chunked(chunks, last, trailer) =>
      && length == None && chunked
      && (forall i :: 0 <= i < |chunks| ==> ChunkOk(chunks[i]))
      && SizeLine(last, 0)
      && (forall i :: 0 <= i < |trailer| ==> TrailerLine(trailer[i]))
  }

  /** A length or a chunk size printed in decimal or hexadecimal announces as many bytes. */
  lemma PrintedSizes(size: nat)
    requires size < TWO_TO_THE_64
    ensures ParseNumber(Digits(size, 10), 10) == Some(size) && SizeLine(Digits(size, 16), size)
  {
    PrintedNumberParses(size, 10, "");
    PrintedNumberParses(size, 16, "\r");
    DigitsAreDigits(size, 16);
    assert Digits(size, 10) + "" == Digits(size, 10);
    var s := Digits(size, 16);
    assert forall i :: 0 <= i < |s| ==> s[i] != '\n' by {
      assert !IsDigit('\n', 16);
    }
  }

  predicate BetweenChunks(p: Parser) {
    p.status == Running && p.phase == ReadingChunks && p.line == "" && p.chunkSize == None
  }

  predicate InTrailer(p: Parser) {
    p.status == Running && p.phase == ReadingChunks && p.line == "" && p.chunkSize == Some(0)
  }

  lemma EndedLineFeeds(p: Parser, line: string)
    requires (BetweenChunks(p) || InTrailer(p)) && !Contains(line, '\n')
    ensures FeedAll(p, line + "\r\n") == OnChunkLine(p, line + "\r")
  {
    hide FeedAll, OnChunkLine;
    assert line + "\r\n" == (line + "\r") + "\n" && p.line + (line + "\r") == line + "\r" && p.(line := "") == p;
    LineFeeds(p, line + "\r");
  }

  lemma NumberNotBlank(line: string, base: nat)
    requires ParseNumber(line, base).Some? && base <= 36
    ensures Trim(line) != ""
  {
    assert IsDigit(line[0], base);
    TrimRightKeeps(line);
  }

  lemma {:induction false} TrimRightKeeps(s: string)
    requires s != "" && !IsTrailing(s[0])
    ensures TrimRight(s) != ""
    decreases |s|
  {
    if IsTrailing(s[|s| - 1]) {
      TrimRightKeeps(s[..|s| - 1]);
    }
  }

  lemma SizeLineFeeds(p: Parser, line: string, size: nat)
    requires BetweenChunks(p) && SizeLine(line, size)
    ensures FeedAll(p, line + "\r\n") == p.(chunkSize := Some(size))
  {
    hide FeedAll, Trim, ParseNumber;
    EndedLineFeeds(p, line);
    NumberNotBlank(line + "\r", 16);
  }

  lemma BlankLine()
    ensures Trim("\r") == ""
  {
    TrimRemoves("", "", "\r");
    assert "" + "" + "\r" == "\r";
  }

  lemma ChunkFed(p: Parser, c: Chunk)
    requires BetweenChunks(p) && ChunkOk(c)
    ensures FeedAll(p, ChunkText(c)) == p.(body := p.body + c.data)
  {
    hide FeedAll, Trim, ParseNumber;
    SizeLineFeeds(p, c.sizeLine, |c.data|);
    var inside := p.(chunkSize := Some(|c.data|));
    ChunkFeeds(inside, c.data);
    var after := p.(body := p.body + c.data);
    EndedLineFeeds(after, "");
    BlankLine();
    assert "" + "\r\n" == "\r\n" && "" + "\r" == "\r";
    FeedAllSplits(p, c.sizeLine + "\r\n", c.data);
    FeedAllSplits(p, c.sizeLine + "\r\n" + c.data, "\r\n");
  }

  lemma StaysBetween(p: Parser, body: string)
    ensures BetweenChunks(p) <==> BetweenChunks(p.(body := body))
  {
  }

  lemma {:induction false} ChunksFed(p: Parser, chunks: seq<Chunk>)
    requires BetweenChunks(p) && forall i :: 0 <= i < |chunks| ==> ChunkOk(chunks[i])
    ensures FeedAll(p, ChunksText(chunks)) == p.(body := p.body + Joined(chunks))
    decreases |chunks|
  {
    hide FeedAll, ChunkText, ChunkOk, BetweenChunks;
    if chunks == [] {
      HttpEndpoint.FeedNothing(p);
      assert p.body + "" == p.body;
    } else {
      ChunkFed(p, chunks[0]);
      var q := p.(body := p.body + chunks[0].data);
      StaysBetween(p, q.body);
      ChunksFed(q, chunks[1..]);
      FeedAllSplits(p, ChunkText(chunks[0]), ChunksText(chunks[1..]));
      Regroup(p.body, chunks[0].data, Joined(chunks[1..]));
    }
  }

  lemma {:induction false} TrailerFed(p: Parser, lines: seq<string>)
    requires InTrailer(p) && forall i :: 0 <= i < |lines| ==> TrailerLine(lines[i])
    ensures FeedAll(p, LinesText(lines)) == p
    decreases |lines|
  {
    hide FeedAll, Trim;
    if lines == [] {
      HttpEndpoint.FeedNothing(p);
    } else {
      EndedLineFeeds(p, lines[0]);
      TrailerFed(p, lines[1..]);
      FeedAllSplits(p, lines[0] + "\r\n", LinesText(lines[1..]));
    }
  }

  /** The last chunk, the trailer and the empty line. */
  lemma LastChunkFed(p: Parser, last: string, trailer: seq<string>)
    requires BetweenChunks(p) && SizeLine(last, 0) && forall i :: 0 <= i < |trailer| ==> TrailerLine(trailer[i])
    ensures FeedAll(p, last + "\r\n" + LinesText(trailer) + "\r\n") == Dispatch(p)
  {
    hide FeedAll, Trim, ParseNumber, LinesText, TrailerLine, SizeLine;
    var ending := p.(chunkSize := Some(0));
    SizeLineFeeds(p, last, 0);
    TrailerFed(ending, trailer);
    EndedLineFeeds(ending, "");
    BlankLine();
    assert "" + "\r\n" == "\r\n" && "" + "\r" == "\r";
    FeedAllSplits(p, last + "\r\n", LinesText(trailer));
    FeedAllSplits(p, last + "\r\n" + LinesText(trailer), "\r\n");
  }

  lemma ChunkedFed(p: Parser, chunks: seq<Chunk>, last: string, trailer: seq<string>)
    requires BetweenChunks(p) && Framed(p.headers, Chunked(chunks, last, trailer))
    ensures FeedAll(p, BodyText(Chunked(chunks, last, trailer))) == Dispatch(p.(body := p.body + Joined(chunks)))
  {
    hide FeedAll, Trim, ParseNumber, Lookup, ChunksText, LinesText, ChunkOk, SizeLine, TrailerLine;
    ChunksFed(p, chunks);
    LastChunkFed(p.(body := p.body + Joined(chunks)), last, trailer);
    FeedAllSplits(p, ChunksText(chunks), last + "\r\n" + LinesText(trailer) + "\r\n");
    ChunkedText(ChunksText(chunks), last, LinesText(trailer));
  }

  lemma ChunkedText(chunks: string, last: string, trailer: string)
    ensures chunks + last + "\r\n" + trailer + "\r\n" == chunks + (last + "\r\n" + trailer + "\r\n")
  {
  }

  // ---- whole requests ---------------------------------------------------------------------------

  datatype WireRequest = WireRequest(action: Action, uri: string, host: string, fields: seq<Field>, body: Body)

  /** The headers the handler is given. */
  function HeadersOf(r: WireRequest): seq<Field> {
    [Field("HOST", Trim(r.host))] + ReadFields(r.fields)
  }

  predicate WellFormed(r: WireRequest) {
    && IsWord(r.uri) && !Contains(r.host, '\n')
    && (forall i :: 0 <= i < |r.fields| ==> Printable(r.fields[i]))
    && Framed(HeadersOf(r), r.body) && CodingKnown(HeadersOf(r))
  }

  function RequestText(r: WireRequest): string {
    HeadText(r.action, r.uri, [Field("Host", r.host)] + r.fields) + BodyText(r.body)
  }

  function RequestOf(r: WireRequest): Request {
    Request(r.action, r.uri, HeadersOf(r), BodyContent(r.body))
  }

  lemma HostRead(r: WireRequest)
    ensures ReadFields([Field("Host", r.host)] + r.fields) == HeadersOf(r)
    ensures !Contains(r.host, '\n') ==> Printable(Field("Host", r.host))
  {
    assert Upper("Host") == "HOST";
    TrimIff("Host");
  }

  lemma FieldsFed(p: Parser, action: Action, uri: string, fields: seq<Field>)
    requires Idle(p) && IsWord(uri) && forall i :: 0 <= i < |fields| ==> Printable(fields[i])
    ensures FeedAll(p, HeadText(action, uri, fields)) == EndOfHeaders(Started(p, action, uri).(headers := ReadFields(fields)))
  {
    hide FeedAll, EndOfHeaders, IsWord, Read, Printable;
    var started := Started(p, action, uri);
    RequestLineFed(p, action, uri);
    FieldsFeed(started, fields);
    assert started.headers + ReadFields(fields) == ReadFields(fields);
    EmptyLineFeeds(started.(headers := ReadFields(fields)));
    FeedAllSplits(p, RequestLineText(action, uri), FieldsText(fields));
    FeedAllSplits(p, RequestLineText(action, uri) + FieldsText(fields), "\r\n");
  }

  lemma HeadFed(p: Parser, r: WireRequest)
    requires Idle(p) && WellFormed(r)
    ensures FeedAll(p, HeadText(r.action, r.uri, [Field("Host", r.host)] + r.fields))
            == EndOfHeaders(Started(p, r.action, r.uri).(headers := HeadersOf(r)))
  {
    hide FeedAll, EndOfHeaders, Framed, EncodingRefused, CodingKnown, IsWord, Read;
    HostRead(r);
    FieldsFed(p, r.action, r.uri, [Field("Host", r.host)] + r.fields);
  }

  /** The parser once the body has been read. */
  lemma BodyFed(p: Parser, b: Body)
    requires p.status == Running && p.phase == ReadingHeaders && p.line == "" && p.body == "" && p.chunkSize == None
    requires Framed(p.headers, b) && CodingKnown(p.headers)
    ensures var d := FeedAll(EndOfHeaders(p), BodyText(b));
            Idle(d) && d.requests == p.requests + [Request(p.action, p.uri, p.headers, BodyContent(b))]
  {
    assert !EncodingRefused(p.headers);
    hide FeedAll, EncodingRefused, CodingKnown, ParseNumber, Lookup;
    match b
    case NoBody => HttpEndpoint.FeedNothing(Dispatch(p));
    case Sized(content) =>
      var q := p.(phase := ReadingContent, contentSize := |content|);
      assert "" + content == content;
      if content == "" {
        HttpEndpoint.FeedNothing(Dispatch(q));
      } else {
        ContentFeeds(q, content);
      }
    case Chunked(chunks, last, trailer) =>
      ChunkedFed(p.(phase := ReadingChunks), chunks, last, trailer);
      assert "" + Joined(chunks) == Joined(chunks);
  }

  lemma RequestFed(p: Parser, r: WireRequest)
    requires Idle(p) && WellFormed(r)
    ensures var d := FeedAll(p, RequestText(r));
            Idle(d) && d.requests == p.requests + [RequestOf(r)]
  {
    hide FeedAll, EndOfHeaders, Framed, EncodingRefused, CodingKnown;
    HeadFed(p, r);
    BodyFed(Started(p, r.action, r.uri).(headers := HeadersOf(r)), r.body);
    FeedAllSplits(p, HeadText(r.action, r.uri, [Field("Host", r.host)] + r.fields), BodyText(r.body));
  }

  // ---- what the wire says about the body --------------------------------------------------------

  /** The value, less the blanks around it, of the first field under a name, in any letter case. */
  function FirstUnder(fields: seq<Field>, name: string): Option<string> {
    if fields == [] then None
    else if SameLetters(Trim(fields[0].name), name) then Some(Trim(fields[0].value))
    else FirstUnder(fields[1..], name)
  }

  /** Equal but for the case of the letters from a to z. */
  predicate SameLetters(s: string, t: string) {
    |s| == |t| && forall i :: 0 <= i < |s| ==> SameLetter(s[i], t[i])
  }

  predicate SameLetter(c: char, d: char) {
    c == d || ('a' <= c <= 'z' && d == c - 32 as char) || ('a' <= d <= 'z' && c == d - 32 as char)
  }

  lemma UpperIsSameLetters(s: string, name: string)
    requires forall i :: 0 <= i < |name| ==> !('a' <= name[i] <= 'z')
    ensures Upper(s) == name <==> SameLetters(s, name)
  {
    if SameLetters(s, name) {
      assert forall i :: 0 <= i < |s| ==> SameLetter(s[i], name[i]) && Upper(s)[i] == name[i];
    }
    if Upper(s) == name {
      assert forall i :: 0 <= i < |s| ==> Upper(s)[i] == name[i] && SameLetter(s[i], name[i]);
    }
  }

  lemma {:induction false} LookupIsFirst(fields: seq<Field>, name: string)
    requires forall i :: 0 <= i < |name| ==> !('a' <= name[i] <= 'z')
    ensures Lookup(ReadFields(fields), name) == FirstUnder(fields, name)
    decreases |fields|
  {
    hide Trim, Upper, SameLetters;
    if fields != [] {
      assert ReadFields(fields)[1..] == ReadFields(fields[1..]);
      UpperIsSameLetters(Trim(fields[0].name), name);
      LookupIsFirst(fields[1..], name);
    }
  }

  predicate CodingKnownOnWire(fields: seq<Field>) {
    var coding := FirstUnder(fields, "Content-Encoding");
    coding == None || coding == Some("gzip") || coding == Some("deflate") || coding == Some("br")
  }

  lemma {:induction false} FirstInAnyCase(fields: seq<Field>, name: string, other: string)
    requires SameLetters(name, other)
    ensures FirstUnder(fields, name) == FirstUnder(fields, other)
    decreases |fields|
  {
    hide Trim;
    if fields != [] {
      var s := Trim(fields[0].name);
      assert SameLetters(s, name) <==> SameLetters(s, other) by {
        assert forall i :: 0 <= i < |name| ==> SameLetter(name[i], other[i]);
      }
      FirstInAnyCase(fields[1..], name, other);
    }
  }

  /** What the parser looks up is what the wire says. */
  lemma FramingOnWire(fields: seq<Field>)
    ensures Lookup(ReadFields(fields), "CONTENT-LENGTH") == FirstUnder(fields, "Content-Length")
    ensures Lookup(ReadFields(fields), "TRANSFER-ENCODING") == FirstUnder(fields, "Transfer-Encoding")
    ensures Lookup(ReadFields(fields), "CONTENT-ENCODING") == FirstUnder(fields, "Content-Encoding")
  {
    hide FirstUnder, Lookup, ReadFields, SameLetters;
    LengthLetters();
    TransferLetters();
    EncodingLetters();
    LookupIsFirst(fields, "CONTENT-LENGTH");
    FirstInAnyCase(fields, "CONTENT-LENGTH", "Content-Length");
    LookupIsFirst(fields, "TRANSFER-ENCODING");
    FirstInAnyCase(fields, "TRANSFER-ENCODING", "Transfer-Encoding");
    LookupIsFirst(fields, "CONTENT-ENCODING");
    FirstInAnyCase(fields, "CONTENT-ENCODING", "Content-Encoding");
  }

  lemma LengthLetters()
    ensures SameLetters("CONTENT-LENGTH", "Content-Length")
  {
  }

  lemma TransferLetters()
    ensures SameLetters("TRANSFER-ENCODING", "Transfer-Encoding")
  {
  }

  lemma EncodingLetters()
    ensures SameLetters("CONTENT-ENCODING", "Content-Encoding")
  {
  }

  /** The header lines of a request as they may stand on the wire. */
  predicate Legible(uri: string, fields: seq<Field>) {
    IsWord(uri) && forall i :: 0 <= i < |fields| ==> Printable(fields[i])
  }

  lemma OnWireFed(p: Parser, action: Action, uri: string, fields: seq<Field>, body: Body)
    requires Idle(p) && Legible(uri, fields) && CodingKnownOnWire(fields) && Framed(ReadFields(fields), body)
    ensures var d := FeedAll(p, HeadText(action, uri, fields) + BodyText(body));
            Idle(d) && d.requests == p.requests + [Request(action, uri, ReadFields(fields), BodyContent(body))]
  {
    hide FeedAll, EndOfHeaders, Framed, Lookup, FirstUnder;
    FramingOnWire(fields);
    FieldsFed(p, action, uri, fields);
    BodyFed(Started(p, action, uri).(headers := ReadFields(fields)), body);
    FeedAllSplits(p, HeadText(action, uri, fields), BodyText(body));
  }

  /** A request whose first Content-Length, in any letter case and with blanks around it, is the size of
      the content in decimal is that content's, whatever its other fields say. */
  lemma ContentLengthTakes(p: Parser, action: Action, uri: string, fields: seq<Field>, content: string)
    requires Idle(p) && Legible(uri, fields) && CodingKnownOnWire(fields)
    requires FirstUnder(fields, "Content-Length") == Some(Digits(|content|, 10)) && |content| < 0x1_0000_0000_0000_0000
    ensures var d := FeedAll(p, HeadText(action, uri, fields) + content);
            Idle(d) && d.requests == p.requests + [Request(action, uri, ReadFields(fields), content)]
  {
    hide FeedAll, FirstUnder, Lookup;
    FramingOnWire(fields);
    PrintedSizes(|content|);
    OnWireFed(p, action, uri, fields, Sized(content));
  }

  /** Data in chunks, each behind its size in hexadecimal, and the chunk of size zero that ends them. */
  function InChunks(pieces: seq<string>): string {
    if pieces == [] then "0\r\n\r\n"
    else Digits(|pieces[0]|, 16) + "\r\n" + pieces[0] + "\r\n" + InChunks(pieces[1..])
  }

  function All(pieces: seq<string>): string {
    if pieces == [] then "" else pieces[0] + All(pieces[1..])
  }

  function ChunksOf(pieces: seq<string>): seq<Chunk> {
    seq(|pieces|, i requires 0 <= i < |pieces| => Chunk(Digits(|pieces[i]|, 16), pieces[i]))
  }

  lemma {:induction false} ChunksOfText(pieces: seq<string>)
    ensures BodyText(Chunked(ChunksOf(pieces), "0", [])) == InChunks(pieces) && Joined(ChunksOf(pieces)) == All(pieces)
    decreases |pieces|
  {
    hide Digits;
    if pieces == [] {
      assert ChunksOf(pieces) == [];
    } else {
      ChunksOfText(pieces[1..]);
      var chunks := ChunksOf(pieces);
      assert chunks[1..] == ChunksOf(pieces[1..]) && chunks[0] == Chunk(Digits(|pieces[0]|, 16), pieces[0]);
      Ending(ChunkText(chunks[0]), ChunksText(chunks[1..]));
    }
  }

  lemma Ending(first: string, rest: string)
    ensures (first + rest) + "0" + "\r\n" + LinesText([]) + "\r\n" == first + (rest + "0" + "\r\n" + LinesText([]) + "\r\n")
  {
  }

  /** A request without a Content-Length whose first Transfer-Encoding is "chunked" has the content of its
      chunks. */
  lemma TransferEncodingTakes(p: Parser, action: Action, uri: string, fields: seq<Field>, pieces: seq<string>)
    requires Idle(p) && Legible(uri, fields) && CodingKnownOnWire(fields)
    requires FirstUnder(fields, "Content-Length") == None && FirstUnder(fields, "Transfer-Encoding") == Some("chunked")
    requires forall i :: 0 <= i < |pieces| ==> 0 < |pieces[i]| < 0x1_0000_0000_0000_0000
    ensures var d := FeedAll(p, HeadText(action, uri, fields) + InChunks(pieces));
            Idle(d) && d.requests == p.requests + [Request(action, uri, ReadFields(fields), All(pieces))]
  {
    hide FeedAll, FirstUnder, Lookup, SizeLine, Digits, BodyText, Joined, InChunks, All, HeadText;
    FramingOnWire(fields);
    var chunks := ChunksOf(pieces);
    forall i | 0 <= i < |chunks|
      ensures ChunkOk(chunks[i])
    {
      PrintedSizes(|pieces[i]|);
    }
    PrintedSizes(0);
    assert Digits(0, 16) == "0" by {
      ZeroDigit();
    }
    OnWireFed(p, action, uri, fields, Chunked(chunks, "0", []));
    ChunksOfText(pieces);
  }

  lemma ZeroDigit()
    ensures Digits(0, 16) == "0"
  {
  }

  /** A request with neither is complete with its empty line. */
  lemma NeitherTakesNothing(p: Parser, action: Action, uri: string, fields: seq<Field>)
    requires Idle(p) && Legible(uri, fields) && CodingKnownOnWire(fields)
    requires FirstUnder(fields, "Content-Length") == None && FirstUnder(fields, "Transfer-Encoding") != Some("chunked")
    ensures var d := FeedAll(p, HeadText(action, uri, fields));
            Idle(d) && d.requests == p.requests + [Request(action, uri, ReadFields(fields), "")]
  {
    hide FeedAll, FirstUnder, Lookup, HeadText;
    FramingOnWire(fields);
    OnWireFed(p, action, uri, fields, NoBody);
    assert HeadText(action, uri, fields) + "" == HeadText(action, uri, fields);
  }

  /** The endpoint fails over a header block iff its first Content-Encoding is none that it knows. */
  lemma ContentEncodingRefusedIff(p: Parser, action: Action, uri: string, fields: seq<Field>)
    requires Idle(p) && Legible(uri, fields)
    ensures var d := FeedAll(p, HeadText(action, uri, fields));
            && (d.status == Unsupported <==> !CodingKnownOnWire(fields))
            && (!CodingKnownOnWire(fields) ==> d.requests == p.requests)
  {
    hide FeedAll, FirstUnder, Lookup, ParseNumber;
    FramingOnWire(fields);
    FieldsFed(p, action, uri, fields);
  }

  // ---- what is refused, and what is passed over -------------------------------------------------

  predicate MethodName(m: string) {
    m in {"GET", "HEAD", "POST", "PUT", "DELETE", "CONNECT", "OPTIONS", "TRACE", "PATCH"}
  }

  /** The endpoint closes over a request line iff its first word is not the name of a method. */
  lemma MethodRefusedIff(p: Parser, m: string, uri: string)
    requires Idle(p) && IsWord(m) && IsWord(uri)
    ensures var d := FeedAll(p, m + " " + uri + " HTTP/1.1\r\n");
            && d.status == (if MethodName(m) then Running else Closed) && d.requests == p.requests
            && (MethodName(m) ==> InHeaders(d) && d.uri == uri && d.headers == [])
  {
    hide FeedAll, ReadRequestLine;
    WordsRead(m, uri, " HTTP/1.1\r");
    var s := m + " " + uri + " HTTP/1.1";
    assert s + "\r\n" == m + " " + uri + " HTTP/1.1\r\n" == m + " " + uri + " HTTP/1.1\r" + "\n";
    NoNewline(m, uri);
    RequestLineFeeds(p, s);
    HttpEndpoint.FeedNothing(OnRequestLine(p, s + "\r\n"));
    ActionNames();
  }

  lemma BrokenOffPlaces(m: string, uri: string, after: string)
    requires IsWord(m) && IsWord(uri)
    ensures var line := m + " " + uri + "\n" + after;
            var u0 := |m| + 1;
            var u1 := u0 + |uri|;
            && line[0..|m|] == m && line[u0..u1] == uri && line[|m|] == ' ' && line[u1] == '\n'
            && (forall k :: 0 <= k < |m| ==> !IsSpace(line[k]))
            && (forall k :: u0 <= k < u1 ==> !IsSpace(line[k]))
  {
    var line := m + " " + uri + "\n" + after;
    var u0 := |m| + 1;
    assert forall k :: 0 <= k < |m| ==> line[k] == m[k];
    assert forall k :: u0 <= k < u0 + |uri| ==> line[k] == uri[k - u0];
  }

  lemma BrokenOffReads(m: string, uri: string, after: string)
    requires IsWord(m) && IsWord(uri)
    ensures ReadRequestLine(m + " " + uri + "\n" + after) == RequestLine(m, uri, "", |m| + |uri| + 2, true)
  {
    var line := m + " " + uri + "\n" + after;
    var u0 := |m| + 1;
    var u1 := u0 + |uri|;
    BrokenOffPlaces(m, uri, after);
    assert WordEnd(line, 0) == |m| && SkipSpaces(line, |m|) == u0;
    assert WordEnd(line, u0) == u1 && LineEnd(line, u1) == u1;
  }

  /** The endpoint closes over two words with a line feed right behind them, whatever comes before the
      carriage return and line feed that it waits for. */
  lemma NoVersionRefused(p: Parser, m: string, uri: string, rest: string)
    requires Idle(p) && IsWord(m) && IsWord(uri) && NoCRLF(rest + "\r")
    ensures var d := FeedAll(p, m + " " + uri + "\n" + rest + "\r\n");
            d.status == Closed && d.requests == p.requests
  {
    hide FeedAll, ReadRequestLine, ToAction, IsWord;
    var start := m + " " + uri + "\n";
    var line := start + rest + "\r\n";
    assert line == start + (rest + "\r\n");
    BrokenOffReads(m, uri, rest + "\r\n");
    assert start + rest + "\r" == start + (rest + "\r");
    NoCRLFBehind(m, uri, rest + "\r");
    RequestLineFeeds(p, start + rest);
    StoppedFeeds(OnRequestLine(p, line), line[ReadRequestLine(line).next..]);
  }

  lemma NoCRLFBehind(m: string, uri: string, rest: string)
    requires IsWord(m) && IsWord(uri) && NoCRLF(rest)
    ensures NoCRLF(m + " " + uri + "\n" + rest)
  {
    var n := |m| + |uri| + 2;
    var s := m + " " + uri + "\n" + rest;
    BrokenOffPlaces(m, uri, rest);
    forall i | 0 <= i < |s| - 1
      ensures !(s[i] == '\r' && s[i + 1] == '\n')
    {
      if i >= n {
        assert s[i] == rest[i - n] && s[i + 1] == rest[i + 1 - n];
      }
    }
  }

  /** A header line without a colon changes nothing, unless it is blank and ends the headers. */
  lemma NoColonPassedOver(p: Parser, line: string)
    requires InHeaders(p) && !Contains(line, '\n') && !Contains(line, ':') && Trim(line + "\r") != ""
    ensures FeedAll(p, line + "\r\n") == p
  {
    hide FeedAll, Trim, EndOfHeaders;
    assert line + "\r\n" == (line + "\r") + "\n" && p.line + (line + "\r") == line + "\r" && p.(line := "") == p;
    LineFeeds(p, line + "\r");
    assert !Contains(line + "\r", ':');
  }

  /** Parsing stops at a Content-Length that starts with no decimal digit: it would leave the size unset. */
  lemma LengthRefused(p: Parser, action: Action, uri: string, fields: seq<Field>)
    requires Idle(p) && Legible(uri, fields) && CodingKnownOnWire(fields)
    requires var v := FirstUnder(fields, "Content-Length"); v.Some? && (v.value == "" || !('0' <= v.value[0] <= '9'))
    ensures var d := FeedAll(p, HeadText(action, uri, fields));
            d.status == BadSize && d.requests == p.requests
  {
    hide FeedAll, FirstUnder, Lookup;
    FramingOnWire(fields);
    FieldsFed(p, action, uri, fields);
  }

  /** Parsing stops at a line between chunks that is not blank and starts with no hexadecimal digit. */
  lemma ChunkSizeRefused(p: Parser, line: string)
    requires BetweenChunks(p) && !Contains(line, '\n') && Trim(line + "\r") != ""
    requires line == "" || !IsDigit(line[0], 16)
    ensures FeedAll(p, line + "\r\n") == p.(status := BadSize)
  {
    hide FeedAll, Trim;
    EndedLineFeeds(p, line);
  }

  // ---- print, then parse ------------------------------------------------------------------------

  /** The entries as fields, each on its own. */
  function FieldsOf(values: seq<FieldEntry>): seq<Field> {
    seq(|values|, i requires 0 <= i < |values| => Field(values[i].name, values[i].value))
  }

  /** No entry runs on from the one before it; the first one has a name. */
  predicate OneEach(values: seq<FieldEntry>) {
    forall i :: 0 <= i < |values| ==> values[i].name != ActiveName(values[..i])
  }

  lemma OneEachLast(values: seq<FieldEntry>)
    requires values != []
    ensures var n := |values| - 1;
            OneEach(values) <==> OneEach(values[..n]) && values[n].name != ActiveName(values[..n])
  {
    var n := |values| - 1;
    assert forall i :: 0 <= i < n ==> values[..n][..i] == values[..i];
  }

  lemma MergedLast(host: string, values: seq<FieldEntry>)
    requires values != []
    ensures var n := |values| - 1;
            var fields := Merged(host, values[..n]);
            var last := fields[|fields| - 1];
            Merged(host, values)
            == if values[n].name == ActiveName(values[..n])
               then fields[..|fields| - 1] + [Field(last.name, last.value + "; " + values[n].value)]
               else fields + [Field(values[n].name, values[n].value)]
  {
  }

  lemma {:induction false} MergedSize(host: string, values: seq<FieldEntry>)
    ensures |Merged(host, values)| <= 1 + |values|
    ensures |Merged(host, values)| == 1 + |values| <==> OneEach(values)
    ensures Merged(host, values)[0].name == "Host"
    decreases |values|
  {
    if values != [] {
      hide Merged, OneEach, ActiveName;
      MergedLast(host, values);
      OneEachLast(values);
      MergedSize(host, values[..|values| - 1]);
    }
  }

  lemma {:induction false} MergedOneEach(host: string, values: seq<FieldEntry>)
    requires OneEach(values)
    ensures Merged(host, values) == [Field("Host", host)] + FieldsOf(values)
    decreases |values|
  {
    if values == [] {
      assert FieldsOf(values) == [];
    } else {
      hide Merged, OneEach, ActiveName;
      var n := |values| - 1;
      MergedLast(host, values);
      OneEachLast(values);
      var f := Field(values[n].name, values[n].value);
      MergedOneEach(host, values[..n]);
      FieldsOfLast(values);
      hide FieldsOf;
      assert ([Field("Host", host)] + FieldsOf(values[..n])) + [f] == [Field("Host", host)] + (FieldsOf(values[..n]) + [f]);
    }
  }

  lemma FieldsOfLast(values: seq<FieldEntry>)
    requires values != []
    ensures var n := |values| - 1;
            FieldsOf(values) == FieldsOf(values[..n]) + [Field(values[n].name, values[n].value)]
  {
  }

  /** The printer leaves entries apart iff no name is the one printed before it. */
  lemma MergedIff(host: string, values: seq<FieldEntry>)
    ensures Merged(host, values) == [Field("Host", host)] + FieldsOf(values) <==> OneEach(values)
    ensures |Merged(host, values)| == 1 + |values| <==> OneEach(values)
    ensures Merged(host, values)[0].name == "Host"
  {
    hide Merged, OneEach;
    MergedSize(host, values);
    if OneEach(values) {
      MergedOneEach(host, values);
    }
  }

  /** The header block of the printer, with a body behind it, as a request on the wire. */
  function Printed(action: Action, uri: string, host: string, values: seq<FieldEntry>, body: Body): WireRequest {
    var fields := Merged(host, values);
    WireRequest(action, uri, fields[0].value, fields[1..], body)
  }

  /** Fields that come back as they are: one value for a name, nothing to trim, upper case. */
  predicate Restorable(host: string, values: seq<FieldEntry>) {
    && OneEach(values) && Tight(host)
    && forall i :: 0 <= i < |values| ==>
         Tight(values[i].name) && Upper(values[i].name) == values[i].name && Tight(values[i].value)
  }

  lemma HeadersRestoredIff(action: Action, uri: string, host: string, values: seq<FieldEntry>, body: Body)
    ensures HeadersOf(Printed(action, uri, host, values, body)) == [Field("HOST", host)] + FieldsOf(values)
            <==> Restorable(host, values)
  {
    hide Merged, Tight, Trim, Upper;
    var r := Printed(action, uri, host, values, body);
    var fields, headers, wanted := FieldsOf(values), HeadersOf(r), [Field("HOST", host)] + FieldsOf(values);
    MergedIff(host, values);
    if OneEach(values) {
      assert r.fields == fields && r.host == host;
      TrimIff(host);
      assert headers[0] == wanted[0] <==> Tight(host);
      forall i | 0 <= i < |values|
        ensures headers[i + 1] == wanted[i + 1]
                <==> Tight(values[i].name) && Upper(values[i].name) == values[i].name && Tight(values[i].value)
      {
        FieldUnchangedIff(fields[i]);
      }
      if Restorable(host, values) {
        forall j | 0 <= j < |headers|
          ensures headers[j] == wanted[j]
        {
          if j > 0 {
            FieldUnchangedIff(fields[j - 1]);
          }
        }
      }
    } else {
      assert |headers| != |wanted|;
    }
  }

  // ---- what parsing can give --------------------------------------------------------------------

  /** A field as the parser makes it: cut out of a line at its first colon, trimmed, the name in upper case. */
  predicate Parsed(f: Field) {
    && Printable(f) && Tight(f.name) && Upper(f.name) == f.name && Tight(f.value)
  }

  predicate AllParsed(fields: seq<Field>) {
    forall i :: 0 <= i < |fields| ==> Parsed(fields[i])
  }

  predicate ParsedRequest(r: Request) { IsWord(r.uri) && AllParsed(r.headers) }

  /** The requests from the `n`-th on, and the one in progress, hold words and fields as the parser makes them. */
  ghost predicate Sound(p: Parser, n: nat) {
    && (p.status == Running && p.phase != AwaitingClientRequest ==>
          IsWord(p.uri) && AllParsed(p.headers) && !Contains(p.line, '\n'))
    && (forall i :: n <= i < |p.requests| ==> ParsedRequest(p.requests[i]))
  }

  lemma SliceOmits(s: string, i: nat, j: nat, c: char)
    requires i <= j <= |s| && forall k :: i <= k < j ==> s[k] != c
    ensures !Contains(s[i..j], c)
  {
    assert forall k :: 0 <= k < j - i ==> s[i..j][k] == s[i + k];
  }

  lemma TrimKeeps(s: string, c: char)
    requires !Contains(s, c)
    ensures !Contains(Trim(s), c)
  {
    var i := TrimLeftInside(s);
    TrimRightTight(TrimLeft(s));
    assert forall k :: 0 <= k < |Trim(s)| ==> Trim(s)[k] == s[i..][k] == s[i + k];
  }

  lemma {:induction false} TrimLeftInside(s: string) returns (i: nat)
    ensures i <= |s| && TrimLeft(s) == s[i..]
  {
    if s != "" && IsBlank(s[0]) {
      i := TrimLeftInside(s[1..]);
      assert s[1..][i..] == s[i + 1..];
      i := i + 1;
    } else {
      i := 0;
    }
  }

  lemma TrimTight(s: string)
    ensures Tight(Trim(s))
  {
    TrimLeftTight(s);
    TrimRightTight(TrimLeft(s));
  }

  lemma UpperKeeps(s: string, c: char)
    requires !('A' <= c <= 'Z')
    ensures !Contains(s, c) ==> !Contains(Upper(s), c)
    ensures Upper(Upper(s)) == Upper(s) && (Tight(s) ==> Tight(Upper(s)))
  {
  }

  /** A header line is made into such a field. */
  lemma LineParsed(line: string)
    requires !Contains(line, '\n') && IndexOf(line, ':') < |line|
    ensures var colon := IndexOf(line, ':');
            Parsed(Field(Upper(Trim(line[..colon])), Trim(line[colon + 1..])))
  {
    var colon := IndexOf(line, ':');
    var name, value := line[..colon], line[colon + 1..];
    assert forall k :: 0 <= k < |line| ==> line[k] != '\n';
    hide Trim, Upper, Tight, Contains, IndexOf;
    SliceOmits(line, 0, colon, ':');
    SliceOmits(line, 0, colon, '\n');
    SliceOmits(line, colon + 1, |line|, '\n');
    assert line[0..colon] == name && line[colon + 1..|line|] == value;
    TrimKeeps(name, ':');
    TrimKeeps(name, '\n');
    TrimKeeps(value, '\n');
    TrimTight(name);
    TrimTight(value);
    UpperKeeps(Trim(name), ':');
    UpperKeeps(Trim(name), '\n');
  }

  /** The URI of a complete request line is a word. */
  lemma UriIsWord(line: string)
    requires ReadRequestLine(line).complete
    ensures IsWord(ReadRequestLine(line).uri)
  {
    var u0 := SkipSpaces(line, WordEnd(line, SkipSpaces(line, 0)));
    var u1 := WordEnd(line, u0);
    forall i | 0 <= i < |line[u0..u1]|
      ensures !IsSpace(line[u0..u1][i])
    {
      assert line[u0..u1][i] == line[u0 + i];
    }
  }

  lemma DispatchSound(p: Parser, n: nat)
    requires Sound(p, n) && IsWord(p.uri) && AllParsed(p.headers) && p.status == Running
    ensures Sound(Dispatch(p), n)
  {
  }

  lemma EndOfHeadersSound(p: Parser, n: nat)
    requires Sound(p, n) && p.status == Running && p.phase == ReadingHeaders && p.line == ""
    ensures Sound(EndOfHeaders(p), n)
  {
    hide IsWord, AllParsed, ParsedRequest, ParseNumber, EncodingRefused, Lookup;
    AppendedSound(p, p.body, n);
  }

  /** Dispatching the request in progress adds one that is sound. */
  lemma AppendedSound(p: Parser, body: string, n: nat)
    requires Sound(p, n) && p.status == Running && p.phase != AwaitingClientRequest
    ensures ParsedRequest(Request(p.action, p.uri, p.headers, body))
  {
  }

  lemma HeaderLineSound(p: Parser, line: string, n: nat)
    requires Sound(p, n) && p.status == Running && p.phase == ReadingHeaders && p.line == "" && !Contains(line, '\n')
    ensures Sound(OnHeaderLine(p, line), n)
  {
    hide Trim, Upper, IsWord, Parsed, EndOfHeaders;
    if IndexOf(line, ':') < |line| {
      LineParsed(line);
    } else {
      EndOfHeadersSound(p, n);
    }
  }

  lemma ChunkLineSound(p: Parser, line: string, n: nat)
    requires Sound(p, n) && p.status == Running && p.phase == ReadingChunks && p.line == ""
    ensures Sound(OnChunkLine(p, line), n)
  {
    hide Trim, IsWord, AllParsed, ParsedRequest, ParseNumber;
    AppendedSound(p, p.body, n);
  }

  lemma ContentSound(p: Parser, c: char, n: nat)
    requires Sound(p, n) && p.status == Running && p.phase == ReadingContent
    ensures Sound(FeedContent(p, c), n)
  {
    hide IsWord, AllParsed, ParsedRequest;
    AppendedSound(p, p.body + [c], n);
  }

  lemma LongerLineSound(p: Parser, c: char, n: nat)
    requires Sound(p, n) && p.status == Running && p.phase != AwaitingClientRequest && c != '\n'
    ensures Sound(p.(line := p.line + [c]), n)
  {
    hide IsWord, AllParsed, ParsedRequest;
  }

  lemma {:induction false} FeedSound(p: Parser, c: char, n: nat)
    requires Sound(p, n)
    ensures Sound(Feed(p, c), n)
    decreases |p.line| + 1, 1, 1
  {
    hide IsWord, AllParsed, ParsedRequest, OnHeaderLine, OnChunkLine, FeedContent, FeedAll, FeedRequestLine;
    if p.status == Running {
      if p.phase == AwaitingClientRequest {
        RequestLineSound(p, c, n);
      } else if p.phase == ReadingContent {
        ContentSound(p, c, n);
      } else if !InChunk(p) {
        if c != '\n' {
          LongerLineSound(p, c, n);
        } else if p.phase == ReadingHeaders {
          HeaderLineSound(p.(line := ""), p.line, n);
        } else {
          ChunkLineSound(p.(line := ""), p.line, n);
        }
      }
    }
  }

  lemma {:induction false} RequestLineSound(p: Parser, c: char, n: nat)
    requires Sound(p, n) && p.status == Running && p.phase == AwaitingClientRequest
    ensures Sound(FeedRequestLine(p, c), n)
    decreases |p.line| + 1, 1, 0
  {
    hide IsWord, ReadRequestLine, ToAction, FeedAll, ParsedRequest;
    var line := p.line + [c];
    if EndsWithCRLF(line) {
      if RegularLine(line) {
        UriIsWord(line);
      }
      AllSound(OnRequestLine(p.(line := ""), line), line[ReadRequestLine(line).next..], n);
    }
  }

  lemma {:induction false} AllSound(p: Parser, s: string, n: nat)
    requires Sound(p, n)
    ensures Sound(FeedAll(p, s), n)
    decreases |p.line| + |s|, 2, |s|
  {
    hide Feed, Sound;
    if s != "" {
      FeedSound(p, s[0], n);
      AllSound(Feed(p, s[0]), s[1..], n);
    }
  }

  // ---- what a body can add ----------------------------------------------------------------------

  /** Past the headers `h`: the next request dispatched after `n` others has, or had, these headers. */
  ghost predicate Bearing(p: Parser, h: seq<Field>, n: nat) {
    if |p.requests| > n then p.requests[n].headers == h
    else
      |p.requests| == n &&
      (p.status == Running ==> p.headers == h && (p.phase == ReadingContent || p.phase == ReadingChunks))
  }

  lemma {:induction false} FeedBearing(p: Parser, c: char, h: seq<Field>, n: nat)
    requires Bearing(p, h, n)
    ensures Bearing(Feed(p, c), h, n) && p.requests <= Feed(p, c).requests
    decreases |p.line| + 1, 1, 1
  {
    hide FeedAll, FeedRequestLine, Trim, Upper, IndexOf, ParseNumber, EncodingRefused, Lookup;
    if p.status == Running && p.phase == AwaitingClientRequest {
      RequestLineBearing(p, c, h, n);
    }
  }

  lemma {:induction false} RequestLineBearing(p: Parser, c: char, h: seq<Field>, n: nat)
    requires Bearing(p, h, n) && p.status == Running && p.phase == AwaitingClientRequest
    ensures Bearing(FeedRequestLine(p, c), h, n) && p.requests <= FeedRequestLine(p, c).requests
    decreases |p.line| + 1, 1, 0
  {
    hide ReadRequestLine, ToAction, FeedAll;
    var line := p.line + [c];
    if EndsWithCRLF(line) {
      AllBearing(OnRequestLine(p.(line := ""), line), line[ReadRequestLine(line).next..], h, n);
    }
  }

  lemma {:induction false} AllBearing(p: Parser, s: string, h: seq<Field>, n: nat)
    requires Bearing(p, h, n)
    ensures Bearing(FeedAll(p, s), h, n) && p.requests <= FeedAll(p, s).requests
    decreases |p.line| + |s|, 2, |s|
  {
    hide Feed, Bearing;
    if s != "" {
      FeedBearing(p, s[0], h, n);
      AllBearing(Feed(p, s[0]), s[1..], h, n);
    }
  }

  // ---- when a printed request comes back --------------------------------------------------------

  function Wanted(host: string, values: seq<FieldEntry>): seq<Field> {
    [Field("HOST", host)] + FieldsOf(values)
  }

  /** Text that the printer does not escape and the parser cannot take for something else. */
  predicate Unambiguous(uri: string, host: string, values: seq<FieldEntry>) {
    IsWord(uri) && !Contains(host, '\n') && forall i :: 0 <= i < |values| ==> Printable(FieldsOf(values)[i])
  }

  lemma CameBackAsParsed(p: Parser, text: string, r: Request)
    requires Idle(p) && FeedAll(p, text).requests == p.requests + [r]
    ensures ParsedRequest(r)
  {
    hide FeedAll, ParsedRequest;
    AllSound(p, text, |p.requests|);
    assert FeedAll(p, text).requests[|p.requests|] == r;
  }

  /** Whatever came back is unambiguous and has nothing to trim or to raise to upper case. */
  lemma CameBackUnambiguous(action: Action, uri: string, host: string, values: seq<FieldEntry>, body: string)
    requires ParsedRequest(Request(action, uri, Wanted(host, values), body))
    ensures Unambiguous(uri, host, values) && Tight(host)
    ensures forall i :: 0 <= i < |values| ==>
              Tight(values[i].name) && Upper(values[i].name) == values[i].name && Tight(values[i].value)
  {
    hide Tight, Upper, IsWord, Contains;
    var w := Wanted(host, values);
    assert Parsed(w[0]) && w[0] == Field("HOST", host);
    forall i | 0 <= i < |values|
      ensures Printable(FieldsOf(values)[i])
      ensures Tight(values[i].name) && Upper(values[i].name) == values[i].name && Tight(values[i].value)
    {
      assert Parsed(w[i + 1]) && w[i + 1] == FieldsOf(values)[i];
    }
  }

  /** Merging unambiguous values leaves them so. */
  lemma {:induction false} MergedPrintable(host: string, values: seq<FieldEntry>)
    requires !Contains(host, '\n') && forall i :: 0 <= i < |values| ==> Printable(FieldsOf(values)[i])
    ensures forall i :: 0 <= i < |Merged(host, values)| ==> Printable(Merged(host, values)[i])
    decreases |values|
  {
    if values != [] {
      var n := |values| - 1;
      MergedLast(host, values);
      hide Merged, Printable, ActiveName;
      var fields := Merged(host, values[..n]);
      assert forall i :: 0 <= i < n ==> FieldsOf(values[..n])[i] == FieldsOf(values)[i];
      MergedPrintable(host, values[..n]);
      assert FieldsOf(values)[n] == Field(values[n].name, values[n].value);
      JoinedPrintable(fields[|fields| - 1], FieldsOf(values)[n]);
    } else {
      HostPrintable(host);
    }
  }

  lemma HostPrintable(host: string)
    requires !Contains(host, '\n')
    ensures Printable(Field("Host", host))
  {
  }

  lemma JoinedPrintable(f: Field, g: Field)
    requires Printable(f) && Printable(g)
    ensures Printable(Field(f.name, f.value + "; " + g.value))
  {
    var value := f.value + "; " + g.value;
    assert forall i :: 0 <= i < |value| ==> value[i] != '\n' by {
      assert forall i :: 0 <= i < |f.value| ==> value[i] == f.value[i] != '\n';
      assert forall i :: |f.value| + 2 <= i < |value| ==> value[i] == g.value[i - |f.value| - 2] != '\n';
    }
  }

  /** Merged entries do not come back apart. */
  lemma MergedStays(p: Parser, action: Action, uri: string, host: string, values: seq<FieldEntry>, rest: string)
    requires Idle(p) && Unambiguous(uri, host, values) && !OneEach(values)
    ensures var d := FeedAll(p, HeadText(action, uri, Merged(host, values)) + rest);
            |d.requests| > |p.requests| ==> |d.requests[|p.requests|].headers| <= |values|
  {
    var fields, n := Merged(host, values), |p.requests|;
    MergedPrintable(host, values);
    MergedSize(host, values);
    var q := EndOfHeaders(Started(p, action, uri).(headers := ReadFields(fields)));
    assert Bearing(q, ReadFields(fields), n);
    hide FeedAll, EndOfHeaders, IsWord, Printable, Merged, OneEach, HeadText, ReadFields, Bearing;
    FieldsFed(p, action, uri, fields);
    AllBearing(q, rest, ReadFields(fields), n);
    FeedAllSplits(p, HeadText(action, uri, fields), rest);
    BearingHeaders(FeedAll(q, rest), fields, n);
  }

  lemma BearingHeaders(d: Parser, fields: seq<Field>, n: nat)
    requires Bearing(d, ReadFields(fields), n)
    ensures |d.requests| > n ==> |d.requests[n].headers| == |fields|
  {
  }

  lemma CameBackOneEach(p: Parser, action: Action, uri: string, host: string, values: seq<FieldEntry>, rest: string, body: string)
    requires Idle(p) && Unambiguous(uri, host, values)
    requires FeedAll(p, HeadText(action, uri, Merged(host, values)) + rest).requests
             == p.requests + [Request(action, uri, Wanted(host, values), body)]
    ensures OneEach(values)
  {
    hide FeedAll, HeadText, Merged, OneEach, Unambiguous;
    assert |Wanted(host, values)| == 1 + |values|;
    if !OneEach(values) {
      MergedStays(p, action, uri, host, values, rest);
    }
  }

  lemma PrintedParses(p: Parser, action: Action, uri: string, host: string, values: seq<FieldEntry>, body: Body)
    requires Idle(p) && Framed(Wanted(host, values), body) && CodingKnown(Wanted(host, values))
    requires Restorable(host, values) && Unambiguous(uri, host, values)
    ensures var d := FeedAll(p, HeadText(action, uri, Merged(host, values)) + BodyText(body));
            Idle(d) && d.requests == p.requests + [Request(action, uri, Wanted(host, values), BodyContent(body))]
  {
    hide FeedAll, Tight, Trim, Upper, Lookup, IsWord, Framed, EncodingRefused, CodingKnown, HeadText, Printable;
    var r := Printed(action, uri, host, values, body);
    MergedIff(host, values);
    assert r.host == host && r.fields == FieldsOf(values);
    HeadersRestoredIff(action, uri, host, values, body);
    assert [Field("Host", r.host)] + r.fields == Merged(host, values);
    RequestFed(p, r);
  }

  /** What the header printer prints, and a body announced by the headers, comes back as the same method,
      URI, header map (with the host in front) and body iff the URI is one word, the host and the values
      hold no line feed and the names no colon or line feed, no name follows itself, names are upper case,
      and nothing can be trimmed. */
  lemma PrintedParsesIff(p: Parser, action: Action, uri: string, host: string, values: seq<FieldEntry>, body: Body)
    requires Idle(p) && Framed(Wanted(host, values), body) && CodingKnown(Wanted(host, values))
    ensures FeedAll(p, HeadText(action, uri, Merged(host, values)) + BodyText(body)).requests
            == p.requests + [Request(action, uri, Wanted(host, values), BodyContent(body))]
            <==> Restorable(host, values) && Unambiguous(uri, host, values)
  {
    hide FeedAll, HeadText, Merged, BodyText, Framed, EncodingRefused, CodingKnown, OneEach, Wanted, Tight, Upper, Unambiguous, ParsedRequest;
    var text, r := HeadText(action, uri, Merged(host, values)) + BodyText(body), Request(action, uri, Wanted(host, values), BodyContent(body));
    if FeedAll(p, text).requests == p.requests + [r] {
      CameBackAsParsed(p, text, r);
      CameBackUnambiguous(action, uri, host, values, BodyContent(body));
      CameBackOneEach(p, action, uri, host, values, BodyText(body), BodyContent(body));
    }
    if Restorable(host, values) && Unambiguous(uri, host, values) {
      PrintedParses(p, action, uri, host, values, body);
    }
  }

  lemma {:induction false} LookupBehind(first: Field, fields: seq<Field>, name: string)
    requires first.name != name
    ensures Lookup([first] + fields, name) == Lookup(fields, name)
  {
    assert ([first] + fields)[1..] == fields;
  }

  /** A request with a decimal Content-Length, printed and parsed: the same method, URI, header map and body. */
  lemma SizedRequestParses(p: Parser, action: Action, uri: string, host: string, values: seq<FieldEntry>, content: string)
    requires Idle(p) && |content| < TWO_TO_THE_64
    requires Restorable(host, values) && Unambiguous(uri, host, values) && CodingKnown(FieldsOf(values))
    requires Lookup(FieldsOf(values), "CONTENT-LENGTH") == Some(Digits(|content|, 10))
    ensures var d := FeedAll(p, HeadText(action, uri, Merged(host, values)) + content);
            Idle(d) && d.requests == p.requests + [Request(action, uri, Wanted(host, values), content)]
  {
    hide FeedAll, Restorable, Unambiguous, Lookup, HeadText;
    LookupBehind(Field("HOST", host), FieldsOf(values), "CONTENT-LENGTH");
    LookupBehind(Field("HOST", host), FieldsOf(values), "CONTENT-ENCODING");
    LookupBehind(Field("HOST", host), FieldsOf(values), "TRANSFER-ENCODING");
    PrintedSizes(|content|);
    PrintedParses(p, action, uri, host, values, Sized(content));
  }

  // ---- pipelines --------------------------------------------------------------------------------

  function AllText(rs: seq<WireRequest>): string {
    if rs == [] then "" else RequestText(rs[0]) + AllText(rs[1..])
  }

  function AllRequests(rs: seq<WireRequest>): seq<Request> {
    if rs == [] then [] else [RequestOf(rs[0])] + AllRequests(rs[1..])
  }

  lemma FirstOfAll(rs: seq<WireRequest>)
    ensures if rs == [] then AllText(rs) == "" && AllRequests(rs) == []
            else AllText(rs) == RequestText(rs[0]) + AllText(rs[1..]) && AllRequests(rs) == [RequestOf(rs[0])] + AllRequests(rs[1..])
  {
  }

  /** Parsing inverts printing for any pipeline of requests: each takes exactly its own bytes. */
  lemma {:induction false} RoundTrip(p: Parser, rs: seq<WireRequest>)
    requires Idle(p) && forall i :: 0 <= i < |rs| ==> WellFormed(rs[i])
    ensures var d := FeedAll(p, AllText(rs));
            Idle(d) && d.requests == p.requests + AllRequests(rs)
    decreases |rs|
  {
    hide FeedAll, WellFormed, AllText, AllRequests, RequestText, RequestOf;
    FirstOfAll(rs);
    if rs == [] {
      HttpEndpoint.FeedNothing(p);
      assert p.requests + [] == p.requests;
    } else {
      RequestFed(p, rs[0]);
      var q := FeedAll(p, RequestText(rs[0]));
      RoundTrip(q, rs[1..]);
      FeedAllSplits(p, RequestText(rs[0]), AllText(rs[1..]));
      assert p.requests + [RequestOf(rs[0])] + AllRequests(rs[1..]) == p.requests + ([RequestOf(rs[0])] + AllRequests(rs[1..]));
    }
  }

  /** The endpoint dispatches the requests of a pipeline, whatever reads it arrives in. */
  method ReadRequests(endpoint: HttpEndpoint.HTTPLiveEndpoint, chunks: seq<string>, ghost rs: seq<WireRequest>)
    requires endpoint.Valid() && endpoint.received == ""
    requires forall i :: 0 <= i < |rs| ==> WellFormed(rs[i])
    requires Concat(chunks) == AllText(rs)
    modifies endpoint
    ensures endpoint.dispatched == AllRequests(rs) && endpoint.status == Running
  {
    hide FeedAll, WellFormed;
    RoundTrip(START, rs);
    endpoint.ReadAll(chunks);
    assert [] + AllRequests(rs) == AllRequests(rs);
  }
}
