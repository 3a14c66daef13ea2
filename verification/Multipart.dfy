/** Multipart payloads (section 5.1.1 of RFC 2046): printing form fields, and the parser that finds its
    way from boundary to boundary.
 */
module Multipart {
  import opened FieldMap
  import opened HttpText
  import opened Wrappers

  // ---- searching --------------------------------------------------------------------------------

  predicate OccursAt(s: string, p: string, i: nat) {
    i + |p| <= |s| && s[i..i + |p|] == p
  }

  /** The first occurrence of `p` from a position on. */
  function Find(s: string, p: string, pos: nat): (r: Option<nat>)
    ensures r.Some? ==> pos <= r.value && OccursAt(s, p, r.value)
    decreases |s| - pos
  {
    if pos + |p| > |s| then None
    else if OccursAt(s, p, pos) then Some(pos)
    else if pos == |s| then None
    else Find(s, p, pos + 1)
  }

  /** Behind `a`, `p` occurs for the first time. */
  ghost predicate FirstBehind(a: string, p: string) {
    forall j :: 0 <= j < |a| ==> !OccursAt(a + p, p, j)
  }

  lemma {:induction false} FindIs(s: string, p: string, pos: nat, k: nat)
    requires pos <= k && OccursAt(s, p, k) && forall j :: pos <= j < k ==> !OccursAt(s, p, j)
    ensures Find(s, p, pos) == Some(k)
    decreases k - pos
  {
    if pos < k {
      FindIs(s, p, pos + 1, k);
    }
  }

  lemma FindBehind(s: string, p: string, pos: nat, a: string, rest: string)
    requires pos <= |s| && s[pos..] == a + p + rest && FirstBehind(a, p)
    ensures Find(s, p, pos) == Some(pos + |a|) && s[pos + |a| + |p|..] == rest && s[pos..pos + |a|] == a
  {
    var k := pos + |a|;
    assert s[k..k + |p|] == s[pos..][|a|..|a| + |p|] == p;
    forall j | pos <= j < k
      ensures !OccursAt(s, p, j)
    {
      if j + |p| <= |s| {
        assert !OccursAt(a + p, p, j - pos);
        assert (a + p)[j - pos..j - pos + |p|] == s[pos..][j - pos..j - pos + |p|] == s[j..j + |p|];
      }
    }
    FindIs(s, p, pos, k);
    assert s[k + |p|..] == s[pos..][|a| + |p|..] == rest;
    assert s[pos..k] == s[pos..][..|a|] == a;
  }

  /** Text without the first character of `p` cannot hide an occurrence. */
  lemma FirstByChar(a: string, p: string)
    requires p != "" && forall j :: 0 <= j < |a| ==> a[j] != p[0]
    ensures FirstBehind(a, p)
  {
    forall j | 0 <= j < |a|
      ensures !OccursAt(a + p, p, j)
    {
      assert (a + p)[j] == a[j];
      if j + |p| <= |a + p| {
        assert (a + p)[j..j + |p|][0] == (a + p)[j];
      }
    }
  }

  // ---- printing ---------------------------------------------------------------------------------

  const DISPOSITION := "Content-Disposition: form-data; name=\""

  function PartText(boundary: string, e: Entry): string {
    "--" + boundary + "\r\n" + DISPOSITION + e.name + "\"\r\n\r\n" + e.value + "\r\n"
  }

  function PartsText(boundary: string, fields: FieldValueMap): string {
    if fields == [] then "" else PartText(boundary, fields[0]) + PartsText(boundary, fields[1..])
  }

  function PayloadText(boundary: string, fields: FieldValueMap): string {
    PartsText(boundary, fields) + "--" + boundary + "--\r\n"
  }

  /** A file to send, with what was read from it. */
  datatype Upload = Upload(name: string, filename: string, content: string)

  function FilePartText(boundary: string, u: Upload): string {
    "--" + boundary + "\r\n" + DISPOSITION + u.name + "\"; filename=\"" + u.filename + "\"\r\n"
    + "Content-Type: application/octet-stream\r\n\r\n" + u.content + "\r\n"
  }

  function FilesText(boundary: string, uploads: seq<Upload>): string {
    if uploads == [] then "" else FilePartText(boundary, uploads[0]) + FilesText(boundary, uploads[1..])
  }

  /** A payload of form fields and files. */
  function WholeText(boundary: string, fields: FieldValueMap, uploads: seq<Upload>): string {
    PartsText(boundary, fields) + FilesText(boundary, uploads) + "--" + boundary + "--\r\n"
  }

  method EncodeToString(boundary: string, formFields: FieldValueMap, uploads: seq<Upload>) returns (payload: string)
    ensures payload == WholeText(boundary, formFields, uploads)
    ensures uploads == [] ==> payload == PayloadText(boundary, formFields)
  {
    hide PartText, FilePartText;
    payload := "";
    assert formFields[0..] == formFields && uploads[0..] == uploads;
    for i := 0 to |formFields|
      invariant payload + PartsText(boundary, formFields[i..]) == PartsText(boundary, formFields)
    {
      var entry := formFields[i];
      assert formFields[i..][0] == entry && formFields[i..][1..] == formFields[i + 1..];
      ghost var before := payload;
      payload := payload + "--" + boundary + "\r\n";
      payload := payload + DISPOSITION + entry.name + "\"\r\n\r\n";
      payload := payload + entry.value + "\r\n";
      PartAppended(before, boundary, entry);
    }
    assert formFields[|formFields|..] == [] && payload == PartsText(boundary, formFields);
    for i := 0 to |uploads|
      invariant payload + FilesText(boundary, uploads[i..]) == PartsText(boundary, formFields) + FilesText(boundary, uploads)
    {
      var upload := uploads[i];
      assert uploads[i..][0] == upload && uploads[i..][1..] == uploads[i + 1..];
      ghost var before := payload;
      payload := payload + "--" + boundary + "\r\n";
      payload := payload + DISPOSITION + upload.name + "\"; filename=\"" + upload.filename + "\"\r\n";
      payload := payload + "Content-Type: application/octet-stream\r\n\r\n";
      payload := payload + upload.content + "\r\n";
      FilePartAppended(before, boundary, upload);
    }
    assert uploads[|uploads|..] == [];
    payload := payload + "--" + boundary + "--\r\n";
    NoFilesText(boundary, formFields);
  }

  lemma NoFilesText(boundary: string, fields: FieldValueMap)
    ensures WholeText(boundary, fields, []) == PayloadText(boundary, fields)
  {
    assert PartsText(boundary, fields) + "" == PartsText(boundary, fields);
  }

  lemma FilePartAppended(before: string, boundary: string, u: Upload)
    ensures before + "--" + boundary + "\r\n" + DISPOSITION + u.name + "\"; filename=\"" + u.filename + "\"\r\n"
            + "Content-Type: application/octet-stream\r\n\r\n" + u.content + "\r\n"
            == before + FilePartText(boundary, u)
  {
    var header, mid, named := "--" + boundary + "\r\n", "\"; filename=\"", DISPOSITION + u.name;
    var typed := "Content-Type: application/octet-stream\r\n\r\n";
    assert before + "--" + boundary + "\r\n" == before + header;
    assert before + header + DISPOSITION + u.name == before + (header + named) && header + DISPOSITION + u.name == header + named;
    Appended(before, header + named, mid, u.filename, "\"\r\n", typed, u.content);
  }

  lemma Appended(before: string, a: string, b: string, c: string, d: string, e: string, f: string)
    ensures before + a + b + c + d + e + f + "\r\n" == before + (a + b + c + d + e + f + "\r\n")
  {
  }

  lemma PartAppended(before: string, boundary: string, e: Entry)
    ensures before + "--" + boundary + "\r\n" + DISPOSITION + e.name + "\"\r\n\r\n" + e.value + "\r\n"
            == before + PartText(boundary, e)
  {
    var header := "--" + boundary + "\r\n";
    assert before + "--" + boundary + "\r\n" == before + header;
    var named := DISPOSITION + e.name + "\"\r\n\r\n";
    assert before + header + DISPOSITION + e.name + "\"\r\n\r\n" == before + (header + named);
    assert header + DISPOSITION + e.name + "\"\r\n\r\n" == header + named;
    assert before + (header + named) + e.value + "\r\n" == before + (header + named + e.value + "\r\n");
  }

  // ---- parsing ----------------------------------------------------------------------------------

  datatype File = File(name: string, content: string)

  /** `MissingDisposition` is the parser's own error; `OutOfRange` the exception it dies of when the
      headers of a part do not end. */
  datatype Decoded =
    | Fields(formFields: FieldValueMap, files: seq<File>)
    | MissingDisposition
    | OutOfRange

  const CONTENT_DISPOSITION := "CONTENT-DISPOSITION"

  /** The disposition that a header line gives, or the one before. */
  function LineDisposition(line: string, before: Option<string>): Option<string> {
    var colon := IndexOf(line, ':');
    if colon < |line| && Upper(line[..colon]) == CONTENT_DISPOSITION then Some(TrimLeft(line[colon + 1..])) else before
  }

  /** The headers of a part: the last disposition among them, and where they end. */
  function Headers(payload: string, pos: nat, disposition: Option<string>): (Option<string>, nat)
    decreases |payload| - pos
  {
    var lineEnd := Find(payload, "\r\n", pos);
    if lineEnd == None || lineEnd.value == pos then (disposition, pos + 2)
    else Headers(payload, lineEnd.value + 2, LineDisposition(payload[pos..lineEnd.value], disposition))
  }

  /** What stands between a key and the next quote. */
  function Quoted(disposition: string, key: string): string {
    match Find(disposition, key, 0)
    case None => ""
    case Some(k) =>
      (match Find(disposition, "\"", k + |key|)
       case None => ""
       case Some(end) => disposition[k + |key|..end])
  }

  function WithoutCRLF(content: string): string {
    if EndsWithCRLF(content) then content[..|content| - 2] else content
  }

  /** The end of a part's content and where the search for the next boundary begins.  When there is no
      room for a line end before that boundary, the length wraps and the content runs to the end. */
  function ContentEnd(payload: string, boundary: string, pos: nat): (r: (nat, nat))
    requires 2 <= pos <= |payload|
    ensures pos <= r.0 <= |payload| && pos - 2 <= r.1 <= |payload|
  {
    match Find(payload, boundary, pos)
    case None => (|payload|, |payload|)
    case Some(next) => (if next - 2 >= pos then next - 2 else |payload|, next - 2)
  }

  lemma {:induction false} HeadersAdvance(payload: string, pos: nat, disposition: Option<string>)
    ensures Headers(payload, pos, disposition).1 >= pos + 2
    decreases |payload| - pos
  {
    hide LineDisposition, Find;
    var lineEnd := Find(payload, "\r\n", pos);
    if lineEnd.Some? && lineEnd.value != pos {
      HeadersAdvance(payload, lineEnd.value + 2, LineDisposition(payload[pos..lineEnd.value], disposition));
    }
  }

  function SkipCRLF(payload: string, pos: nat): (r: nat)
    ensures pos <= r
  {
    if OccursAt(payload, "\r\n", pos) then pos + 2 else pos
  }

  /** The parts from `pos` on, added to the fields so far. */
  function DecodeFrom(payload: string, boundary: string, pos: nat, fields: FieldValueMap, files: seq<File>): Decoded
    requires |boundary| >= 2
    decreases |payload| - pos
  {
    var found := Find(payload, boundary, pos);
    if pos >= |payload| || found == None || OccursAt(payload, "--", found.value + |boundary|) then Fields(fields, files)
    else
      var headerPos := SkipCRLF(payload, found.value + |boundary|);
      HeadersAdvance(payload, headerPos, None);
      var (disposition, contentPos) := Headers(payload, headerPos, None);
      if disposition == None then MissingDisposition
      else if contentPos > |payload| then OutOfRange
      else
        var (end, next) := ContentEnd(payload, boundary, contentPos);
        var name := Quoted(disposition.value, "name=\"");
        var content := WithoutCRLF(payload[contentPos..end]);
        if Quoted(disposition.value, "filename=\"") != "" then
          DecodeFrom(payload, boundary, next, fields, files + [File(name, content)])
        else
          DecodeFrom(payload, boundary, next, Insert(fields, Entry(name, content)), files)
  }

  function Decode(payload: string, boundary: string): Decoded {
    DecodeFrom(payload, "--" + boundary, 0, [], [])
  }

  method ParseHeaders(payload: string, start: nat) returns (disposition: Option<string>, pos: nat)
    ensures (disposition, pos) == Headers(payload, start, None)
  {
    hide IndexOf, Upper, TrimLeft, Find;
    disposition, pos := None, start;
    while true
      invariant Headers(payload, pos, disposition) == Headers(payload, start, None)
      decreases |payload| - pos
    {
      var lineEnd := Find(payload, "\r\n", pos);
      if lineEnd == None || lineEnd.value == pos {
        pos := pos + 2;
        return;
      }
      var line := payload[pos..lineEnd.value];
      var colonPos := IndexOf(line, ':');
      if colonPos < |line| && Upper(line[..colonPos]) == CONTENT_DISPOSITION {
        disposition := Some(TrimLeft(line[colonPos + 1..]));
      }
      pos := lineEnd.value + 2;
    }
  }

  method DecodePayload(payload: string, payloadBoundary: string) returns (decoded: Decoded)
    ensures decoded == Decode(payload, payloadBoundary)
  {
    hide Find, Headers, Quoted, WithoutCRLF, Insert, SkipCRLF;
    var boundary := "--" + payloadBoundary;
    var formFields: FieldValueMap, files: seq<File> := [], [];
    var pos := 0;
    while pos < |payload|
      invariant DecodeFrom(payload, boundary, pos, formFields, files) == Decode(payload, payloadBoundary)
      decreases |payload| - pos
    {
      var boundaryPos := Find(payload, boundary, pos);
      if boundaryPos == None {
        break;
      }
      var headerPos := boundaryPos.value + |boundary|;
      if OccursAt(payload, "--", headerPos) {
        break;
      }
      headerPos := SkipCRLF(payload, headerPos);
      var disposition, contentPos := ParseHeaders(payload, headerPos);
      HeadersAdvance(payload, headerPos, None);
      if disposition == None {
        return MissingDisposition;
      }
      if contentPos > |payload| {
        return OutOfRange;
      }
      var (end, next) := ContentEnd(payload, boundary, contentPos);
      var name := Quoted(disposition.value, "name=\"");
      var filename := Quoted(disposition.value, "filename=\"");
      var content := WithoutCRLF(payload[contentPos..end]);
      if filename != "" {
        files := files + [File(name, content)];
      } else {
        formFields := Insert(formFields, Entry(name, content));
      }
      pos := next;
    }
    return Fields(formFields, files);
  }

  // ---- the round trip ---------------------------------------------------------------------------

  predicate Omits(s: string, p: string) {
    forall i :: 0 <= i <= |s| ==> !OccursAt(s, p, i)
  }

  /** A name that a quoted string on one line can hold. */
  predicate NameOk(name: string) {
    !Contains(name, '"') && Omits(name, "\r\n")
  }

  /** Such a name, and a value without the boundary in it. */
  predicate FieldOk(boundary: string, e: Entry) {
    NameOk(e.name) && Omits(e.value, "--" + boundary)
  }

  function DispositionText(name: string): string { "form-data; name=\"" + name + "\"" }

  /** No quote is left behind the name, so there is no file name. */
  lemma NameQuoted(name: string)
    requires !Contains(name, '"')
    ensures Quoted(DispositionText(name), "name=\"") == name
  {
    var text := DispositionText(name);
    var a := "form-data; ";
    FirstByChar(a, "name=\"");
    assert text[0..] == a + "name=\"" + (name + "\"");
    FindBehind(text, "name=\"", 0, a, name + "\"");
    FirstByChar(name, "\"");
    assert text[17..] == name + "\"" + "";
    FindBehind(text, "\"", 17, name, "");
  }

  lemma NoFileName(name: string)
    requires !Contains(name, '"')
    ensures Quoted(DispositionText(name), "filename=\"") == ""
  {
    var text := DispositionText(name);
    var found := Find(text, "filename=\"", 0);
    if found.Some? {
      var key := text[found.value..found.value + 10];
      assert key[0] == text[found.value] && key[9] == text[found.value + 9];
      QuotePlaces(name, found.value + 9);
      assert text[7] == 't';
    }
  }

  lemma QuotePlaces(name: string, i: nat)
    requires !Contains(name, '"') && i < |DispositionText(name)| && DispositionText(name)[i] == '"'
    ensures i == 16 || i == |DispositionText(name)| - 1
  {
    var text := DispositionText(name);
    assert forall j :: 0 <= j < |name| ==> text[17 + j] == name[j];
    assert forall j :: 17 <= j < |text| - 1 ==> text[j] == name[j - 17];
  }

  // ---- one part ---------------------------------------------------------------------------------

  lemma HeaderName()
    ensures Upper("Content-Disposition") == CONTENT_DISPOSITION
  {
    var s := "Content-Disposition";
    assert |Upper(s)| == |CONTENT_DISPOSITION|;
    forall i | 0 <= i < |s|
      ensures Upper(s)[i] == CONTENT_DISPOSITION[i]
    {
    }
  }

  /** The value behind a name that is the disposition's in upper case. */
  lemma NamedLineRead(key: string, text: string, before: Option<string>)
    requires !Contains(key, ':') && Upper(key) == CONTENT_DISPOSITION && text != "" && !IsBlank(text[0])
    ensures LineDisposition(key + [':'] + (" " + text), before) == Some(text)
  {
    hide Upper;
    var line := key + [':'] + (" " + text);
    FirstIndex(key, ':', " " + text);
    assert line[..|key|] == key && line[|key| + 1..] == " " + text;
    assert (" " + text)[1..] == text;
    assert TrimLeft(" " + text) == TrimLeft(text);
  }

  lemma DispositionRead(text: string)
    requires text != "" && !IsBlank(text[0])
    ensures LineDisposition("Content-Disposition: " + text, None) == Some(text)
  {
    hide LineDisposition, Upper;
    var key := "Content-Disposition";
    HeaderName();
    assert !Contains(key, ':');
    NamedLineRead(key, text, None);
    assert "Content-Disposition: " + text == key + [':'] + (" " + text);
  }

  lemma HeaderLineRead(name: string)
    ensures LineDisposition("Content-Disposition: " + DispositionText(name), None) == Some(DispositionText(name))
  {
    hide LineDisposition;
    assert DispositionText(name)[0] == 'f';
    DispositionRead(DispositionText(name));
  }

  /** The header line holds no line end, nor half of one at its end. */
  lemma HeaderLineFirst(name: string)
    requires Omits(name, "\r\n")
    ensures FirstBehind("Content-Disposition: " + DispositionText(name), "\r\n")
  {
    var start := "Content-Disposition: form-data; name=\"";
    var line := "Content-Disposition: " + DispositionText(name);
    var s := line + "\r\n";
    assert line == start + name + "\"";
    assert forall j :: 0 <= j < |start| ==> start[j] != '\r';
    forall j | 0 <= j < |line|
      ensures !OccursAt(s, "\r\n", j)
    {
      CRLFAt(s, j);
      if j < |start| {
        assert s[j] == start[j];
      } else if j < |start| + |name| {
        var i := j - |start|;
        assert s[j] == name[i] && s[j + 1] == if i + 1 < |name| then name[i + 1] else '"';
        CRLFAt(name, i);
      }
    }
  }

  lemma CRLFAt(s: string, j: nat)
    ensures OccursAt(s, "\r\n", j) <==> j + 1 < |s| && s[j] == '\r' && s[j + 1] == '\n'
  {
    if j + 1 < |s| {
      assert s[j..j + 2] == [s[j], s[j + 1]];
      assert "\r\n" == ['\r', '\n'];
    }
  }

  lemma HeadersRead(payload: string, pos: nat, name: string, rest: string)
    requires Omits(name, "\r\n") && pos <= |payload|
    requires payload[pos..] == "Content-Disposition: " + DispositionText(name) + "\r\n" + ("\r\n" + rest)
    ensures var (disposition, contentPos) := Headers(payload, pos, None);
            disposition == Some(DispositionText(name)) && contentPos <= |payload| && payload[contentPos..] == rest
  {
    hide LineDisposition, Find, DispositionText;
    var line := "Content-Disposition: " + DispositionText(name);
    HeaderLineFirst(name);
    FindBehind(payload, "\r\n", pos, line, "\r\n" + rest);
    HeaderLineRead(name);
    var next := pos + |line| + 2;
    assert payload[next..] == "" + "\r\n" + rest;
    FindBehind(payload, "\r\n", next, "", rest);
  }

  lemma ValueFirst(value: string, boundary: string)
    requires Omits(value, boundary) && boundary != "" && boundary[0] == '-' && !Contains(boundary, '\r')
    ensures FirstBehind(value + "\r\n", boundary)
  {
    var s := value + "\r\n" + boundary;
    forall j | 0 <= j < |value + "\r\n"|
      ensures !OccursAt(s, boundary, j)
    {
      if j + |boundary| <= |value| {
        assert s[j..j + |boundary|] == value[j..j + |boundary|];
        assert !OccursAt(value, boundary, j);
      } else if j + |boundary| <= |s| {
        var k := if j <= |value| then |value| else j;
        assert s[k] == if j <= |value| then '\r' else '\n';
        assert s[j..j + |boundary|][k - j] == s[k];
      }
    }
  }

  /** The rest of a part behind its boundary: the header line, an empty line, and the value. */
  function PartTail(e: Entry, rest: string): string {
    "\r\n" + ("Content-Disposition: " + DispositionText(e.name) + "\r\n" + ("\r\n" + (e.value + "\r\n" + rest)))
  }

  lemma ContentRead(payload: string, boundary: string, pos: nat, value: string, tail: string)
    requires 2 <= pos <= |payload| && payload[pos..] == value + "\r\n" + (boundary + tail)
    requires Omits(value, boundary) && boundary != "" && boundary[0] == '-' && !Contains(boundary, '\r')
    ensures var (end, next) := ContentEnd(payload, boundary, pos);
            payload[pos..end] == value && payload[next..] == "\r\n" + boundary + tail
  {
    hide Find;
    ValueFirst(value, boundary);
    assert payload[pos..] == (value + "\r\n") + boundary + tail;
    FindBehind(payload, boundary, pos, value + "\r\n", tail);
    var end := pos + |value|;
    assert payload[pos..end] == payload[pos..][..|value|] == value;
    assert payload[end..] == payload[pos..][|value|..] == "\r\n" + boundary + tail;
  }

  /** Where the next boundary is, if it stands right here or behind a line end. */
  lemma BoundaryFound(payload: string, boundary: string, pos: nat, lead: string, rest: string)
    requires pos <= |payload| && payload[pos..] == lead + boundary + rest && (lead == "" || lead == "\r\n")
    requires boundary != "" && boundary[0] == '-'
    ensures Find(payload, boundary, pos) == Some(pos + |lead|) && payload[pos + |lead| + |boundary|..] == rest
  {
    FirstByChar(lead, boundary);
    FindBehind(payload, boundary, pos, lead, rest);
  }

  lemma StartsWith(payload: string, pos: nat, p: string, rest: string)
    requires pos <= |payload| && payload[pos..] == p + rest
    ensures OccursAt(payload, p, pos) && payload[pos + |p|..] == rest
  {
    assert payload[pos..pos + |p|] == payload[pos..][..|p|] == p;
    assert payload[pos + |p|..] == payload[pos..][|p|..] == rest;
  }

  /** The front of a part, up to its content, whatever the value is. */
  lemma PartFront(payload: string, boundary: string, pos: nat, lead: string, e: Entry, tail: string,
                  fields: FieldValueMap, files: seq<File>) returns (contentPos: nat)
    requires NameOk(e.name) && !Contains(boundary, '\r') && (lead == "" || lead == "\r\n") && pos <= |payload|
    requires payload[pos..] == lead + ("--" + boundary) + PartTail(e, "--" + boundary + tail)
    ensures 2 <= contentPos <= |payload| && payload[contentPos..] == e.value + "\r\n" + ("--" + boundary + tail)
    ensures var (end, next) := ContentEnd(payload, "--" + boundary, contentPos);
            DecodeFrom(payload, "--" + boundary, pos, fields, files)
            == DecodeFrom(payload, "--" + boundary, next, Insert(fields, Entry(e.name, WithoutCRLF(payload[contentPos..end]))), files)
  {
    hide Find, Headers, Quoted, Insert, DispositionText, ContentEnd, OccursAt, WithoutCRLF;
    var b := "--" + boundary;
    var rest := e.value + "\r\n" + (b + tail);
    var afterBoundary := pos + |lead| + |b|;
    BoundaryFound(payload, b, pos, lead, PartTail(e, b + tail));
    var headers := "Content-Disposition: " + DispositionText(e.name) + "\r\n" + ("\r\n" + rest);
    StartsWith(payload, afterBoundary, "\r\n", headers);
    NotDashes(payload, afterBoundary);
    HeadersRead(payload, afterBoundary + 2, e.name, rest);
    HeadersAdvance(payload, afterBoundary + 2, None);
    contentPos := Headers(payload, afterBoundary + 2, None).1;
    NameQuoted(e.name);
    NoFileName(e.name);
  }

  /** One part is read as its field, and the search goes on at the line end before the next boundary. */
  lemma PartDecodes(payload: string, boundary: string, pos: nat, lead: string, e: Entry, tail: string,
                    fields: FieldValueMap, files: seq<File>) returns (next: nat)
    requires FieldOk(boundary, e) && !Contains(boundary, '\r') && (lead == "" || lead == "\r\n") && pos <= |payload|
    requires payload[pos..] == lead + ("--" + boundary) + PartTail(e, "--" + boundary + tail)
    ensures next <= |payload| && payload[next..] == "\r\n" + ("--" + boundary) + tail
    ensures DecodeFrom(payload, "--" + boundary, pos, fields, files)
            == DecodeFrom(payload, "--" + boundary, next, Insert(fields, Entry(e.name, WithoutCRLF(e.value))), files)
  {
    hide DecodeFrom, Insert, ContentEnd, Omits, NameOk, PartTail;
    var b := "--" + boundary;
    assert !Contains(b, '\r');
    var contentPos := PartFront(payload, boundary, pos, lead, e, tail, fields, files);
    ContentRead(payload, b, contentPos, e.value, tail);
    next := ContentEnd(payload, b, contentPos).1;
  }

  lemma NotDashes(payload: string, pos: nat)
    requires OccursAt(payload, "\r\n", pos)
    ensures !OccursAt(payload, "--", pos)
  {
    CRLFAt(payload, pos);
    if pos + 2 <= |payload| {
      assert payload[pos..pos + 2][0] == payload[pos];
    }
  }

  // ---- whole payloads ---------------------------------------------------------------------------

  /** What the values come back as. */
  function Stripped(m: FieldValueMap): FieldValueMap {
    seq(|m|, i requires 0 <= i < |m| => Entry(m[i].name, WithoutCRLF(m[i].value)))
  }

  /** The rest of a payload behind a boundary; `end` is what follows the last boundary of the form fields. */
  function Behind(boundary: string, m: FieldValueMap, end: string): string {
    if m == [] then end else PartTail(m[0], "--" + boundary + Behind(boundary, m[1..], end))
  }

  lemma {:induction false} PartsAreTails(boundary: string, m: FieldValueMap, end: string)
    ensures PartsText(boundary, m) + ("--" + boundary + end) == "--" + boundary + Behind(boundary, m, end)
    decreases |m|
  {
    hide PartText, PartTail;
    var last := "--" + boundary + end;
    if m == [] {
      assert "" + last == last;
    } else {
      var first, rest := PartText(boundary, m[0]), PartsText(boundary, m[1..]);
      PartsAreTails(boundary, m[1..], end);
      PartIsTail(boundary, m[0], rest + last);
      assert first + rest + last == first + (rest + last);
    }
  }

  lemma PartIsTail(boundary: string, e: Entry, rest: string)
    ensures PartText(boundary, e) + rest == "--" + boundary + PartTail(e, rest)
  {
    var line := "Content-Disposition: " + DispositionText(e.name);
    assert DISPOSITION + e.name + "\"" == line;
    var b := "--" + boundary;
    assert "\"\r\n\r\n" == "\"" + "\r\n" + "\r\n";
    assert PartText(boundary, e) == b + "\r\n" + (DISPOSITION + e.name + "\"") + "\r\n" + "\r\n" + e.value + "\r\n";
    Regrouped(b, line, e.value, rest);
  }

  lemma Regrouped(b: string, line: string, value: string, rest: string)
    ensures b + "\r\n" + line + "\r\n" + "\r\n" + value + "\r\n" + rest
            == b + ("\r\n" + (line + "\r\n" + ("\r\n" + (value + "\r\n" + rest))))
  {
  }

  predicate AllOk(boundary: string, m: FieldValueMap) {
    forall i :: 0 <= i < |m| ==> FieldOk(boundary, m[i])
  }

  lemma {:induction false} PartsDecode(payload: string, boundary: string, pos: nat, lead: string, done: FieldValueMap, m: FieldValueMap,
                                       end: string) returns (next: nat, line: string)
    requires !Contains(boundary, '\r') && (lead == "" || lead == "\r\n") && pos <= |payload| && AllOk(boundary, m)
    requires payload[pos..] == lead + ("--" + boundary) + Behind(boundary, m, end) && Sorted(done + Stripped(m))
    ensures next <= |payload| && (line == "" || line == "\r\n") && payload[next..] == line + ("--" + boundary) + end
    ensures DecodeFrom(payload, "--" + boundary, pos, done, []) == DecodeFrom(payload, "--" + boundary, next, done + Stripped(m), [])
    decreases |m|
  {
    hide DecodeFrom, PartTail, FieldOk, WithoutCRLF, Less, Insert, Sorted;
    if m == [] {
      next, line := pos, lead;
      assert done + Stripped(m) == done;
    } else {
      var e := Entry(m[0].name, WithoutCRLF(m[0].value));
      next := PartDecodes(payload, boundary, pos, lead, m[0], Behind(boundary, m[1..], end), done, []);
      assert Stripped(m) == [e] + Stripped(m[1..]);
      assert done + [e] + Stripped(m[1..]) == done + Stripped(m);
      GoesLast(done, e, Stripped(m[1..]));
      next, line := PartsDecode(payload, boundary, next, "\r\n", done + [e], m[1..], end);
    }
  }

  lemma GoesLast(done: FieldValueMap, e: Entry, rest: FieldValueMap)
    requires Sorted(done + [e] + rest)
    ensures Insert(done, e) == done + [e]
  {
    hide Less, Insert;
    var all := done + [e] + rest;
    forall i | 0 <= i < |done|
      ensures !Less(e.name, done[i].name)
    {
      assert all[i] == done[i] && all[|done|] == e;
    }
    InsertLast(done, e);
  }

  lemma EndDecodes(payload: string, boundary: string, pos: nat, lead: string, done: FieldValueMap, files: seq<File>)
    requires (lead == "" || lead == "\r\n") && pos <= |payload| && |boundary| >= 2 && boundary[0] == '-'
    requires payload[pos..] == lead + boundary + "--\r\n"
    ensures DecodeFrom(payload, boundary, pos, done, files) == Fields(done, files)
  {
    hide Find;
    BoundaryFound(payload, boundary, pos, lead, "--\r\n");
    assert "--\r\n" == "--" + "\r\n";
    StartsWith(payload, pos + |lead| + |boundary|, "--", "\r\n");
  }

  lemma StrippedSorted(m: FieldValueMap)
    requires Sorted(m)
    ensures Sorted(Stripped(m))
  {
    hide Less, WithoutCRLF;
    forall i, j | 0 <= i < j < |m|
      ensures !Less(Stripped(m)[j].name, Stripped(m)[i].name)
    {
      assert !Less(m[j].name, m[i].name);
    }
  }

  // ---- file parts -------------------------------------------------------------------------------

  /** A file that its part can describe: a name as for a field, a file name on one line that begins with no
      quote, and content without the boundary in it. */
  predicate UploadOk(boundary: string, u: Upload) {
    && NameOk(u.name) && u.filename != "" && u.filename[0] != '"' && Omits(u.filename, "\r\n")
    && Omits(u.content, "--" + boundary)
  }

  function FileDisposition(u: Upload): string { "form-data; name=\"" + u.name + "\"; filename=\"" + u.filename + "\"" }

  lemma FileNameQuoted(u: Upload)
    requires !Contains(u.name, '"')
    ensures Quoted(FileDisposition(u), "name=\"") == u.name
  {
    var text := FileDisposition(u);
    var a := "form-data; ";
    var rest := "; filename=\"" + u.filename + "\"";
    FirstByChar(a, "name=\"");
    assert "\"; filename=\"" == "\"" + "; filename=\"";
    assert text == a + "name=\"" + (u.name + "\"" + rest);
    assert text[0..] == text;
    FindBehind(text, "name=\"", 0, a, u.name + "\"" + rest);
    FirstByChar(u.name, "\"");
    FindBehind(text, "\"", 17, u.name, rest);
  }

  /** The characters of the disposition, up to the file name. */
  lemma FilePlaces(u: Upload)
    ensures var (text, n, mid) := (FileDisposition(u), |u.name|, "\"; filename=\"");
            && |text| == 31 + n + |u.filename| && text[7] == 't' && text[|text| - 1] == '"'
            && (forall j :: 0 <= j < 17 ==> text[j] == "form-data; name=\""[j])
            && (forall j :: 17 <= j < 17 + n ==> text[j] == u.name[j - 17])
            && (forall j :: 17 + n <= j < 30 + n ==> text[j] == mid[j - 17 - n])
            && (u.filename != "" ==> text[30 + n] == u.filename[0])
  {
  }

  /** Where quotes can stand up to the file name. */
  lemma FileQuotePlaces(u: Upload, i: nat)
    requires !Contains(u.name, '"') && i < 30 + |u.name| && i < |FileDisposition(u)| && FileDisposition(u)[i] == '"'
    ensures i == 16 || i == 17 + |u.name| || i == 29 + |u.name|
  {
    FilePlaces(u);
    hide FileDisposition;
  }

  /** The key of the file name stands in front of it. */
  lemma FileKeyOccurs(u: Upload)
    ensures OccursAt(FileDisposition(u), "filename=\"", 20 + |u.name|)
  {
    var front := "form-data; name=\"" + u.name + "\"; ";
    assert "\"; filename=\"" == "\"; " + "filename=\"";
    assert FileDisposition(u) == front + "filename=\"" + (u.filename + "\"");
    InTheMiddle(front, "filename=\"", u.filename + "\"");
  }

  lemma InTheMiddle(a: string, p: string, b: string)
    ensures OccursAt(a + p + b, p, |a|)
  {
    assert (a + p + b)[|a|..|a| + |p|] == p;
  }

  lemma LastQuote(text: string, c: char)
    requires text != "" && text[|text| - 1] == c
    ensures OccursAt(text, [c], |text| - 1)
  {
    assert text[|text| - 1..|text|] == [c];
  }

  /** Wherever the key of the file name is found first, no quote follows it at once. */
  lemma FileKeyFound(u: Upload, found: nat)
    requires !Contains(u.name, '"') && u.filename != "" && u.filename[0] != '"'
    requires found <= 20 + |u.name| && OccursAt(FileDisposition(u), "filename=\"", found)
    ensures found + 10 < |FileDisposition(u)| && FileDisposition(u)[found + 10] != '"'
  {
    var text := FileDisposition(u);
    FilePlaces(u);
    hide FileDisposition;
    var key := text[found..found + 10];
    assert key[9] == text[found + 9] && key[0] == text[found];
    FileQuotePlaces(u, found + 9);
  }

  /** A file name is found, though it is not the right one if the name of the field ends in "filename=". */
  lemma FileNameFound(u: Upload)
    requires !Contains(u.name, '"') && u.filename != "" && u.filename[0] != '"'
    ensures Quoted(FileDisposition(u), "filename=\"") != ""
  {
    var text, key := FileDisposition(u), "filename=\"";
    FilePlaces(u);
    FileKeyOccurs(u);
    hide FileDisposition, Find, Quoted, Contains;
    FindExists(text, key, 0, 20 + |u.name|);
    var found := Find(text, key, 0).value;
    FileKeyFound(u, found);
    var from := found + 10;
    LastQuote(text, '"');
    FindExists(text, "\"", from, |text| - 1);
    assert text[from..from + 1][0] == text[from];
    QuotedFrom(text, key, found);
  }

  lemma QuotedFrom(text: string, key: string, found: nat)
    requires Find(text, key, 0) == Some(found) && Find(text, "\"", found + |key|).Some?
    requires Find(text, "\"", found + |key|).value != found + |key|
    ensures Quoted(text, key) != ""
  {
    hide Find;
  }

  /** A line end is found behind a line that holds none and does not end in half of one. */
  lemma LineFirst(line: string)
    requires Omits(line, "\r\n") && (line == "" || line[|line| - 1] != '\r')
    ensures FirstBehind(line, "\r\n")
  {
    forall j | 0 <= j < |line|
      ensures !OccursAt(line + "\r\n", "\r\n", j)
    {
      CRLFAt(line + "\r\n", j);
      CRLFAt(line, j);
    }
  }

  lemma OmitsJoined(a: string, b: string)
    requires Omits(a, "\r\n") && Omits(b, "\r\n")
    requires a == "" || b == "" || a[|a| - 1] != '\r' || b[0] != '\n'
    ensures Omits(a + b, "\r\n")
  {
    forall j | 0 <= j <= |a + b|
      ensures !OccursAt(a + b, "\r\n", j)
    {
      CRLFAt(a + b, j);
      if j < |a| {
        CRLFAt(a, j);
      } else {
        CRLFAt(b, j - |a|);
      }
    }
  }

  lemma NoReturnOmits(s: string)
    requires !Contains(s, '\r')
    ensures Omits(s, "\r\n")
  {
    forall j | 0 <= j <= |s|
      ensures !OccursAt(s, "\r\n", j)
    {
      CRLFAt(s, j);
    }
  }

  lemma FileLineFirst(u: Upload)
    requires Omits(u.name, "\r\n") && Omits(u.filename, "\r\n") && u.filename != ""
    ensures FirstBehind("Content-Disposition: " + FileDisposition(u), "\r\n")
  {
    var mid := "\"; filename=\"";
    NoReturnOmits(DISPOSITION);
    NoReturnOmits(mid);
    NoReturnOmits("\"");
    FileLine(u);
    AllJoined(DISPOSITION, u.name, mid, u.filename, "\"");
    hide Omits, FileDisposition;
    LineFirst(DISPOSITION + (u.name + (mid + u.filename + "\"")));
  }

  /** The header line of a file part. */
  lemma FileLine(u: Upload)
    ensures var mid := "\"; filename=\"";
            && "Content-Disposition: " + FileDisposition(u) == DISPOSITION + (u.name + (mid + u.filename + "\""))
            && "Content-Disposition: " + FileDisposition(u) == DISPOSITION + u.name + mid + u.filename + "\""
  {
    var key, front, mid := "Content-Disposition: ", "form-data; name=\"", "\"; filename=\"";
    assert DISPOSITION == key + front;
    LinePieces(key, front, u.name, mid, u.filename, "\"");
  }

  lemma LinePieces(key: string, front: string, name: string, mid: string, filename: string, quote: string)
    ensures key + (front + name + mid + filename + quote) == (key + front) + (name + (mid + filename + quote))
    ensures key + (front + name + mid + filename + quote) == (key + front) + name + mid + filename + quote
  {
  }

  lemma AllJoined(start: string, name: string, mid: string, filename: string, quote: string)
    requires Omits(start, "\r\n") && Omits(name, "\r\n") && Omits(mid, "\r\n") && Omits(filename, "\r\n") && Omits(quote, "\r\n")
    requires start != "" && start[|start| - 1] == '"' && mid != "" && mid[0] == '"' == mid[|mid| - 1] && quote == ['"']
    ensures Omits(start + (name + (mid + filename + quote)), "\r\n")
    ensures var line := start + (name + (mid + filename + quote));
            line[|line| - 1] == '"'
  {
    hide Omits;
    OmitsJoined(mid, filename);
    OmitsJoined(mid + filename, quote);
    OmitsJoined(name, mid + filename + quote);
    OmitsJoined(start, name + (mid + filename + quote));
  }

  const TYPE_LINE := "Content-Type: application/octet-stream"

  lemma FileLineRead(u: Upload)
    ensures LineDisposition("Content-Disposition: " + FileDisposition(u), None) == Some(FileDisposition(u))
  {
    hide LineDisposition;
    assert FileDisposition(u)[0] == 'f';
    DispositionRead(FileDisposition(u));
  }

  /** A line with a name of another length is not the disposition. */
  lemma OtherLine(key: string, rest: string, before: Option<string>)
    requires !Contains(key, ':') && |key| != 19
    ensures LineDisposition(key + [':'] + rest, before) == before
  {
    FirstIndex(key, ':', rest);
    assert (key + [':'] + rest)[..|key|] == key;
    assert |Upper(key)| == |key|;
  }

  lemma TypeLineRead(before: Option<string>)
    ensures LineDisposition(TYPE_LINE, before) == before
  {
    hide LineDisposition;
    var key := "Content-Type";
    assert TYPE_LINE == key + [':'] + " application/octet-stream";
    OtherLine(key, " application/octet-stream", before);
  }

  lemma FileHeadersRead(payload: string, pos: nat, u: Upload, rest: string)
    requires Omits(u.name, "\r\n") && Omits(u.filename, "\r\n") && u.filename != "" && pos <= |payload|
    requires payload[pos..] == "Content-Disposition: " + FileDisposition(u) + "\r\n" + (TYPE_LINE + "\r\n" + ("\r\n" + rest))
    ensures var (disposition, contentPos) := Headers(payload, pos, None);
            disposition == Some(FileDisposition(u)) && contentPos <= |payload| && payload[contentPos..] == rest
  {
    hide LineDisposition, Find, FileDisposition;
    var line := "Content-Disposition: " + FileDisposition(u);
    FileLineFirst(u);
    FindBehind(payload, "\r\n", pos, line, TYPE_LINE + "\r\n" + ("\r\n" + rest));
    FileLineRead(u);
    TypeLineRead(Some(FileDisposition(u)));
    var second := pos + |line| + 2;
    NoReturnOmits(TYPE_LINE);
    LineFirst(TYPE_LINE);
    FindBehind(payload, "\r\n", second, TYPE_LINE, "\r\n" + rest);
    var third := second + |TYPE_LINE| + 2;
    assert payload[third..] == "" + "\r\n" + rest;
    FindBehind(payload, "\r\n", third, "", rest);
    HeadersTwice(payload, pos, pos + |line|, second + |TYPE_LINE|);
  }

  /** The header lines end at an empty one. */
  lemma HeadersTwice(payload: string, pos: nat, first: nat, second: nat)
    requires pos < first && first + 2 < second <= |payload|
    requires Find(payload, "\r\n", pos) == Some(first) && Find(payload, "\r\n", first + 2) == Some(second)
    requires Find(payload, "\r\n", second + 2) == Some(second + 2)
    ensures Headers(payload, pos, None)
            == (LineDisposition(payload[first + 2..second], LineDisposition(payload[pos..first], None)), second + 4)
  {
    hide LineDisposition, Find;
    var a := LineDisposition(payload[pos..first], None);
    var b := LineDisposition(payload[first + 2..second], a);
    assert Headers(payload, second + 2, b) == (b, second + 4);
    assert Headers(payload, first + 2, a) == Headers(payload, second + 2, b);
  }

  /** The rest of a file part behind its boundary. */
  function FileTail(u: Upload, rest: string): string {
    "\r\n" + ("Content-Disposition: " + FileDisposition(u) + "\r\n"
              + (TYPE_LINE + "\r\n" + ("\r\n" + (u.content + "\r\n" + rest))))
  }

  /** One file part is read as its file. */
  lemma FilePartDecodes(payload: string, boundary: string, pos: nat, lead: string, u: Upload, tail: string,
                        fields: FieldValueMap, files: seq<File>) returns (next: nat)
    requires UploadOk(boundary, u) && !Contains(boundary, '\r') && (lead == "" || lead == "\r\n") && pos <= |payload|
    requires payload[pos..] == lead + ("--" + boundary) + FileTail(u, "--" + boundary + tail)
    ensures next <= |payload| && payload[next..] == "\r\n" + ("--" + boundary) + tail
    ensures DecodeFrom(payload, "--" + boundary, pos, fields, files)
            == DecodeFrom(payload, "--" + boundary, next, fields, files + [File(u.name, WithoutCRLF(u.content))])
  {
    hide Find, Headers, Quoted, Insert, FileDisposition, ContentEnd, OccursAt, WithoutCRLF, Omits;
    var b := "--" + boundary;
    assert !Contains(b, '\r');
    var rest := u.content + "\r\n" + (b + tail);
    var afterBoundary := pos + |lead| + |b|;
    BoundaryFound(payload, b, pos, lead, FileTail(u, b + tail));
    var headers := "Content-Disposition: " + FileDisposition(u) + "\r\n" + (TYPE_LINE + "\r\n" + ("\r\n" + rest));
    StartsWith(payload, afterBoundary, "\r\n", headers);
    NotDashes(payload, afterBoundary);
    FileHeadersRead(payload, afterBoundary + 2, u, rest);
    HeadersAdvance(payload, afterBoundary + 2, None);
    var contentPos := Headers(payload, afterBoundary + 2, None).1;
    FileNameQuoted(u);
    FileNameFound(u);
    ContentRead(payload, b, contentPos, u.content, tail);
    next := ContentEnd(payload, b, contentPos).1;
  }

  // ---- parts that end the decoding --------------------------------------------------------------

  /** The headers of a part begin behind its boundary, and behind a line end if there is one. */
  lemma HeadersBegin(payload: string, b: string, pos: nat, lead: string, sep: string, headers: string)
    requires pos <= |payload| && payload[pos..] == lead + b + (sep + headers) && (lead == "" || lead == "\r\n")
    requires (sep == "" || sep == "\r\n") && b != "" && b[0] == '-'
    requires headers != "" && headers[0] != '-' && headers[0] != '\r'
    ensures var afterBoundary := pos + |lead| + |b|;
            && Find(payload, b, pos) == Some(pos + |lead|) && !OccursAt(payload, "--", afterBoundary)
            && SkipCRLF(payload, afterBoundary) == afterBoundary + |sep| <= |payload|
            && payload[afterBoundary + |sep|..] == headers
  {
    hide Find;
    var afterBoundary := pos + |lead| + |b|;
    BoundaryFound(payload, b, pos, lead, sep + headers);
    if sep == "" {
      assert sep + headers == headers;
      assert payload[afterBoundary] == payload[afterBoundary..][0] == headers[0];
      CRLFAt(payload, afterBoundary);
      NoDashThere(payload, afterBoundary);
    } else {
      StartsWith(payload, afterBoundary, "\r\n", headers);
      NotDashes(payload, afterBoundary);
    }
  }

  lemma NoDashThere(payload: string, pos: nat)
    requires pos < |payload| && payload[pos] != '-'
    ensures !OccursAt(payload, "--", pos)
  {
    if pos + 2 <= |payload| {
      assert payload[pos..pos + 2][0] == payload[pos];
    }
  }

  function HeaderLine(name: string): (line: string)
    ensures line != "" && line[0] == 'C'
  {
    "Content-Disposition: " + DispositionText(name) + "\r\n"
  }

  lemma CutOffRead(payload: string, pos: nat, name: string)
    requires NameOk(name) && pos <= |payload| && payload[pos..] == HeaderLine(name)
    ensures Headers(payload, pos, None) == (Some(DispositionText(name)), |payload| + 2)
  {
    hide Find, LineDisposition, DispositionText, OccursAt;
    var line := "Content-Disposition: " + DispositionText(name);
    HeaderLineFirst(name);
    assert payload[pos..] == line + "\r\n" + "";
    FindBehind(payload, "\r\n", pos, line, "");
    HeaderLineRead(name);
    NotAtEnd(payload);
    assert Headers(payload, |payload|, Some(DispositionText(name))) == (Some(DispositionText(name)), |payload| + 2);
  }

  lemma NotAtEnd(s: string)
    ensures Find(s, "\r\n", |s|) == None
  {
  }

  lemma DecodeStep(payload: string, b: string, pos: nat, found: nat, headerPos: nat, disposition: string, contentPos: nat,
                   fields: FieldValueMap, files: seq<File>)
    requires |b| >= 2 && pos < |payload| && Find(payload, b, pos) == Some(found) && !OccursAt(payload, "--", found + |b|)
    requires SkipCRLF(payload, found + |b|) == headerPos && Headers(payload, headerPos, None) == (Some(disposition), contentPos)
    ensures contentPos >= 2
    ensures DecodeFrom(payload, b, pos, fields, files)
            == if contentPos > |payload| then OutOfRange
               else
                 var (end, next) := ContentEnd(payload, b, contentPos);
                 var content := WithoutCRLF(payload[contentPos..end]);
                 if Quoted(disposition, "filename=\"") != ""
                 then DecodeFrom(payload, b, next, fields, files + [File(Quoted(disposition, "name=\""), content)])
                 else DecodeFrom(payload, b, next, Insert(fields, Entry(Quoted(disposition, "name=\""), content)), files)
  {
    hide Find, Headers, SkipCRLF, OccursAt, Quoted, Insert, ContentEnd, WithoutCRLF;
    HeadersAdvance(payload, headerPos, None);
  }

  /** Decoding dies of a part whose header lines run to the end of the payload. */
  lemma HeadersCutOff(payload: string, boundary: string, pos: nat, lead: string, sep: string, name: string,
                      fields: FieldValueMap, files: seq<File>)
    requires NameOk(name) && pos <= |payload| && (lead == "" || lead == "\r\n") && (sep == "" || sep == "\r\n")
    requires payload[pos..] == lead + ("--" + boundary) + (sep + HeaderLine(name))
    ensures DecodeFrom(payload, "--" + boundary, pos, fields, files) == OutOfRange
  {
    hide *;
    var b := "--" + boundary;
    var headerPos := pos + |lead| + |b| + |sep|;
    HeadersBegin(payload, b, pos, lead, sep, HeaderLine(name));
    CutOffRead(payload, headerPos, name);
    DecodeStep(payload, b, pos, pos + |lead|, headerPos, DispositionText(name), |payload| + 2, fields, files);
  }

  function HeadersOnly(name: string): string { HeaderLine(name) + "\r\n" }

  /** A part whose headers end with the payload is an empty field. */
  lemma NothingBehindHeaders(payload: string, boundary: string, pos: nat, lead: string, sep: string, name: string,
                             fields: FieldValueMap, files: seq<File>)
    requires NameOk(name) && pos <= |payload| && (lead == "" || lead == "\r\n") && (sep == "" || sep == "\r\n")
    requires payload[pos..] == lead + ("--" + boundary) + (sep + HeadersOnly(name))
    ensures DecodeFrom(payload, "--" + boundary, pos, fields, files) == Fields(Insert(fields, Entry(name, "")), files)
  {
    hide *;
    var b := "--" + boundary;
    var headerPos := pos + |lead| + |b| + |sep|;
    NameAlone(name);
    HeadersBegin(payload, b, pos, lead, sep, HeadersOnly(name));
    NothingRead(payload, b, headerPos, name);
    DecodeStep(payload, b, pos, pos + |lead|, headerPos, DispositionText(name), |payload|, fields, files);
    NothingMore(payload, b, Insert(fields, Entry(name, "")), files);
  }

  lemma NameAlone(name: string)
    requires NameOk(name)
    ensures Quoted(DispositionText(name), "name=\"") == name && Quoted(DispositionText(name), "filename=\"") == ""
    ensures HeadersOnly(name) != "" && HeadersOnly(name)[0] == 'C'
  {
    NameQuoted(name);
    NoFileName(name);
  }

  lemma NothingRead(payload: string, b: string, pos: nat, name: string)
    requires NameOk(name) && |b| >= 2 && pos <= |payload| && payload[pos..] == HeadersOnly(name)
    ensures Headers(payload, pos, None) == (Some(DispositionText(name)), |payload|) && |payload| >= 2
    ensures ContentEnd(payload, b, |payload|) == (|payload|, |payload|) && WithoutCRLF(payload[|payload|..|payload|]) == ""
  {
    hide LineDisposition, DispositionText;
    assert HeadersOnly(name) == "Content-Disposition: " + DispositionText(name) + "\r\n" + ("\r\n" + "");
    HeadersRead(payload, pos, name, "");
  }

  lemma NothingMore(payload: string, b: string, fields: FieldValueMap, files: seq<File>)
    requires |b| >= 2
    ensures DecodeFrom(payload, b, |payload|, fields, files) == Fields(fields, files)
  {
  }

  /** A part without a disposition is an error. */
  lemma NoDispositionRefused(payload: string, boundary: string, pos: nat, lead: string, key: string, value: string, rest: string,
                             fields: FieldValueMap, files: seq<File>)
    requires pos <= |payload| && (lead == "" || lead == "\r\n")
    requires key != "" && key[0] != '-' && key[0] != '\r' && !Contains(key, ':') && Upper(key) != "CONTENT-DISPOSITION"
    requires !Contains(key, '\r') && !Contains(value, '\r')
    requires payload[pos..] == lead + ("--" + boundary) + ("\r\n" + (key + [':'] + value + "\r\n" + ("\r\n" + rest)))
    ensures DecodeFrom(payload, "--" + boundary, pos, fields, files) == MissingDisposition
  {
    var line := key + [':'] + value;
    hide Find, Headers, LineDisposition, SkipCRLF, OccursAt, Quoted, Insert, Upper;
    HeadersBegin(payload, "--" + boundary, pos, lead, "\r\n", line + "\r\n" + ("\r\n" + rest));
    var headerPos := pos + |lead| + |"--" + boundary| + 2;
    OtherHeaderRead(payload, headerPos, key, value, rest);
  }

  lemma OtherHeaderRead(payload: string, pos: nat, key: string, value: string, rest: string)
    requires !Contains(key, ':') && Upper(key) != "CONTENT-DISPOSITION" && !Contains(key, '\r') && !Contains(value, '\r')
    requires pos <= |payload| && payload[pos..] == key + [':'] + value + "\r\n" + ("\r\n" + rest)
    ensures Headers(payload, pos, None).0 == None
  {
    hide Find, Upper, LineDisposition, OccursAt;
    var line := key + [':'] + value;
    OtherLineFirst(key, value);
    FindBehind(payload, "\r\n", pos, line, "\r\n" + rest);
    var next := pos + |line| + 2;
    assert payload[next..] == "" + "\r\n" + rest;
    FindBehind(payload, "\r\n", next, "", rest);
    assert Headers(payload, next, None) == (None, next + 2);
  }

  lemma OtherLineFirst(key: string, value: string)
    requires !Contains(key, ':') && Upper(key) != "CONTENT-DISPOSITION" && !Contains(key, '\r') && !Contains(value, '\r')
    ensures var line := key + [':'] + value;
            FirstBehind(line, "\r\n") && LineDisposition(line, None) == None
  {
    hide Upper;
    var line := key + [':'] + value;
    assert forall i :: 0 <= i < |line| ==> line[i] == if i < |key| then key[i] else if i == |key| then ':' else value[i - |key| - 1];
    NoReturnOmits(line);
    LineFirst(line);
    FirstIndex(key, ':', value);
    assert line[..|key|] == key;
  }

  function FilesOf(uploads: seq<Upload>): seq<File> {
    seq(|uploads|, i requires 0 <= i < |uploads| => File(uploads[i].name, WithoutCRLF(uploads[i].content)))
  }

  /** The rest of a payload behind the first boundary of its files. */
  function FilesBehind(boundary: string, uploads: seq<Upload>): string {
    if uploads == [] then "--\r\n" else FileTail(uploads[0], "--" + boundary + FilesBehind(boundary, uploads[1..]))
  }

  predicate AllUploadsOk(boundary: string, uploads: seq<Upload>) {
    forall i :: 0 <= i < |uploads| ==> UploadOk(boundary, uploads[i])
  }

  lemma {:induction false} FilesDecode(payload: string, boundary: string, pos: nat, lead: string, fields: FieldValueMap,
                                       done: seq<File>, uploads: seq<Upload>)
    requires !Contains(boundary, '\r') && (lead == "" || lead == "\r\n") && pos <= |payload| && AllUploadsOk(boundary, uploads)
    requires payload[pos..] == lead + ("--" + boundary) + FilesBehind(boundary, uploads)
    ensures DecodeFrom(payload, "--" + boundary, pos, fields, done) == Fields(fields, done + FilesOf(uploads))
    decreases |uploads|
  {
    hide DecodeFrom, FileTail, UploadOk, WithoutCRLF;
    if uploads == [] {
      EndDecodes(payload, "--" + boundary, pos, lead, fields, done);
      assert done + FilesOf(uploads) == done;
    } else {
      var file := File(uploads[0].name, WithoutCRLF(uploads[0].content));
      var next := FilePartDecodes(payload, boundary, pos, lead, uploads[0], FilesBehind(boundary, uploads[1..]), fields, done);
      FilesDecode(payload, boundary, next, "\r\n", fields, done + [file], uploads[1..]);
      assert FilesOf(uploads) == [file] + FilesOf(uploads[1..]);
      assert done + [file] + FilesOf(uploads[1..]) == done + FilesOf(uploads);
    }
  }

  lemma FilePartIsTail(boundary: string, u: Upload, rest: string)
    ensures FilePartText(boundary, u) + rest == "--" + boundary + FileTail(u, rest)
  {
    var end, mid := "\r\n", "\"; filename=\"";
    FileLine(u);
    TypeEnds();
    hide FileDisposition;
    FileRegrouped("--" + boundary, end, DISPOSITION, u.name, mid, u.filename, "\"", TYPE_LINE, u.content, rest);
  }

  lemma TypeEnds()
    ensures "\"\r\n" == "\"" + "\r\n"
    ensures "Content-Type: application/octet-stream\r\n\r\n" == TYPE_LINE + "\r\n" + "\r\n"
  {
  }

  lemma FileRegrouped(b: string, end: string, disposition: string, name: string, mid: string, filename: string, quote: string,
                      typed: string, content: string, rest: string)
    ensures b + end + disposition + name + mid + filename + (quote + end) + (typed + end + end) + content + end + rest
            == b + (end + (disposition + name + mid + filename + quote + end + (typed + end + (end + (content + end + rest)))))
  {
    var line := disposition + name + mid + filename;
    assert b + end + disposition + name + mid + filename == b + end + line;
    LineRegrouped(b, end, line, quote, typed, content, rest);
  }

  lemma LineRegrouped(b: string, end: string, line: string, quote: string, typed: string, content: string, rest: string)
    ensures b + end + line + (quote + end) + (typed + end + end) + content + end + rest
            == b + (end + (line + quote + end + (typed + end + (end + (content + end + rest)))))
  {
  }

  lemma {:induction false} FilesAreTails(boundary: string, uploads: seq<Upload>)
    ensures FilesText(boundary, uploads) + "--" + boundary + "--\r\n" == "--" + boundary + FilesBehind(boundary, uploads)
    decreases |uploads|
  {
    hide FilePartText, FileTail;
    if uploads != [] {
      var first, rest := FilePartText(boundary, uploads[0]), FilesText(boundary, uploads[1..]);
      FilesAreTails(boundary, uploads[1..]);
      FilePartIsTail(boundary, uploads[0], rest + "--" + boundary + "--\r\n");
      EndRegrouped(first, rest, boundary);
    }
  }

  lemma EndRegrouped(first: string, parts: string, boundary: string)
    ensures first + parts + "--" + boundary + "--\r\n" == first + (parts + "--" + boundary + "--\r\n")
  {
  }

  lemma WholeIsTails(boundary: string, m: FieldValueMap, uploads: seq<Upload>)
    ensures WholeText(boundary, m, uploads) == "--" + boundary + Behind(boundary, m, FilesBehind(boundary, uploads))
  {
    hide Behind, FilesBehind, PartsText, FilesText;
    FilesAreTails(boundary, uploads);
    PartsAreTails(boundary, m, FilesBehind(boundary, uploads));
    EndRegrouped(PartsText(boundary, m), FilesText(boundary, uploads), boundary);
  }

  /** Decoding a printed payload gives back its fields in order, duplicates and all, and its files in the
      order they were sent, each value and content without the line end it may end in. */
  lemma WholeRoundTrip(boundary: string, m: FieldValueMap, uploads: seq<Upload>)
    requires !Contains(boundary, '\r') && Sorted(m) && AllOk(boundary, m) && AllUploadsOk(boundary, uploads)
    ensures Decode(WholeText(boundary, m, uploads), boundary) == Fields(Stripped(m), FilesOf(uploads))
  {
    hide DecodeFrom, Behind, FilesBehind, Stripped, Sorted, AllOk, AllUploadsOk, WholeText, FilesOf;
    var payload, end := WholeText(boundary, m, uploads), FilesBehind(boundary, uploads);
    WholeIsTails(boundary, m, uploads);
    StrippedSorted(m);
    assert payload[0..] == payload == "" + ("--" + boundary) + Behind(boundary, m, end);
    assert [] + Stripped(m) == Stripped(m) && [] + FilesOf(uploads) == FilesOf(uploads);
    var next, line := PartsDecode(payload, boundary, 0, "", [], m, end);
    FilesDecode(payload, boundary, next, line, Stripped(m), [], uploads);
  }

  /** In particular a form without files. */
  lemma RoundTrip(boundary: string, m: FieldValueMap)
    requires !Contains(boundary, '\r') && Sorted(m) && AllOk(boundary, m)
    ensures Decode(PayloadText(boundary, m), boundary) == Fields(Stripped(m), [])
  {
    hide Decode, WholeText, PayloadText, Stripped;
    NoFilesText(boundary, m);
    WholeRoundTrip(boundary, m, []);
    assert FilesOf([]) == [];
  }

  // ---- when a form comes back -------------------------------------------------------------------

  lemma {:induction false} FindFirst(s: string, p: string, pos: nat, j: nat)
    requires Find(s, p, pos).Some? && pos <= j < Find(s, p, pos).value
    ensures !OccursAt(s, p, j)
    decreases |s| - pos
  {
    if pos < j {
      FindFirst(s, p, pos + 1, j);
    }
  }

  lemma {:induction false} FindExists(s: string, p: string, pos: nat, k: nat)
    requires pos <= k && OccursAt(s, p, k)
    ensures Find(s, p, pos).Some? && Find(s, p, pos).value <= k
    decreases k - pos
  {
    if pos < k {
      FindExists(s, p, pos + 1, k);
    }
  }

  lemma PartOmits(s: string, i: nat, j: nat, p: string)
    requires i <= j <= |s| && p != "" && forall k :: i <= k < j ==> !OccursAt(s, p, k)
    ensures Omits(s[i..j], p)
  {
    forall k | 0 <= k <= j - i
      ensures !OccursAt(s[i..j], p, k)
    {
      if k + |p| <= j - i {
        assert !OccursAt(s, p, i + k);
        var part, same := s[i..j][k..k + |p|], s[i + k..i + k + |p|];
        assert forall t :: 0 <= t < |p| ==> part[t] == s[i + k + t] == same[t];
        assert part == same;
      }
    }
  }

  lemma SliceOmits(s: string, i: nat, j: nat, p: string)
    requires i <= j <= |s| && p != "" && Omits(s, p)
    ensures Omits(s[i..j], p)
  {
    PartOmits(s, i, j, p);
  }

  lemma {:induction false} TrimLeftSlice(s: string) returns (i: nat)
    ensures i <= |s| && TrimLeft(s) == s[i..]
  {
    i := 0;
    if s != "" && IsBlank(s[0]) {
      var k := TrimLeftSlice(s[1..]);
      i := k + 1;
      assert s[1..][k..] == s[i..];
    }
  }

  lemma LineDispositionOmits(line: string, before: Option<string>)
    requires Omits(line, "\r\n") && (before.Some? ==> Omits(before.value, "\r\n"))
    ensures LineDisposition(line, before).Some? ==> Omits(LineDisposition(line, before).value, "\r\n")
  {
    hide Upper, Omits;
    var colon := IndexOf(line, ':');
    if colon < |line| {
      var value := line[colon + 1..];
      var i := TrimLeftSlice(value);
      assert value[i..] == line[colon + 1 + i..|line|];
      SliceOmits(line, colon + 1 + i, |line|, "\r\n");
    }
  }

  lemma {:induction false} HeadersOmit(payload: string, pos: nat, disposition: Option<string>)
    requires disposition.Some? ==> Omits(disposition.value, "\r\n")
    ensures Headers(payload, pos, disposition).0.Some? ==> Omits(Headers(payload, pos, disposition).0.value, "\r\n")
    decreases |payload| - pos
  {
    hide Find, LineDisposition, Omits, OccursAt;
    var lineEnd := Find(payload, "\r\n", pos);
    if lineEnd.Some? && lineEnd.value != pos {
      forall k | pos <= k < lineEnd.value
        ensures !OccursAt(payload, "\r\n", k)
      {
        FindFirst(payload, "\r\n", pos, k);
      }
      assert lineEnd.value <= |payload| by {
        FoundInside(payload, "\r\n", pos);
      }
      var line := payload[pos..lineEnd.value];
      PartOmits(payload, pos, lineEnd.value, "\r\n");
      LineDispositionOmits(line, disposition);
      HeadersOmit(payload, lineEnd.value + 2, LineDisposition(line, disposition));
    }
  }

  lemma FoundInside(s: string, p: string, pos: nat)
    requires Find(s, p, pos).Some?
    ensures Find(s, p, pos).value + |p| <= |s|
  {
  }

  lemma QuotedOk(disposition: string, key: string)
    requires Omits(disposition, "\r\n")
    ensures NameOk(Quoted(disposition, key))
  {
    hide Find, Omits;
    var found := Find(disposition, key, 0);
    NoneOmitted();
    if found.Some? {
      FoundInside(disposition, key, 0);
      var from := found.value + |key|;
      var end := Find(disposition, "\"", from);
      if end.Some? {
        FoundInside(disposition, "\"", from);
        SliceOmits(disposition, from, end.value, "\r\n");
        forall i | from <= i < end.value
          ensures disposition[i] != '"'
        {
          FindFirst(disposition, "\"", from, i);
          assert disposition[i..i + 1] == [disposition[i]];
        }
        assert forall i :: 0 <= i < end.value - from ==> disposition[from..end.value][i] == disposition[from + i];
      }
    }
  }

  lemma NoneOmitted()
    ensures Omits("", "\r\n")
  {
  }

  predicate NamesOk(m: FieldValueMap) {
    forall x :: x in m ==> NameOk(x.name)
  }

  /** What decoding adds to the fields: names that stood in quotes on one line, behind the others of the same name. */
  lemma {:induction false} DecodeAdds(payload: string, boundary: string, pos: nat, fields: FieldValueMap, files: seq<File>, name: string)
    requires |boundary| >= 2 && Sorted(fields) && NamesOk(fields)
    ensures var d := DecodeFrom(payload, boundary, pos, fields, files);
            d.Fields? ==> NamesOk(d.formFields) && Values(fields, name) <= Values(d.formFields, name)
    decreases |payload| - pos
  {
    hide Find, Headers, Quoted, WithoutCRLF, Insert, SkipCRLF, ContentEnd, Sorted, NameOk, OccursAt, Values;
    var found := Find(payload, boundary, pos);
    if !(pos >= |payload| || found == None || OccursAt(payload, "--", found.value + |boundary|)) {
      var headerPos := SkipCRLF(payload, found.value + |boundary|);
      HeadersAdvance(payload, headerPos, None);
      var (disposition, contentPos) := Headers(payload, headerPos, None);
      if disposition.Some? && contentPos <= |payload| {
        var (end, next) := ContentEnd(payload, boundary, contentPos);
        var e := Entry(Quoted(disposition.value, "name=\""), WithoutCRLF(payload[contentPos..end]));
        FoundAtOrBehind(payload, boundary, pos);
        if Quoted(disposition.value, "filename=\"") != "" {
          DecodeAdds(payload, boundary, next, fields, files + [File(e.name, e.value)], name);
        } else {
          HeadersOmit(payload, headerPos, None);
          QuotedOk(disposition.value, "name=\"");
          InsertSorted(fields, e);
          InsertEntries(fields, e);
          InsertValues(fields, e, name);
          DecodeAdds(payload, boundary, next, Insert(fields, e), files, name);
        }
      }
    }
  }

  lemma FoundAtOrBehind(s: string, p: string, pos: nat)
    requires Find(s, p, pos).Some?
    ensures Find(s, p, pos).value >= pos
  {
  }

  lemma OccursInside(s: string, pos: nat, value: string, rest: string, p: string, o: nat)
    requires pos <= |s| && s[pos..] == value + rest && OccursAt(value, p, o)
    ensures OccursAt(s, p, pos + o)
  {
    var part := s[pos + o..pos + o + |p|];
    forall t | 0 <= t < |p|
      ensures part[t] == p[t]
    {
      assert part[t] == s[pos + (o + t)] == s[pos..][o + t] == value[o + t] == value[o..o + |p|][t];
    }
  }

  /** A value that holds the boundary: its content is cut off before it, or runs to the end of the payload. */
  lemma ContentCut(payload: string, boundary: string, pos: nat, value: string, tail: string)
    requires 2 <= pos <= |payload| && payload[pos..] == value + "\r\n" + (boundary + tail)
    requires !Omits(value, boundary) && boundary != ""
    ensures WithoutCRLF(payload[pos..ContentEnd(payload, boundary, pos).0]) != value
  {
    var o :| 0 <= o <= |value| && OccursAt(value, boundary, o);
    assert payload[pos..] == value + ("\r\n" + (boundary + tail));
    OccursInside(payload, pos, value, "\r\n" + (boundary + tail), boundary, o);
    FindExists(payload, boundary, pos, pos + o);
    var content := payload[pos..ContentEnd(payload, boundary, pos).0];
    assert |payload[pos..]| == |value| + 2 + |boundary| + |tail|;
    assert |content| - 2 <= |WithoutCRLF(content)| <= |content|;
    assert |content| < |value| || |content| > |value| + 2;
  }

  /** What a value must be like to come back. */
  predicate ValueOk(boundary: string, value: string) {
    Omits(value, "--" + boundary) && !EndsWithCRLF(value)
  }

  /** A part whose value does not come back. */
  lemma BadPart(payload: string, boundary: string, pos: nat, lead: string, e: Entry, tail: string, fields: FieldValueMap)
    returns (next: nat, value: string)
    requires NameOk(e.name) && !ValueOk(boundary, e.value)
    requires !Contains(boundary, '\r') && (lead == "" || lead == "\r\n") && pos <= |payload|
    requires payload[pos..] == lead + ("--" + boundary) + PartTail(e, "--" + boundary + tail)
    ensures value != e.value
    ensures DecodeFrom(payload, "--" + boundary, pos, fields, [])
            == DecodeFrom(payload, "--" + boundary, next, Insert(fields, Entry(e.name, value)), [])
  {
    hide DecodeFrom, PartTail, Insert, Omits;
    var b := "--" + boundary;
    var contentPos := PartFront(payload, boundary, pos, lead, e, tail, fields, []);
    next := ContentEnd(payload, b, contentPos).1;
    value := WithoutCRLF(payload[contentPos..ContentEnd(payload, b, contentPos).0]);
    if Omits(e.value, b) {
      assert !Contains(b, '\r');
      ContentRead(payload, b, contentPos, e.value, tail);
    } else {
      ContentCut(payload, b, contentPos, e.value, tail);
    }
  }

  /** The first value that does not come back spoils the values of its name. */
  lemma {:induction false} BadParts(payload: string, boundary: string, pos: nat, lead: string, done: FieldValueMap, m: FieldValueMap)
    requires !Contains(boundary, '\r') && (lead == "" || lead == "\r\n") && pos <= |payload|
    requires payload[pos..] == lead + ("--" + boundary) + Behind(boundary, m, "--\r\n") && Sorted(done + m) && NamesOk(done + m)
    requires exists x :: x in m && !ValueOk(boundary, x.value)
    ensures DecodeFrom(payload, "--" + boundary, pos, done, []) != Fields(done + m, [])
    decreases |m|
  {
    hide DecodeFrom, PartTail, NameOk, ValueOk, WithoutCRLF, Less, Insert, Values;
    var e, rest := m[0], m[1..];
    assert (done + m)[|done|] == e && NameOk(e.name);
    assert done + [e] + rest == done + m;
    GoesLast(done, e, rest);
    if ValueOk(boundary, e.value) {
      assert FieldOk(boundary, e) && WithoutCRLF(e.value) == e.value by {
        ValueUnchanged(boundary, e);
      }
      var next := PartDecodes(payload, boundary, pos, lead, e, Behind(boundary, rest, "--\r\n"), done, []);
      BadParts(payload, boundary, next, "\r\n", done + [e], rest);
    } else {
      var next, value := BadPart(payload, boundary, pos, lead, e, Behind(boundary, rest, "--\r\n"), done);
      SpoiltName(payload, boundary, next, done, e, value, rest);
    }
  }

  lemma ValueUnchanged(boundary: string, e: Entry)
    requires NameOk(e.name) && ValueOk(boundary, e.value)
    ensures FieldOk(boundary, e) && WithoutCRLF(e.value) == e.value
  {
  }

  lemma SpoiltName(payload: string, boundary: string, pos: nat, done: FieldValueMap, e: Entry, value: string, rest: FieldValueMap)
    requires Sorted(done + [e] + rest) && NamesOk(done + [e] + rest) && value != e.value
    ensures DecodeFrom(payload, "--" + boundary, pos, Insert(done, Entry(e.name, value)), []) != Fields(done + [e] + rest, [])
  {
    hide DecodeFrom, NameOk, Less, Insert, Values, Sorted, NamesOk;
    var wrong := Entry(e.name, value);
    var before, all := Values(done, e.name), Values(done + [e] + rest, e.name);
    assert done + ([e] + rest) == done + [e] + rest;
    SortedFront(done, [e] + rest);
    InsertSorted(done, wrong);
    InsertEntries(done, wrong);
    InsertValues(done, wrong, e.name);
    NamesOkFront(done, e, rest, wrong);
    DecodeAdds(payload, "--" + boundary, pos, Insert(done, wrong), [], e.name);
    ValuesSplit(done + [e], rest, e.name);
    ValuesSplit(done, [e], e.name);
    OneValue(e);
    OtherValue(before, e.value, value, Values(rest, e.name), all);
  }

  lemma OtherValue(before: seq<string>, right: string, wrong: string, rest: seq<string>, all: seq<string>)
    requires all == before + [right] + rest && right != wrong
    ensures !(before + [wrong] <= all)
  {
    assert all[|before|] == right && (before + [wrong])[|before|] == wrong;
  }

  lemma OneValue(e: Entry)
    ensures Values([e], e.name) == [e.value]
  {
    assert [e][1..] == [];
  }

  lemma SortedFront(a: FieldValueMap, b: FieldValueMap)
    requires Sorted(a + b)
    ensures Sorted(a)
  {
    hide Less;
    assert forall i :: 0 <= i < |a| ==> (a + b)[i] == a[i];
  }

  lemma NamesOkFront(done: FieldValueMap, e: Entry, rest: FieldValueMap, wrong: Entry)
    requires NamesOk(done + [e] + rest) && wrong.name == e.name
    requires forall x :: x in Insert(done, wrong) ==> x in done || x == wrong
    ensures NamesOk(done) && NamesOk(Insert(done, wrong))
  {
    hide NameOk, Insert;
    assert e in done + [e] + rest;
    assert forall x :: x in done ==> x in done + [e] + rest;
  }

  /** Decoding a printed form gives it back, order of duplicates and all, iff no name holds a quote or a
      line end, and no value holds the boundary or ends in a line end. */
  lemma RoundTripIff(boundary: string, m: FieldValueMap)
    requires !Contains(boundary, '\r') && Sorted(m)
    ensures Decode(PayloadText(boundary, m), boundary) == Fields(m, [])
            <==> forall x :: x in m ==> NameOk(x.name) && ValueOk(boundary, x.value)
  {
    hide DecodeFrom, Behind, Sorted, NameOk, ValueOk;
    var payload := PayloadText(boundary, m);
    NothingSorted();
    DecodeAdds(payload, "--" + boundary, 0, [], [], "");
    if NamesOk(m) {
      if forall x :: x in m ==> ValueOk(boundary, x.value) {
        assert AllOk(boundary, m) && Stripped(m) == m by {
          AllUnchanged(boundary, m);
        }
        RoundTrip(boundary, m);
      } else {
        NoFilesText(boundary, m);
        WholeIsTails(boundary, m, []);
        assert payload[0..] == payload == "" + ("--" + boundary) + Behind(boundary, m, "--\r\n");
        assert [] + m == m;
        BadParts(payload, boundary, 0, "", [], m);
      }
    }
  }

  lemma NothingSorted()
    ensures Sorted([]) && NamesOk([])
  {
  }

  lemma AllUnchanged(boundary: string, m: FieldValueMap)
    requires forall x :: x in m ==> NameOk(x.name) && ValueOk(boundary, x.value)
    ensures AllOk(boundary, m) && Stripped(m) == m
  {
    hide NameOk, ValueOk, FieldOk, WithoutCRLF;
    forall i | 0 <= i < |m|
      ensures FieldOk(boundary, m[i]) && WithoutCRLF(m[i].value) == m[i].value
    {
      assert m[i] in m;
      ValueUnchanged(boundary, m[i]);
    }
  }
}
