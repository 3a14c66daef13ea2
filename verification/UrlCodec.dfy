/** URL encoding of strings and of form fields, and the parsers of both (section 2.1 of RFC 3986).
    Text is a sequence of bytes, written as characters below 256.
 */
module UrlCodec {
  import opened FieldMap
  import opened Wrappers

  // ---- strings ----------------------------------------------------------------------------------

  predicate Unreserved(c: char) {
    'a' <= c <= 'z' || 'A' <= c <= 'Z' || '0' <= c <= '9' || c == '-' || c == '_' || c == '.' || c == '~'
  }

  lemma LettersAre(c: char)
    ensures 'a' <= c <= 'z' <==> c in "abcdefghijklmnopqrstuvwxyz"
  {
    var letters := "abcdefghijklmnopqrstuvwxyz";
    if 'a' <= c <= 'z' {
      assert letters[(c - 'a') as nat] == c;
    }
  }

  lemma CapitalsAre(c: char)
    ensures 'A' <= c <= 'Z' <==> c in "ABCDEFGHIJKLMNOPQRSTUVWXYZ"
  {
    var letters := "ABCDEFGHIJKLMNOPQRSTUVWXYZ";
    if 'A' <= c <= 'Z' {
      assert letters[(c - 'A') as nat] == c;
    }
  }

  lemma DigitsAre(c: char)
    ensures '0' <= c <= '9' <==> c in "0123456789"
  {
    var digits := "0123456789";
    if '0' <= c <= '9' {
      assert digits[(c - '0') as nat] == c;
    }
  }

  /** The characters that are written as they are, as section 2.3 of RFC 3986 lists them. */
  lemma UnreservedAre(c: char)
    ensures Unreserved(c)
            <==> || c in "abcdefghijklmnopqrstuvwxyz" || c in "ABCDEFGHIJKLMNOPQRSTUVWXYZ" || c in "0123456789"
                 || c == '-' || c == '.' || c == '_' || c == '~'
  {
    LettersAre(c);
    CapitalsAre(c);
    DigitsAre(c);
  }

  predicate Ascii(s: string) { forall i :: 0 <= i < |s| ==> s[i] as nat < 128 }

  predicate Bytes(s: string) { forall i :: 0 <= i < |s| ==> s[i] as nat < 256 }

  function HexChar(d: nat): char
    requires d < 16
  {
    if d < 10 then '0' + d as char else 'A' + (d - 10) as char
  }

  /** The value of a hexadecimal digit, upper or lower case. */
  function HexValue(c: char): Option<nat> {
    if '0' <= c <= '9' then Some((c - '0') as nat)
    else if 'A' <= c <= 'F' then Some((c - 'A') as nat + 10)
    else if 'a' <= c <= 'f' then Some((c - 'a') as nat + 10)
    else None
  }

  /** A character from 128 on is negative as the source widens it, and prints as eight digits. */
  function EncodeChar(c: char): string
    requires c as nat < 256
  {
    if Unreserved(c) then [c]
    else if c as nat < 128 then ['%', HexChar(c as nat / 16), HexChar(c as nat % 16)]
    else "%FFFFFF" + [HexChar(c as nat / 16), HexChar(c as nat % 16)]
  }

  function Encode(s: string): string
    requires Bytes(s)
  {
    if s == "" then "" else EncodeChar(s[0]) + Encode(s[1..])
  }

  /** What converting two characters to a number of base 16 gives: it skips a leading space, takes a
      sign, stops at the first character that is no digit, and fails when there is no digit at all. */
  function HexPair(a: char, b: char): Option<char> {
    match (HexValue(a), HexValue(b))
    case (Some(h), Some(l)) => Some((16 * h + l) as char)
    case (Some(h), None) => Some(h as char)
    case (None, Some(l)) =>
      if a == ' ' || '\t' <= a <= '\r' || a == '+' then Some(l as char)
      else if a == '-' then Some(((256 - l) % 256) as char)
      else None
    case (None, None) => None
  }

  function Prepend(c: char, rest: Option<string>): Option<string> {
    match rest
    case None => None
    case Some(s) => Some([c] + s)
  }

  /** None when a conversion fails, which the source throws for. */
  function Decode(s: string): Option<string>
    decreases |s|
  {
    if s == "" then Some("")
    else if s[0] == '%' && 2 < |s| then
      var c := HexPair(s[1], s[2]);
      if c == None then None else Prepend(c.value, Decode(s[3..]))
    else Prepend(if s[0] == '+' then ' ' else s[0], Decode(s[1..]))
  }

  lemma HexRestored(d: nat)
    requires d < 16
    ensures HexValue(HexChar(d)) == Some(d) && UpperHex(HexChar(d))
  {
  }

  /** The characters an encoded character decodes to. */
  function DecodedChar(c: char): string
    requires c as nat < 256
  {
    if c as nat < 128 then [c] else [255 as char] + "FFFF" + [HexChar(c as nat / 16), HexChar(c as nat % 16)]
  }

  function PrependAll(s: string, rest: Option<string>): Option<string> {
    match rest
    case None => None
    case Some(t) => Some(s + t)
  }

  lemma {:induction false} PlainDecodes(s: string, t: string)
    requires forall i :: 0 <= i < |s| ==> s[i] != '%' && s[i] != '+'
    ensures Decode(s + t) == PrependAll(s, Decode(t))
    decreases |s|
  {
    if s == "" {
      assert s + t == t;
      if Decode(t).Some? {
        assert "" + Decode(t).value == Decode(t).value;
      }
    } else {
      assert (s + t)[1..] == s[1..] + t;
      PlainDecodes(s[1..], t);
      if Decode(t).Some? {
        assert [s[0]] + (s[1..] + Decode(t).value) == s + Decode(t).value;
      }
    }
  }

  lemma EscapeDecodes(high: nat, low: nat, t: string)
    requires high < 16 && low < 16
    ensures Decode(['%', HexChar(high), HexChar(low)] + t) == Prepend((16 * high + low) as char, Decode(t))
  {
    HexRestored(high);
    HexRestored(low);
    var s := ['%', HexChar(high), HexChar(low)] + t;
    assert s[1] == HexChar(high) && s[2] == HexChar(low) && s[3..] == t;
  }

  lemma WideDecodes(high: char, low: char, t: string)
    requires high != '%' && high != '+' && low != '%' && low != '+'
    ensures Decode("%FFFFFF" + [high, low] + t) == PrependAll([255 as char] + "FFFF" + [high, low], Decode(t))
  {
    hide Decode;
    var tail := "FFFF" + [high, low];
    assert "%FFFFFF" + [high, low] + t == ['%', HexChar(15), HexChar(15)] + (tail + t);
    EscapeDecodes(15, 15, tail + t);
    assert tail == ['F', 'F', 'F', 'F', high, low];
    PlainDecodes(tail, t);
    if Decode(t).Some? {
      assert [255 as char] + (tail + Decode(t).value) == [255 as char] + "FFFF" + [high, low] + Decode(t).value;
    }
  }

  lemma CharDecodes(c: char, t: string)
    requires c as nat < 256
    ensures Decode(EncodeChar(c) + t) == PrependAll(DecodedChar(c), Decode(t))
  {
    hide Decode;
    var n := c as nat;
    if Unreserved(c) {
      PlainDecodes([c], t);
    } else if n < 128 {
      EscapeDecodes(n / 16, n % 16, t);
    } else {
      WideDecodes(HexChar(n / 16), HexChar(n % 16), t);
    }
  }

  /** Decoding an encoded string always succeeds, and never shortens it. */
  lemma {:induction false} EncodedDecodes(s: string)
    requires Bytes(s)
    ensures Decode(Encode(s)).Some? && |Decode(Encode(s)).value| >= |s|
    ensures Decode(Encode(s)) == Some(s) <==> Ascii(s)
    ensures !Ascii(s) ==> |Decode(Encode(s)).value| > |s|
    decreases |s|
  {
    hide Decode, EncodeChar;
    if s == "" {
      DecodeNothing();
    } else {
      EncodedDecodes(s[1..]);
      CharDecodes(s[0], Encode(s[1..]));
      var rest := Decode(Encode(s[1..])).value;
      assert Decode(Encode(s)) == Some(DecodedChar(s[0]) + rest);
      assert s == [s[0]] + s[1..];
      assert Ascii(s) <==> s[0] as nat < 128 && Ascii(s[1..]) by {
        assert forall i :: 0 <= i < |s[1..]| ==> s[1..][i] == s[i + 1];
      }
      if s[0] as nat < 128 && [s[0]] + rest == s {
        assert rest == ([s[0]] + rest)[1..];
      }
    }
  }

  lemma DecodeNothing()
    ensures Decode("") == Some("")
  {
  }

  method EncodeStringForURL(str: string) returns (encoded: string)
    requires Bytes(str)
    ensures encoded == Encode(str)
  {
    encoded := "";
    assert str[0..] == str;
    for i := 0 to |str|
      invariant encoded + Encode(str[i..]) == Encode(str)
    {
      assert str[i..][0] == str[i] && str[i..][1..] == str[i + 1..];
      encoded := encoded + EncodeChar(str[i]);
    }
    assert str[|str|..] == "";
  }

  method DecodeStringFromURL(str: string) returns (decoded: Option<string>)
    ensures decoded == Decode(str)
  {
    var text := "";
    var i := 0;
    assert str[0..] == str;
    PrependNone(Decode(str));
    while i < |str|
      invariant 0 <= i <= |str|
      invariant PrependAll(text, Decode(str[i..])) == Decode(str)
    {
      ghost var rest := str[i..];
      assert forall k :: 0 <= k < |rest| ==> rest[k] == str[i + k];
      if str[i] == '%' {
        if i + 2 < |str| {
          var c := HexPair(str[i + 1], str[i + 2]);
          if c == None {
            return None;
          }
          assert rest[3..] == str[i + 3..];
          PrependAssociates(text, c.value, Decode(str[i + 3..]));
          text := text + [c.value];
          i := i + 3;
        } else {
          assert rest[1..] == str[i + 1..];
          PrependAssociates(text, '%', Decode(str[i + 1..]));
          text := text + "%";
          i := i + 1;
        }
      } else {
        var c := if str[i] == '+' then ' ' else str[i];
        assert rest[1..] == str[i + 1..];
        PrependAssociates(text, c, Decode(str[i + 1..]));
        text := text + [c];
        i := i + 1;
      }
    }
    assert str[i..] == "" && text + "" == text;
    return Some(text);
  }

  lemma PrependNone(r: Option<string>)
    ensures PrependAll("", r) == r
  {
    if r.Some? {
      assert "" + r.value == r.value;
    }
  }

  lemma PrependAssociates(text: string, c: char, rest: Option<string>)
    ensures PrependAll(text, Prepend(c, rest)) == PrependAll(text + [c], rest)
  {
    if rest.Some? {
      assert text + ([c] + rest.value) == text + [c] + rest.value;
    }
  }

  // ---- form fields ------------------------------------------------------------------------------

  predicate AllBytes(m: FieldValueMap) {
    forall i :: 0 <= i < |m| ==> Bytes(m[i].name) && Bytes(m[i].value)
  }

  function PairText(e: Entry): string
    requires Bytes(e.name) && Bytes(e.value)
  {
    Encode(e.name) + "=" + Encode(e.value)
  }

  /** The pairs of a form, with "&" between them. */
  function FormText(m: FieldValueMap): string
    requires AllBytes(m)
  {
    if m == [] then ""
    else if |m| == 1 then PairText(m[0])
    else PairText(m[0]) + "&" + FormText(m[1..])
  }

  lemma {:induction false} FormTextLast(m: FieldValueMap, e: Entry)
    requires AllBytes(m) && Bytes(e.name) && Bytes(e.value)
    ensures AllBytes(m + [e])
    ensures FormText(m + [e]) == (if m == [] then "" else FormText(m) + "&") + PairText(e)
  {
    hide PairText;
    assert (m + [e])[1..] == if m == [] then [] else m[1..] + [e];
    if m == [] {
      assert "" + PairText(e) == PairText(e);
    } else {
      FormTextLast(m[1..], e);
      var first := PairText(m[0]);
      if |m| == 1 {
        assert m[1..] == [];
        assert first + "&" + ("" + PairText(e)) == first + "&" + PairText(e);
      } else {
        assert first + "&" + (FormText(m[1..]) + "&" + PairText(e)) == first + "&" + FormText(m[1..]) + "&" + PairText(e);
      }
    }
  }

  method EncodeFieldsToURL(values: seq<FieldEntry>) returns (r: Option<string>)
    requires AllBytes(Plain(values))
    ensures r == if HasFilePath(values) then None else Some(FormText(Plain(values)))
  {
    hide Encode;
    var encodedURL := "";
    for i := 0 to |values|
      invariant forall j :: 0 <= j < i ==> !values[j].isFilePath
      invariant AllBytes(Plain(values[..i])) && encodedURL == FormText(Plain(values[..i]))
      invariant encodedURL != "" <==> i > 0
    {
      var entry := values[i];
      if entry.isFilePath {
        return None;
      }
      ghost var e := Entry(entry.name, entry.value);
      assert Plain(values)[i] == e;
      FormTextLast(Plain(values[..i]), e);
      assert Plain(values[..i + 1]) == Plain(values[..i]) + [e];
      if encodedURL != "" {
        encodedURL := encodedURL + "&";
      }
      var name := EncodeStringForURL(entry.name);
      var value := EncodeStringForURL(entry.value);
      encodedURL := encodedURL + (name + "=" + value);
    }
    assert values[..|values|] == values;
    return Some(encodedURL);
  }

  /** The parser: the name and value being read, which of them, and the fields so far. */
  datatype Scanner = Scanner(fieldName: string, fieldValue: string, scanningField: bool, fields: FieldValueMap)

  const SCANNER := Scanner("", "", true, [])

  function Amend(st: Scanner, text: string): Scanner {
    if st.scanningField then st.(fieldName := st.fieldName + text) else st.(fieldValue := st.fieldValue + text)
  }

  /** Uppercase hexadecimal digits only. */
  predicate UpperHex(c: char) { '0' <= c <= '9' || 'A' <= c <= 'F' }

  predicate EscapeAhead(content: string) {
    |content| >= 3 && content[0] == '%' && UpperHex(content[1]) && UpperHex(content[2])
  }

  function Escaped(a: char, b: char): char
    requires UpperHex(a) && UpperHex(b)
  {
    (16 * HexValue(a).value + HexValue(b).value) as char
  }

  /** Reads the content piece by piece, until its end or something that is no piece. */
  function Scan(st: Scanner, content: string): Scanner
    decreases |content|
  {
    if content == "" then st
    else if Unreserved(content[0]) then Scan(Amend(st, [content[0]]), content[1..])
    else if EscapeAhead(content) then Scan(Amend(st, [Escaped(content[1], content[2])]), content[3..])
    else if content[0] == '+' then Scan(Amend(st, " "), content[1..])
    else if content[0] == '=' then Scan(st.(scanningField := false), content[1..])
    else if content[0] == '&' then
      Scan(Scanner("", "", true, Insert(st.fields, Entry(st.fieldName, st.fieldValue))), content[1..])
    else st
  }

  function Finish(st: Scanner): FieldValueMap {
    if st.fieldName != "" && st.fieldValue != "" then Insert(st.fields, Entry(st.fieldName, st.fieldValue)) else st.fields
  }

  /** The longest run of unreserved characters at the front. */
  function Run(content: string): (n: nat)
    ensures n <= |content| && forall i :: 0 <= i < n ==> Unreserved(content[i])
  {
    if content == "" || !Unreserved(content[0]) then 0 else 1 + Run(content[1..])
  }

  lemma {:induction false} RunScans(st: Scanner, content: string, n: nat)
    requires n <= |content| && forall i :: 0 <= i < n ==> Unreserved(content[i])
    ensures Scan(st, content) == Scan(Amend(st, content[..n]), content[n..])
    decreases n
  {
    if n == 0 {
      assert st.fieldName + "" == st.fieldName && st.fieldValue + "" == st.fieldValue;
      assert content[0..] == content;
    } else {
      RunScans(Amend(st, [content[0]]), content[1..], n - 1);
      assert content[1..][n - 1..] == content[n..];
      assert [content[0]] + content[1..][..n - 1] == content[..n];
      AmendTwice(st, [content[0]], content[1..][..n - 1]);
    }
  }

  lemma AmendTwice(st: Scanner, a: string, b: string)
    ensures Amend(Amend(st, a), b) == Amend(st, a + b)
  {
    assert st.fieldName + a + b == st.fieldName + (a + b);
    assert st.fieldValue + a + b == st.fieldValue + (a + b);
  }

  method ParseURLEncodingToFields(text: string) returns (fieldValueMap: FieldValueMap)
    ensures fieldValueMap == Finish(Scan(SCANNER, text))
  {
    var content := text;
    var fieldName, fieldValue, scanningField := "", "", true;
    fieldValueMap := [];
    while content != ""
      invariant Scan(Scanner(fieldName, fieldValue, scanningField, fieldValueMap), content) == Scan(SCANNER, text)
      decreases |content|
    {
      ghost var st := Scanner(fieldName, fieldValue, scanningField, fieldValueMap);
      var n := Run(content);
      if n > 0 {
        RunScans(st, content, n);
        if scanningField {
          fieldName := fieldName + content[..n];
        } else {
          fieldValue := fieldValue + content[..n];
        }
        content := content[n..];
      } else if EscapeAhead(content) {
        var special := Escaped(content[1], content[2]);
        if scanningField {
          fieldName := fieldName + [special];
        } else {
          fieldValue := fieldValue + [special];
        }
        content := content[3..];
      } else if content[0] == '+' {
        if scanningField {
          fieldName := fieldName + " ";
        } else {
          fieldValue := fieldValue + " ";
        }
        content := content[1..];
      } else if content[0] == '=' {
        scanningField := false;
        content := content[1..];
      } else if content[0] == '&' {
        fieldValueMap := Insert(fieldValueMap, Entry(fieldName, fieldValue));
        fieldName, fieldValue, scanningField := "", "", true;
        content := content[1..];
      } else {
        break;
      }
    }
    if fieldName != "" && fieldValue != "" {
      fieldValueMap := Insert(fieldValueMap, Entry(fieldName, fieldValue));
    }
  }

  // ---- the round trip ---------------------------------------------------------------------------

  /** What a string is decoded to after it was encoded. */
  function Decoded(s: string): string
    requires Bytes(s)
  {
    if s == "" then "" else DecodedChar(s[0]) + Decoded(s[1..])
  }

  /** It is the string itself iff all its bytes are below 128, and longer otherwise. */
  lemma {:induction false} DecodedIff(s: string)
    requires Bytes(s)
    ensures Decoded(s) == s <==> Ascii(s)
    ensures |Decoded(s)| >= |s| && (|Decoded(s)| == |s| <==> Ascii(s))
  {
    if s != "" {
      DecodedIff(s[1..]);
      assert Ascii(s) <==> s[0] as nat < 128 && Ascii(s[1..]) by {
        assert forall i :: 0 <= i < |s[1..]| ==> s[1..][i] == s[i + 1];
      }
      assert s == [s[0]] + s[1..];
    }
  }

  lemma CharScans(st: Scanner, c: char, t: string)
    requires c as nat < 256
    ensures Scan(st, EncodeChar(c) + t) == Scan(Amend(st, DecodedChar(c)), t)
  {
    var s := EncodeChar(c) + t;
    if Unreserved(c) {
      assert s[1..] == t;
    } else {
      HexRestored(c as nat / 16);
      HexRestored(c as nat % 16);
      if c as nat < 128 {
        assert s[1] == HexChar(c as nat / 16) && s[2] == HexChar(c as nat % 16) && s[3..] == t;
      } else {
        WideScans(st, HexChar(c as nat / 16), HexChar(c as nat % 16), t);
      }
    }
  }

  /** The first escape of a wide character is read as one, the other digits as themselves. */
  lemma WideScans(st: Scanner, high: char, low: char, t: string)
    requires UpperHex(high) && UpperHex(low)
    ensures Scan(st, "%FFFFFF" + [high, low] + t) == Scan(Amend(st, [255 as char] + "FFFF" + [high, low]), t)
  {
    var s := "%FFFFFF" + [high, low] + t;
    var tail := "FFFF" + [high, low];
    assert s[3..] == tail + t && Escaped(s[1], s[2]) == 255 as char;
    assert Scan(st, s) == Scan(Amend(st, [255 as char]), tail + t);
    assert forall i :: 0 <= i < 6 ==> (tail + t)[i] == tail[i] && Unreserved(tail[i]);
    RunScans(Amend(st, [255 as char]), tail + t, 6);
    assert (tail + t)[..6] == tail && (tail + t)[6..] == t;
    AmendTwice(st, [255 as char], tail);
    assert [255 as char] + tail == [255 as char] + "FFFF" + [high, low];
  }

  /** An encoded string is scanned to what it decodes to. */
  lemma {:induction false} StringScans(st: Scanner, s: string, t: string)
    requires Bytes(s)
    ensures Scan(st, Encode(s) + t) == Scan(Amend(st, Decoded(s)), t)
    decreases |s|
  {
    hide Scan, EncodeChar, DecodedChar;
    if s == "" {
      assert Encode(s) + t == t;
      assert st.fieldName + "" == st.fieldName && st.fieldValue + "" == st.fieldValue;
    } else {
      assert Encode(s) + t == EncodeChar(s[0]) + (Encode(s[1..]) + t);
      CharScans(st, s[0], Encode(s[1..]) + t);
      StringScans(Amend(st, DecodedChar(s[0])), s[1..], t);
      AmendTwice(st, DecodedChar(s[0]), Decoded(s[1..]));
    }
  }

  /** Scanning a pair leaves what its name and value decode to in the scanner. */
  lemma PairScans(m: FieldValueMap, e: Entry, t: string)
    requires Bytes(e.name) && Bytes(e.value)
    ensures Scan(SCANNER.(fields := m), PairText(e) + t) == Scan(Scanner(Decoded(e.name), Decoded(e.value), false, m), t)
  {
    hide Encode, Decoded;
    var st := SCANNER.(fields := m);
    assert PairText(e) + t == Encode(e.name) + ("=" + (Encode(e.value) + t));
    StringScans(st, e.name, "=" + (Encode(e.value) + t));
    assert "" + Decoded(e.name) == Decoded(e.name) && "" + Decoded(e.value) == Decoded(e.value);
    assert ("=" + (Encode(e.value) + t))[1..] == Encode(e.value) + t;
    StringScans(Scanner(Decoded(e.name), "", false, m), e.value, t);
  }

  predicate AllAscii(m: FieldValueMap) {
    forall i :: 0 <= i < |m| ==> Ascii(m[i].name) && Ascii(m[i].value)
  }

  predicate LastComplete(m: FieldValueMap) {
    m == [] || (m[|m| - 1].name != "" && m[|m| - 1].value != "")
  }

  lemma FirstGoesLast(done: FieldValueMap, m: FieldValueMap)
    requires m != [] && Sorted(done + m)
    ensures Insert(done, m[0]) == done + [m[0]] && done + [m[0]] + m[1..] == done + m
  {
    hide Less, Insert;
    forall i | 0 <= i < |done|
      ensures !Less(m[0].name, done[i].name)
    {
      assert (done + m)[i] == done[i] && (done + m)[|done|] == m[0];
    }
    InsertLast(done, m[0]);
    assert done + [m[0]] + m[1..] == done + m;
  }

  /** What an entry is read as. */
  function ReadBack(e: Entry): Entry
    requires Bytes(e.name) && Bytes(e.value)
  {
    Entry(Decoded(e.name), Decoded(e.value))
  }

  lemma LastScans(done: FieldValueMap, e: Entry)
    requires Bytes(e.name) && Bytes(e.value)
    ensures Finish(Scan(SCANNER.(fields := done), PairText(e))) == if LastComplete([e]) then Insert(done, ReadBack(e)) else done
  {
    hide Scan, PairText, Less, Insert;
    PairScans(done, e, "");
    assert PairText(e) + "" == PairText(e);
    EndScans(Scanner(Decoded(e.name), Decoded(e.value), false, done));
    DecodedIff(e.name);
    DecodedIff(e.value);
  }

  lemma NextScans(done: FieldValueMap, e: Entry, rest: string)
    requires Bytes(e.name) && Bytes(e.value)
    ensures Scan(SCANNER.(fields := done), PairText(e) + "&" + rest) == Scan(SCANNER.(fields := Insert(done, ReadBack(e))), rest)
  {
    hide Scan, PairText, Less, Insert;
    PairScans(done, e, "&" + rest);
    assert PairText(e) + "&" + rest == PairText(e) + ("&" + rest);
    AmpersandScans(Scanner(Decoded(e.name), Decoded(e.value), false, done), rest);
  }

  lemma AsciiReadBack(e: Entry)
    requires Bytes(e.name) && Bytes(e.value)
    ensures ReadBack(e) == e <==> Ascii(e.name) && Ascii(e.value)
  {
    DecodedIff(e.name);
    DecodedIff(e.value);
  }

  lemma {:induction false} FormScans(done: FieldValueMap, m: FieldValueMap)
    requires m != [] && AllBytes(m) && AllAscii(m) && Sorted(done + m)
    ensures Finish(Scan(SCANNER.(fields := done), FormText(m))) == done + if LastComplete(m) then m else m[..|m| - 1]
    decreases |m|
  {
    hide Scan, PairText, Sorted, Insert, Finish, Decoded;
    FirstGoesLast(done, m);
    AsciiReadBack(m[0]);
    if |m| == 1 {
      LastScans(done, m[0]);
      assert done + [] == done && m == [m[0]];
    } else {
      NextScans(done, m[0], FormText(m[1..]));
      FormScans(done + [m[0]], m[1..]);
      assert done + [m[0]] + m[1..][..|m| - 2] == done + m[..|m| - 1];
    }
  }

  // ---- bytes from 128 on ------------------------------------------------------------------------

  function Size(m: FieldValueMap): nat {
    if m == [] then 0 else |m[0].name| + |m[0].value| + Size(m[1..])
  }

  function DecodedSize(m: FieldValueMap): nat
    requires AllBytes(m)
  {
    if m == [] then 0 else |Decoded(m[0].name)| + |Decoded(m[0].value)| + DecodedSize(m[1..])
  }

  lemma {:induction false} InsertSize(m: FieldValueMap, e: Entry)
    ensures |Insert(m, e)| == |m| + 1 && Size(Insert(m, e)) == Size(m) + |e.name| + |e.value|
  {
    hide Less;
    if m == [] || Less(e.name, m[0].name) {
      assert ([e] + m)[1..] == m;
    } else {
      InsertSize(m[1..], e);
      assert ([m[0]] + Insert(m[1..], e))[1..] == Insert(m[1..], e);
    }
  }

  lemma {:induction false} DecodedSizeIff(m: FieldValueMap)
    requires AllBytes(m)
    ensures DecodedSize(m) >= Size(m) && (DecodedSize(m) == Size(m) <==> AllAscii(m))
  {
    if m != [] {
      DecodedSizeIff(m[1..]);
      DecodedIff(m[0].name);
      DecodedIff(m[0].value);
      assert AllAscii(m) <==> Ascii(m[0].name) && Ascii(m[0].value) && AllAscii(m[1..]) by {
        assert forall i :: 0 <= i < |m[1..]| ==> m[1..][i] == m[i + 1];
      }
    }
  }

  /** How many entries any form is parsed to, and how long they are together. */
  lemma {:induction false} FormScansSize(done: FieldValueMap, m: FieldValueMap)
    requires m != [] && AllBytes(m)
    ensures var parsed := Finish(Scan(SCANNER.(fields := done), FormText(m)));
            if LastComplete(m) then |parsed| == |done| + |m| && Size(parsed) == Size(done) + DecodedSize(m)
            else |parsed| == |done| + |m| - 1
    decreases |m|
  {
    hide Scan, PairText, Insert, Finish, Decoded;
    InsertSize(done, ReadBack(m[0]));
    if |m| == 1 {
      LastScans(done, m[0]);
      assert m == [m[0]] && m[1..] == [];
    } else {
      NextScans(done, m[0], FormText(m[1..]));
      FormScansSize(Insert(done, ReadBack(m[0])), m[1..]);
    }
  }

  lemma EndScans(st: Scanner)
    ensures Scan(st, "") == st
  {
  }

  lemma AmpersandScans(st: Scanner, rest: string)
    ensures Scan(st, "&" + rest) == Scan(Scanner("", "", true, Insert(st.fields, Entry(st.fieldName, st.fieldValue))), rest)
  {
    hide Insert;
    assert ("&" + rest)[1..] == rest;
  }

  /** A form parses back to what was encoded iff all its bytes are below 128 and its last entry has a name
      and a value; if only the latter fails, exactly that entry is lost. */
  lemma FormRoundTripIff(m: FieldValueMap)
    requires AllBytes(m) && Sorted(m)
    ensures Finish(Scan(SCANNER, FormText(m))) == m <==> AllAscii(m) && LastComplete(m)
    ensures AllAscii(m) && !LastComplete(m) ==> Finish(Scan(SCANNER, FormText(m))) == m[..|m| - 1]
  {
    hide Scan, FormText, Less, Size, DecodedSize, Finish;
    if m == [] {
      NothingScans();
    } else {
      assert [] + m == m && [] + m[..|m| - 1] == m[..|m| - 1];
      FormScansSize([], m);
      DecodedSizeIff(m);
      NoSize();
      if AllAscii(m) {
        FormScans([], m);
      }
    }
  }

  lemma NoSize()
    ensures Size([]) == 0
  {
  }

  lemma NothingScans()
    ensures Finish(Scan(SCANNER, FormText([]))) == []
  {
  }

  // ---- every spelling of a text -----------------------------------------------------------------

  type Digit = d: nat | d < 16

  /** One way to write a character: itself, a space as "+", or an escape with digits of either case. */
  datatype Piece = Itself(c: char) | Plus | Escape(high: Digit, low: Digit, lowerHigh: bool, lowerLow: bool)

  /** The digits of an escape. */
  function Hex(d: Digit, lower: bool): char {
    if lower then "0123456789abcdef"[d] else "0123456789ABCDEF"[d]
  }

  function PieceText(p: Piece): string {
    match p
    case Itself(c) => [c]
    case Plus => "+"
    case Escape(high, low, lowerHigh, lowerLow) => ['%', Hex(high, lowerHigh), Hex(low, lowerLow)]
  }

  function PieceChar(p: Piece): char {
    match p
    case Itself(c) => c
    case Plus => ' '
    case Escape(high, low, _, _) => (high * 16 + low) as char
  }

  function Spelled(pieces: seq<Piece>): string {
    if pieces == [] then "" else PieceText(pieces[0]) + Spelled(pieces[1..])
  }

  function Meant(pieces: seq<Piece>): string {
    if pieces == [] then "" else [PieceChar(pieces[0])] + Meant(pieces[1..])
  }

  lemma HexRead(d: Digit, lower: bool)
    ensures HexValue(Hex(d, lower)) == Some(d) && (!lower ==> UpperHex(Hex(d, lower)))
    ensures !(d >= 10 && lower) || !UpperHex(Hex(d, lower))
  {
  }

  /** Decoding reads every spelling of a text as that text. */
  lemma {:induction false} SpellingDecodes(pieces: seq<Piece>)
    requires forall i :: 0 <= i < |pieces| ==> pieces[i].Itself? ==> pieces[i].c != '%' && pieces[i].c != '+'
    ensures Decode(Spelled(pieces)) == Some(Meant(pieces))
    decreases |pieces|
  {
    if pieces != [] {
      PieceDecodes(pieces[0], Spelled(pieces[1..]));
      hide Decode, PieceText, PieceChar;
      SpellingDecodes(pieces[1..]);
    }
  }

  lemma PieceDecodes(p: Piece, t: string)
    requires p.Itself? ==> p.c != '%' && p.c != '+'
    ensures Decode(PieceText(p) + t) == Prepend(PieceChar(p), Decode(t))
  {
    var s := PieceText(p) + t;
    if p.Escape? {
      HexRead(p.high, p.lowerHigh);
      HexRead(p.low, p.lowerLow);
      assert s[1] == Hex(p.high, p.lowerHigh) && s[2] == Hex(p.low, p.lowerLow) && s[3..] == t;
    } else {
      assert s[1..] == t;
    }
  }

  /** The form parser does so for unreserved characters and upper-case escapes. */
  lemma {:induction false} SpellingScans(st: Scanner, pieces: seq<Piece>, t: string)
    requires forall i :: 0 <= i < |pieces| ==> pieces[i].Itself? ==> Unreserved(pieces[i].c)
    requires forall i :: 0 <= i < |pieces| ==> pieces[i].Escape? ==> !pieces[i].lowerHigh && !pieces[i].lowerLow
    ensures Scan(st, Spelled(pieces) + t) == Scan(Amend(st, Meant(pieces)), t)
    decreases |pieces|
  {
    hide Scan, PieceText, PieceChar, Unreserved;
    if pieces == [] {
      assert Spelled(pieces) + t == t;
      AmendNothing(st);
    } else {
      var rest := Spelled(pieces[1..]) + t;
      var first := [PieceChar(pieces[0])];
      PieceScans(st, pieces[0], rest);
      assert Spelled(pieces) + t == PieceText(pieces[0]) + rest;
      SpellingScans(Amend(st, first), pieces[1..], t);
      AmendTwice(st, first, Meant(pieces[1..]));
    }
  }

  lemma AmendNothing(st: Scanner)
    ensures Amend(st, "") == st
  {
    assert st.fieldName + "" == st.fieldName && st.fieldValue + "" == st.fieldValue;
  }

  lemma PieceScans(st: Scanner, p: Piece, t: string)
    requires (p.Itself? ==> Unreserved(p.c)) && (p.Escape? ==> !p.lowerHigh && !p.lowerLow)
    ensures Scan(st, PieceText(p) + t) == Scan(Amend(st, [PieceChar(p)]), t)
  {
    var s := PieceText(p) + t;
    if p.Escape? {
      HexRead(p.high, false);
      HexRead(p.low, false);
      assert s[0] == '%' && s[1] == Hex(p.high, false) && s[2] == Hex(p.low, false) && s[3..] == t;
    } else {
      assert s[1..] == t;
    }
  }

  /** The parser stops, for good, at a character that is no piece of a form: one that is reserved, or a
      percent sign without two upper-case digits behind it. */
  lemma ScanStopsIff(st: Scanner, c: char, t: string)
    requires !Unreserved(c) && c != '+' && c != '=' && c != '&'
    requires c == '%' ==> |t| < 2 || !(UpperHex(t[0]) && UpperHex(t[1]))
    ensures Scan(st, [c] + t) == st
  {
  }

  // ---- escapes that are not quite right ---------------------------------------------------------

  function SkipWhite(s: string): string {
    if s != "" && White(s[0]) then SkipWhite(s[1..]) else s
  }

  /** The number that the leading hexadecimal digits are, if there are any. */
  function Leading(s: string): Option<nat> {
    if s == "" || HexValue(s[0]) == None then None else Some(More(HexValue(s[0]).value, s[1..]))
  }

  function More(n: nat, s: string): nat
    decreases |s|
  {
    if s == "" || HexValue(s[0]) == None then n else More(16 * n + HexValue(s[0]).value, s[1..])
  }

  /** A number in base 16 behind white space and a sign, as the C library reads it. */
  function Number16(s: string): Option<int> {
    var t := SkipWhite(s);
    var digits := if t != "" && (t[0] == '-' || t[0] == '+') then Leading(t[1..]) else Leading(t);
    match digits
    case None => None
    case Some(n) => Some(if t[0] == '-' then 0 - n as int else n)
  }

  /** Two characters behind a percent sign are converted as a number, of which a byte is kept; the decoding
      fails exactly if they are none. */
  lemma HexPairIsNumber(a: char, b: char)
    ensures HexPair(a, b) == match Number16([a, b])
                             case None => None
                             case Some(n) => Some((n % 256) as char)
  {
    LeadingTwo(a, b);
    LeadingOne(b);
    WhiteTwo(a, b);
    hide Leading, SkipWhite, HexValue;
    assert [a, b][1..] == [b] && [b][1..] == "";
    assert Leading("") == None by {
      LeadingNothing();
    }
    NotBoth(a);
    NotBoth(b);
  }

  lemma LeadingNothing()
    ensures Leading("") == None
  {
  }

  lemma LeadingOne(b: char)
    ensures Leading([b]) == HexValue(b)
  {
    assert [b][1..] == "";
  }

  lemma LeadingTwo(a: char, b: char)
    ensures Leading([a, b]) == match (HexValue(a), HexValue(b))
                               case (Some(h), Some(l)) => Some(16 * h + l)
                               case (Some(h), None) => Some(h)
                               case _ => None
  {
    assert [a, b][1..] == [b] && [b][1..] == "";
    if HexValue(a).Some? {
      assert More(HexValue(a).value, [b])
          == if HexValue(b) == None then HexValue(a).value else More(16 * HexValue(a).value + HexValue(b).value, "");
    }
  }

  predicate White(c: char) { c == ' ' || '\t' <= c <= '\r' }

  lemma WhiteTwo(a: char, b: char)
    ensures SkipWhite([a, b]) == if !White(a) then [a, b] else if !White(b) then [b] else ""
  {
    assert [a, b][1..] == [b] && [b][1..] == "";
    assert SkipWhite([b]) == if White(b) then SkipWhite("") else [b];
  }

  lemma NotBoth(a: char)
    ensures HexValue(a).Some? ==> !White(a) && a != '-' && a != '+' && HexValue(a).value < 16
    ensures White(a) || a == '-' || a == '+' ==> HexValue(a) == None
  {
  }

  /** A percent sign with fewer than two characters behind it stands for itself. */
  lemma LonePercent(t: string)
    requires |t| < 2
    ensures Decode("%" + t) == match Decode(t)
                               case None => None
                               case Some(d) => Some("%" + d)
  {
    assert ("%" + t)[1..] == t;
  }
}
