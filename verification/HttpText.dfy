/** The text primitives of the HTTP parser: blanks, words, lines, header names and numbers. */
module HttpText {
  import opened Wrappers

  const TWO_TO_THE_64 := 0x1_0000_0000_0000_0000

  // ---- blanks and words -------------------------------------------------------------------------

  predicate IsBlank(c: char) { c == ' ' || c == '\t' }

  predicate IsTrailing(c: char) { IsBlank(c) || c == '\r' }

  /** The characters that separate words: tab to carriage return, and space. */
  predicate IsSpace(c: char) { c == ' ' || '\t' <= c <= '\r' }

  function TrimLeft(s: string): string {
    if s != "" && IsBlank(s[0]) then TrimLeft(s[1..]) else s
  }

  function TrimRight(s: string): string {
    if s != "" && IsTrailing(s[|s| - 1]) then TrimRight(s[..|s| - 1]) else s
  }

  function Trim(s: string): string { TrimRight(TrimLeft(s)) }

  /** Text that trimming leaves as it is. */
  predicate Tight(s: string) {
    s == "" || (s[0] != ' ' && s[0] != '\t' && s[|s| - 1] != ' ' && s[|s| - 1] != '\t' && s[|s| - 1] != '\r')
  }

  lemma {:induction false} TrimmedRight(s: string, after: string)
    requires s == "" || !IsTrailing(s[|s| - 1])
    requires forall i :: 0 <= i < |after| ==> IsTrailing(after[i])
    ensures TrimRight(s + after) == s
    decreases |after|
  {
    if after == "" {
      assert s + after == s;
    } else {
      var n := |after| - 1;
      assert (s + after)[..|s + after| - 1] == s + after[..n];
      TrimmedRight(s, after[..n]);
    }
  }

  /** Trimming removes exactly the blanks around tight text, and a carriage return behind it. */
  lemma {:induction false} TrimRemoves(before: string, s: string, after: string)
    requires Tight(s) && (s == "" ==> after == "" || after[0] == '\r')
    requires forall i :: 0 <= i < |before| ==> before[i] == ' ' || before[i] == '\t'
    requires forall i :: 0 <= i < |after| ==> after[i] == ' ' || after[i] == '\t' || after[i] == '\r'
    ensures Trim(before + s + after) == s
    decreases |before|
  {
    var whole := before + s + after;
    if before == "" {
      assert whole == s + after;
      assert TrimLeft(s + after) == s + after;
      TrimmedRight(s, after);
    } else {
      assert whole[1..] == before[1..] + s + after;
      TrimRemoves(before[1..], s, after);
    }
  }

  predicate EndsWithCRLF(s: string) {
    |s| >= 2 && s[|s| - 2] == '\r' && s[|s| - 1] == '\n'
  }

  predicate Contains(s: string, c: char) { exists i :: 0 <= i < |s| && s[i] == c }

  /** The position of the first `c`, or the length of the text. */
  function IndexOf(s: string, c: char): (i: nat)
    ensures i <= |s| && (i < |s| ==> s[i] == c) && forall j :: 0 <= j < i ==> s[j] != c
  {
    if s == "" || s[0] == c then 0 else 1 + IndexOf(s[1..], c)
  }

  lemma FirstIndex(a: string, c: char, b: string)
    requires !Contains(a, c)
    ensures IndexOf(a + [c] + b, c) == |a|
  {
    var s := a + [c] + b;
    assert s[|a|] == c;
    assert forall i :: 0 <= i < |a| ==> s[i] == a[i];
  }

  /** Past the spaces from `i` on, and past the word from `i` on. */
  function SkipSpaces(s: string, i: nat): (j: nat)
    requires i <= |s|
    ensures i <= j <= |s| && (j < |s| ==> !IsSpace(s[j])) && forall k :: i <= k < j ==> IsSpace(s[k])
    decreases |s| - i
  {
    if i < |s| && IsSpace(s[i]) then SkipSpaces(s, i + 1) else i
  }

  function WordEnd(s: string, i: nat): (j: nat)
    requires i <= |s|
    ensures i <= j <= |s| && (j < |s| ==> IsSpace(s[j])) && forall k :: i <= k < j ==> !IsSpace(s[k])
    decreases |s| - i
  {
    if i < |s| && !IsSpace(s[i]) then WordEnd(s, i + 1) else i
  }

  function LineEnd(s: string, i: nat): (j: nat)
    requires i <= |s|
    ensures i <= j <= |s| && (j < |s| ==> s[j] == '\n') && forall k :: i <= k < j ==> s[k] != '\n'
    decreases |s| - i
  {
    if i < |s| && s[i] != '\n' then LineEnd(s, i + 1) else i
  }

  // ---- header names -----------------------------------------------------------------------------

  function UpperChar(c: char): char {
    if 'a' <= c <= 'z' then c - 'a' + 'A' else c
  }

  function Upper(s: string): string {
    seq(|s|, i requires 0 <= i < |s| => UpperChar(s[i]))
  }

  /** Raising the case turns exactly the letters from a to z into those from A to Z. */
  lemma UpperRaises(s: string)
    ensures |Upper(s)| == |s|
    ensures forall i :: 0 <= i < |s| ==>
              Upper(s)[i] == if 97 <= s[i] as nat <= 122 then (s[i] as nat - 32) as char else s[i]
  {
  }

  // ---- numbers ----------------------------------------------------------------------------------

  predicate IsDigit(c: char, base: nat) {
    DigitValue(c) < base
  }

  /** The value of a digit, upper or lower case; 36 for other characters. */
  function DigitValue(c: char): nat {
    if '0' <= c <= '9' then (c - '0') as nat
    else if 'a' <= c <= 'z' then (c - 'a') as nat + 10
    else if 'A' <= c <= 'Z' then (c - 'A') as nat + 10
    else 36
  }

  function DigitRun(s: string, base: nat): (n: nat)
    ensures n <= |s|
  {
    if s != "" && IsDigit(s[0], base) then 1 + DigitRun(s[1..], base) else 0
  }

  function Number(s: string, base: nat): nat {
    if s == "" then 0 else Number(s[..|s| - 1], base) * base + DigitValue(s[|s| - 1])
  }

  /** What `from_chars` reads: the leading digits, unless there are none or they exceed 64 bits. */
  function ParseNumber(s: string, base: nat): Option<nat> {
    var digits := s[..DigitRun(s, base)];
    if digits == "" || Number(digits, base) >= TWO_TO_THE_64 then None else Some(Number(digits, base))
  }

  function DigitChar(d: nat): char
    requires d < 16
  {
    if d < 10 then '0' + d as char else 'a' + (d - 10) as char
  }

  function Digits(n: nat, base: nat): string
    requires 2 <= base <= 16
  {
    if n < base then [DigitChar(n)] else Digits(n / base, base) + [DigitChar(n % base)]
  }

  /** The digits of base 16 and below, in either case, and no other characters. */
  lemma DigitsOfBase16(c: char)
    ensures IsDigit(c, 10) <==> '0' <= c <= '9'
    ensures IsDigit(c, 16) <==> '0' <= c <= '9' || 'a' <= c <= 'f' || 'A' <= c <= 'F'
    ensures 48 <= c as nat <= 57 ==> DigitValue(c) == c as nat - 48
    ensures 97 <= c as nat <= 102 ==> DigitValue(c) == c as nat - 87
    ensures 65 <= c as nat <= 70 ==> DigitValue(c) == c as nat - 55
  {
  }

  lemma DigitCharValue(d: nat, base: nat)
    requires d < base <= 16
    ensures DigitValue(DigitChar(d)) == d && IsDigit(DigitChar(d), base)
  {
  }

  lemma {:induction false} DigitsAreDigits(n: nat, base: nat)
    requires 2 <= base <= 16
    ensures Digits(n, base) != "" && Number(Digits(n, base), base) == n
    ensures forall i :: 0 <= i < |Digits(n, base)| ==> IsDigit(Digits(n, base)[i], base)
  {
    if n < base {
      DigitCharValue(n, base);
      assert Digits(n, base)[..0] == "";
    } else {
      DigitsAreDigits(n / base, base);
      LastDigit(Digits(n / base, base), n, base);
    }
  }

  lemma LastDigit(high: string, n: nat, base: nat)
    requires 2 <= base <= 16 && Number(high, base) == n / base
    ensures Number(high + [DigitChar(n % base)], base) == n
    ensures IsDigit(DigitChar(n % base), base)
  {
    hide DigitValue, DigitChar;
    var s := high + [DigitChar(n % base)];
    assert s[..|s| - 1] == high;
    DigitCharValue(n % base, base);
  }

  lemma {:induction false} DigitRunStops(s: string, rest: string, base: nat)
    requires forall i :: 0 <= i < |s| ==> IsDigit(s[i], base)
    requires rest == "" || !IsDigit(rest[0], base)
    ensures DigitRun(s + rest, base) == |s|
  {
    if s == "" {
      assert s + rest == rest;
    } else {
      assert (s + rest)[1..] == s[1..] + rest;
      DigitRunStops(s[1..], rest, base);
    }
  }

  /** A printed number reads back, whatever follows it, iff it fits 64 bits. */
  lemma PrintedNumberParses(n: nat, base: nat, rest: string)
    requires 2 <= base <= 16
    requires rest == "" || !IsDigit(rest[0], base)
    ensures ParseNumber(Digits(n, base) + rest, base) == if n < 0x1_0000_0000_0000_0000 then Some(n) else None
  {
    var s := Digits(n, base);
    DigitsAreDigits(n, base);
    DigitRunStops(s, rest, base);
    assert (s + rest)[..|s|] == s;
  }

  // ---- request lines ----------------------------------------------------------------------------

  /** What reading two words and the rest of a line takes from the front of a buffer.  `complete` says
      that the end of the line was found. */
  datatype RequestLine = RequestLine(method_: string, uri: string, version: string, next: nat, complete: bool)

  function ReadRequestLine(b: string): (r: RequestLine)
    ensures r.next <= |b| && (b != "" ==> r.next > 0)
  {
    var m0 := SkipSpaces(b, 0);
    var m1 := WordEnd(b, m0);
    if m1 == |b| then RequestLine(b[m0..m1], "", "", |b|, false)
    else
      var u0 := SkipSpaces(b, m1);
      var u1 := WordEnd(b, u0);
      if u1 == |b| then RequestLine(b[m0..m1], b[u0..u1], "", |b|, false)
      else
        var e := LineEnd(b, u1);
        RequestLine(b[m0..m1], b[u0..u1], b[u1..e], if e < |b| then e + 1 else e, e < |b|)
  }

  lemma {:induction false} SkipSpacesStable(s: string, t: string, i: nat)
    requires i <= |s| && SkipSpaces(s, i) < |s|
    ensures SkipSpaces(s + t, i) == SkipSpaces(s, i)
    decreases |s| - i
  {
    if i < |s| && IsSpace(s[i]) {
      SkipSpacesStable(s, t, i + 1);
    }
  }

  lemma {:induction false} WordEndStable(s: string, t: string, i: nat)
    requires i <= |s| && WordEnd(s, i) < |s|
    ensures WordEnd(s + t, i) == WordEnd(s, i)
    decreases |s| - i
  {
    if i < |s| && !IsSpace(s[i]) {
      WordEndStable(s, t, i + 1);
    }
  }

  lemma {:induction false} LineEndStable(s: string, t: string, i: nat)
    requires i <= |s| && LineEnd(s, i) < |s|
    ensures LineEnd(s + t, i) == LineEnd(s, i)
    decreases |s| - i
  {
    if i < |s| && s[i] != '\n' {
      LineEndStable(s, t, i + 1);
    }
  }

  /** A complete request line reads the same however much of the next lines is there already. */
  lemma RequestLineStable(b: string, t: string)
    requires ReadRequestLine(b).complete
    ensures ReadRequestLine(b + t) == ReadRequestLine(b)
  {
    var m0 := SkipSpaces(b, 0);
    var m1 := WordEnd(b, m0);
    var u0 := SkipSpaces(b, m1);
    var u1 := WordEnd(b, u0);
    var e := LineEnd(b, u1);
    SkipSpacesStable(b, t, 0);
    WordEndStable(b, t, m0);
    SkipSpacesStable(b, t, m1);
    WordEndStable(b, t, u0);
    LineEndStable(b, t, u1);
    SlicesStable(b, t, m0, m1);
    SlicesStable(b, t, u0, u1);
    SlicesStable(b, t, u1, e);
  }

  lemma SlicesStable(b: string, t: string, i: nat, j: nat)
    requires i <= j <= |b|
    ensures (b + t)[i..j] == b[i..j]
  {
  }

  /** Two words: a character that is no space, a space behind it, and another such character. */
  predicate TwoWords(line: string) {
    exists i, j, k :: 0 <= i < j < k < |line| && !IsSpace(line[i]) && IsSpace(line[j]) && !IsSpace(line[k])
  }

  /** A line with its end is complete iff it has two words. */
  lemma CompleteIff(line: string)
    requires EndsWithCRLF(line)
    ensures ReadRequestLine(line).complete <==> TwoWords(line)
  {
    var n := |line|;
    var m0 := SkipSpaces(line, 0);
    var m1 := WordEnd(line, m0);
    assert IsSpace(line[n - 1]);
    if m1 < n && SkipSpaces(line, m1) < n {
      var u0 := SkipSpaces(line, m1);
      var u1 := WordEnd(line, u0);
      assert !IsSpace(line[m0]) && IsSpace(line[m1]) && !IsSpace(line[u0]);
      assert u1 < n && LineEnd(line, u1) < n;
    }
  }

  /** The next character behind a line without two words belongs to its first or second word. */
  lemma NextWordCounts(line: string)
    requires EndsWithCRLF(line) && !TwoWords(line)
    ensures ReadRequestLine(line + "x") != ReadRequestLine(line)
  {
    hide TwoWords;
    CompleteIff(line);
    var m0 := SkipSpaces(line, 0);
    var m1 := WordEnd(line, m0);
    if m0 < |line| {
      assert IsSpace(line[|line| - 1]) && m1 < |line|;
      SkipSpacesStable(line, "x", 0);
      WordEndStable(line, "x", m0);
      NextWord(line, m1);
    } else {
      NextWord(line, 0);
    }
  }

  /** A character behind spaces is a word of its own. */
  lemma NextWord(line: string, i: nat)
    requires i <= |line| && SkipSpaces(line, i) == |line|
    ensures var longer := line + "x";
            SkipSpaces(longer, i) == |line| && WordEnd(longer, |line|) == |line| + 1 == |longer| && longer[|line|..] == "x"
  {
    var n, longer := |line|, line + "x";
    assert longer[n] == 'x';
    assert forall k :: 0 <= k < n ==> longer[k] == line[k];
  }
}
