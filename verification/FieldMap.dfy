/** The multimap of field names and values, in which forms and multipart payloads are kept.
 */
module FieldMap {

  /** A multimap: entries in the order of their names, those of one name in the order they came. */
  datatype Entry = Entry(name: string, value: string)

  type FieldValueMap = seq<Entry>

  /** An entry as the printers are given it: the value may be the path of a file. */
  datatype FieldEntry = FieldEntry(name: string, value: string, isFilePath: bool)

  predicate HasFilePath(values: seq<FieldEntry>) {
    exists i :: 0 <= i < |values| && values[i].isFilePath
  }

  function Plain(values: seq<FieldEntry>): FieldValueMap {
    seq(|values|, i requires 0 <= i < |values| => Entry(values[i].name, values[i].value))
  }

  predicate Less(a: string, b: string) {
    b != "" && (a == "" || a[0] < b[0] || (a[0] == b[0] && Less(a[1..], b[1..])))
  }

  function Insert(m: FieldValueMap, e: Entry): FieldValueMap {
    if m == [] || Less(e.name, m[0].name) then [e] + m else [m[0]] + Insert(m[1..], e)
  }

  predicate Sorted(m: FieldValueMap) {
    forall i, j :: 0 <= i < j < |m| ==> !Less(m[j].name, m[i].name)
  }

  /** An entry whose name precedes no other goes to the end. */
  lemma {:induction false} InsertLast(m: FieldValueMap, e: Entry)
    requires forall i :: 0 <= i < |m| ==> !Less(e.name, m[i].name)
    ensures Insert(m, e) == m + [e]
  {
    if m != [] {
      InsertLast(m[1..], e);
      assert m == [m[0]] + m[1..];
    }
  }

  lemma {:induction false} LessTransitive(a: string, b: string, c: string)
    requires Less(a, b) && !Less(c, b)
    ensures Less(a, c)
  {
    if a != "" && b != "" && c != "" && a[0] == b[0] == c[0] {
      LessTransitive(a[1..], b[1..], c[1..]);
    }
  }

  lemma {:induction false} LessAsymmetric(a: string, b: string)
    requires Less(a, b)
    ensures !Less(b, a)
  {
    if a != "" && b != "" && a[0] == b[0] {
      LessAsymmetric(a[1..], b[1..]);
    }
  }

  lemma {:induction false} LessIrreflexive(a: string)
    ensures !Less(a, a)
  {
    if a != "" {
      LessIrreflexive(a[1..]);
    }
  }

  /** The entries of a map after one more is put in are those and that one. */
  lemma {:induction false} InsertEntries(m: FieldValueMap, e: Entry)
    ensures forall x :: x in Insert(m, e) <==> x in m || x == e
  {
    hide Less;
    if m != [] && !Less(e.name, m[0].name) {
      InsertEntries(m[1..], e);
      assert m == [m[0]] + m[1..];
    }
  }

  lemma {:induction false} InsertSorted(m: FieldValueMap, e: Entry)
    requires Sorted(m)
    ensures Sorted(Insert(m, e))
  {
    if m != [] && !Less(e.name, m[0].name) {
      InsertSorted(m[1..], e);
      InsertEntries(m[1..], e);
      var rest := Insert(m[1..], e);
      hide Less, Insert;
      forall j | 0 <= j < |rest|
        ensures !Less(rest[j].name, m[0].name)
      {
        assert rest[j] in rest;
        if rest[j] in m[1..] {
          var k :| 0 <= k < |m[1..]| && m[1..][k] == rest[j];
          assert m[k + 1] == rest[j];
        }
      }
      FrontSorted(m[0], rest);
    } else if m != [] {
      hide Insert;
      forall j | 0 <= j < |m|
        ensures !Less(m[j].name, e.name)
      {
        LessIrreflexive(m[0].name);
        LessTransitive(e.name, m[0].name, m[j].name);
        LessAsymmetric(e.name, m[j].name);
      }
      FrontSorted(e, m);
    }
  }

  lemma FrontSorted(first: Entry, rest: FieldValueMap)
    requires Sorted(rest) && forall j :: 0 <= j < |rest| ==> !Less(rest[j].name, first.name)
    ensures Sorted([first] + rest)
  {
    hide Less;
  }

  /** The values of one name, in order. */
  function Values(m: FieldValueMap, name: string): seq<string> {
    if m == [] then [] else (if m[0].name == name then [m[0].value] else []) + Values(m[1..], name)
  }

  lemma {:induction false} NoValues(m: FieldValueMap, name: string)
    requires forall j :: 0 <= j < |m| ==> m[j].name != name
    ensures Values(m, name) == []
  {
    if m != [] {
      NoValues(m[1..], name);
    }
  }

  /** A new entry comes behind the others of its name and changes nothing about other names. */
  lemma {:induction false} InsertValues(m: FieldValueMap, e: Entry, name: string)
    requires Sorted(m)
    ensures Values(Insert(m, e), name) == Values(m, name) + if e.name == name then [e.value] else []
  {
    if m == [] || Less(e.name, m[0].name) {
      assert ([e] + m)[1..] == m;
      if e.name == name && m != [] {
        NamesBehind(m, e.name);
        NoValues(m, name);
      }
    } else {
      hide Less;
      InsertValues(m[1..], e, name);
      assert ([m[0]] + Insert(m[1..], e))[1..] == Insert(m[1..], e);
    }
  }

  /** A name that precedes the first precedes all. */
  lemma NamesBehind(m: FieldValueMap, name: string)
    requires Sorted(m) && m != [] && Less(name, m[0].name)
    ensures forall j :: 0 <= j < |m| ==> m[j].name != name
  {
    forall j | 0 <= j < |m|
      ensures m[j].name != name
    {
      LessIrreflexive(m[j].name);
      if j > 0 {
        LessTransitive(name, m[0].name, m[j].name);
      }
    }
  }

  lemma {:induction false} ValuesSplit(a: FieldValueMap, b: FieldValueMap, name: string)
    ensures Values(a + b, name) == Values(a, name) + Values(b, name)
  {
    if a == [] {
      assert a + b == b;
    } else {
      assert (a + b)[1..] == a[1..] + b;
      ValuesSplit(a[1..], b, name);
    }
  }
}
