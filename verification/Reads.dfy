/** A stream cut into the reads it arrives in. */
module Reads {

  function Concat<T>(chunks: seq<seq<T>>): seq<T> {
    if chunks == [] then [] else chunks[0] + Concat(chunks[1..])
  }

  lemma {:induction false} ConcatSplits<T>(chunks: seq<seq<T>>, i: nat)
    requires i <= |chunks|
    ensures Concat(chunks) == Concat(chunks[..i]) + Concat(chunks[i..])
  {
    if i > 0 {
      ConcatSplits(chunks[1..], i - 1);
      assert chunks[..i][1..] == chunks[1..][..i - 1] && chunks[1..][i - 1..] == chunks[i..];
      assert Concat(chunks[..i]) == chunks[0] + Concat(chunks[..i][1..]);
    } else {
      assert chunks[0..] == chunks;
    }
  }

  /** The stream grows by the next read. */
  lemma ConcatNext<T>(chunks: seq<seq<T>>, i: nat)
    requires i < |chunks|
    ensures Concat(chunks[..i + 1]) == Concat(chunks[..i]) + chunks[i]
  {
    var taken := chunks[..i + 1];
    ConcatSplits(taken, i);
    assert taken[..i] == chunks[..i] && taken[i..] == [chunks[i]];
    assert [chunks[i]][1..] == [];
  }
}
