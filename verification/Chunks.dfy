/** Data that arrives in chunks: the joined whole and its last part. */
module Chunks {

  function Join<T>(chunks: seq<seq<T>>): seq<T> {
    if chunks == [] then [] else Join(chunks[..|chunks| - 1]) + chunks[|chunks| - 1]
  }

  /** The last `n` elements, or all of them where there are fewer. */
  function Last<T>(s: seq<T>, n: nat): seq<T> {
    if |s| <= n then s else s[|s| - n..]
  }

  lemma JoinPrefix<T>(chunks: seq<seq<T>>, k: nat)
    requires k < |chunks|
    ensures Join(chunks[..k + 1]) == Join(chunks[..k]) + chunks[k]
  {
    assert chunks[..k + 1][..k] == chunks[..k];
  }

  lemma {:induction false} JoinSplits<T>(chunks: seq<seq<T>>, k: nat)
    requires k <= |chunks|
    ensures Join(chunks) == Join(chunks[..k]) + Join(chunks[k..])
  {
    if k == |chunks| {
      assert chunks[..k] == chunks;
    } else {
      var n := |chunks| - 1;
      JoinSplits(chunks[..n], k);
      assert chunks[..n][..k] == chunks[..k];
      assert chunks[..n][k..] == chunks[k..][..n - k];
    }
  }

  lemma JoinFirst<T>(first: seq<T>, rest: seq<seq<T>>)
    ensures Join([first] + rest) == first + Join(rest)
  {
    var all := [first] + rest;
    JoinSplits(all, 1);
    assert all[..1] == [first] && all[1..] == rest;
    assert Join([first]) == [] + first;
  }

  /** A bounded tail carried from chunk to chunk is the tail of the whole. */
  lemma TailCarries<T>(s: seq<T>, chunk: seq<T>, n: nat)
    ensures Last(Last(s, n) + chunk, n) == Last(s + chunk, n)
  {
  }
}
