/**
 * The search of a capsule's artifacts for private build paths, reading each file
 * in chunks and carrying a tail from one window to the next.
 */
module ChunkedSearch {
  import opened Base
  import opened Chunks

  type Bytes = seq<bv8>

  /** The byte `/`, with which an absolute path begins. */
  const SLASH: bv8 := 0x2f

  predicate OccursAt(v: Bytes, w: Bytes, i: int) {
    0 <= i <= |w| - |v| && w[i..i + |v|] == v
  }

  /** `v in w`: `v` is a contiguous part of `w`. */
  predicate Occurs(v: Bytes, w: Bytes) {
    exists i | 0 <= i <= |w| - |v| :: OccursAt(v, w, i)
  }

  predicate Contains(w: Bytes, forbidden: seq<Bytes>) {
    exists v | v in forbidden :: Occurs(v, w)
  }

  function Matches(w: Bytes, forbidden: seq<Bytes>): set<Bytes> {
    set v | v in forbidden && Occurs(v, w)
  }

  /** A file as the reads deliver it: none of them is empty before the end. */
  predicate Reads(chunks: seq<Bytes>) {
    forall k :: 0 <= k < |chunks| ==> chunks[k] != []
  }

  /** The absolute paths, except the root itself. */
  function Forbidden(paths: seq<Bytes>): (r: seq<Bytes>)
    ensures forall v :: v in r <==> v in paths && |v| >= 2 && v[0] == SLASH
  {
    if paths == [] then
      []
    else
      var p := paths[0];
      if p != [] && p[0] == SLASH && p != [SLASH] then [p] + Forbidden(paths[1..]) else Forbidden(paths[1..])
  }

  function MaxLength(values: seq<Bytes>): (n: nat)
    ensures forall v | v in values :: |v| <= n
    ensures values != [] ==> exists v | v in values :: |v| == n
  {
    if values == [] then
      0
    else
      var rest := MaxLength(values[1..]);
      if |values[0]| >= rest then |values[0]| else rest
  }

  /** An occurrence in a part is an occurrence in the whole. */
  lemma OccursInPart(v: Bytes, w: Bytes, whole: Bytes, from: nat)
    requires from + |w| <= |whole| && whole[from..from + |w|] == w
    requires Occurs(v, w)
    ensures Occurs(v, whole)
  {
    var i :| 0 <= i <= |w| - |v| && OccursAt(v, w, i);
    assert forall j :: 0 <= j < |w| ==> w[j] == whole[from..from + |w|][j] == whole[from + j];
    assert whole[from + i..from + i + |v|] == v;
    assert OccursAt(v, whole, from + i);
  }

  /**
   * A value no longer than the overlap plus one that occurs in the bytes read so far
   * occurred before the last chunk or occurs in the window made of tail and chunk.
   */
  lemma WindowIsEnough(v: Bytes, consumed: Bytes, chunk: Bytes, overlap: nat)
    requires 1 <= |v| <= overlap + 1
    ensures Occurs(v, consumed + chunk) <==> Occurs(v, consumed) || Occurs(v, Last(consumed, overlap) + chunk)
  {
    var whole, tail := consumed + chunk, Last(consumed, overlap);
    var cut := |consumed| - |tail|;
    assert whole[cut..] == tail + chunk;
    if Occurs(v, consumed) {
      OccursInPart(v, consumed, whole, 0);
    }
    if Occurs(v, tail + chunk) {
      OccursInPart(v, tail + chunk, whole, cut);
    }
    if Occurs(v, whole) {
      var i :| 0 <= i <= |whole| - |v| && OccursAt(v, whole, i);
      if i + |v| <= |consumed| {
        assert consumed[i..i + |v|] == whole[i..i + |v|];
        assert OccursAt(v, consumed, i);
      } else {
        assert (tail + chunk)[i - cut..i - cut + |v|] == whole[i..i + |v|];
        assert OccursAt(v, tail + chunk, i - cut);
      }
    }
  }

  /** One turn of the loop: the window finds all that is found so far, and yields the next tail. */
  lemma WindowStep(chunks: seq<Bytes>, k: nat, forbidden: seq<Bytes>, overlap: nat)
    requires k < |chunks|
    requires forall v | v in forbidden :: 1 <= |v| <= overlap + 1
    requires !Contains(Join(chunks[..k]), forbidden)
    ensures var window := Last(Join(chunks[..k]), overlap) + chunks[k];
      && Matches(window, forbidden) == Matches(Join(chunks[..k + 1]), forbidden)
      && (Matches(window, forbidden) == {} <==> !Contains(Join(chunks[..k + 1]), forbidden))
      && Last(window, overlap) == Last(Join(chunks[..k + 1]), overlap)
  {
    var consumed := Join(chunks[..k]);
    var window := Last(consumed, overlap) + chunks[k];
    JoinPrefix(chunks, k);
    TailCarries(consumed, chunks[k], overlap);
    hide Join, Last, Occurs;
    forall v | v in forbidden
      ensures Occurs(v, consumed + chunks[k]) <==> Occurs(v, window)
    {
      WindowIsEnough(v, consumed, chunks[k], overlap);
    }
    var all := consumed + chunks[k];
    if Contains(all, forbidden) {
      var v :| v in forbidden && Occurs(v, all);
      assert v in Matches(all, forbidden);
    }
    assert forall v :: v in Matches(all, forbidden) ==> v in forbidden && Occurs(v, all);
  }

  /**
   * The search of one artifact. It stops after `read` chunks, at the first point where
   * the bytes read so far hold a forbidden value, and reports exactly those they hold.
   */
  method SearchArtifact(chunks: seq<Bytes>, forbidden: seq<Bytes>) returns (matches: set<Bytes>, read: nat)
    requires Reads(chunks)
    requires forbidden != [] && forall v | v in forbidden :: v != []
    ensures read <= |chunks|
    ensures matches == Matches(Join(chunks[..read]), forbidden)
    ensures forall k :: 0 <= k < read ==> !Contains(Join(chunks[..k]), forbidden)
    ensures matches != {} <==> Contains(Join(chunks), forbidden)
    ensures matches == {} ==> read == |chunks|
  {
    hide Occurs, Join, MaxLength, Contains;
    NothingInNothing(forbidden);
    assert chunks[..0] == [];
    var overlap := MaxLength(forbidden) - 1;
    var tail: Bytes := [];
    read := 0;
    while read < |chunks|
      invariant read <= |chunks|
      invariant tail == Last(Join(chunks[..read]), overlap)
      invariant forall k :: 0 <= k <= read ==> !Contains(Join(chunks[..k]), forbidden)
    {
      var window := tail + chunks[read];
      matches := set v | v in forbidden && Occurs(v, window);
      WindowStep(chunks, read, forbidden, overlap);
      read := read + 1;
      if matches != {} {
        FoundInPrefix(chunks, read, forbidden);
        return;
      }
      tail := if overlap == 0 then [] else Last(window, overlap);
    }
    assert chunks[..read] == chunks;
    matches := {};
    NoMatches(Join(chunks), forbidden);
  }

  lemma NothingInNothing(forbidden: seq<Bytes>)
    requires forall v | v in forbidden :: v != []
    ensures Join<bv8>([]) == [] && !Contains([], forbidden)
  {
  }

  lemma NoMatches(w: Bytes, forbidden: seq<Bytes>)
    requires !Contains(w, forbidden)
    ensures Matches(w, forbidden) == {}
  {
  }

  lemma FoundInPrefix(chunks: seq<Bytes>, k: nat, forbidden: seq<Bytes>)
    requires k <= |chunks| && Contains(Join(chunks[..k]), forbidden)
    ensures Contains(Join(chunks), forbidden)
  {
    JoinSplits(chunks, k);
    hide Join, Occurs;
    var read, rest := Join(chunks[..k]), Join(chunks[k..]);
    var v :| v in forbidden && Occurs(v, read);
    OccursInPart(v, read, read + rest, 0);
  }

  /** Some private path of the builder is written somewhere in this file. */
  predicate Leaks(content: Bytes, paths: seq<Bytes>) {
    exists p | p in paths :: |p| >= 2 && p[0] == SLASH && Occurs(p, content)
  }

  /** The whole check: it refuses the first artifact that holds a private path, and only then. */
  method VerifyCapsule(artifacts: seq<seq<Bytes>>, paths: seq<Bytes>) returns (refused: Option<nat>)
    requires forall k :: 0 <= k < |artifacts| ==> Reads(artifacts[k])
    ensures refused.None? <==> forall k :: 0 <= k < |artifacts| ==> !Leaks(Join(artifacts[k]), paths)
    ensures refused.Some? ==>
      && refused.value < |artifacts|
      && Leaks(Join(artifacts[refused.value]), paths)
      && forall k :: 0 <= k < refused.value ==> !Leaks(Join(artifacts[k]), paths)
  {
    var forbidden := Forbidden(paths);
    if forbidden == [] {
      assert forall p | p in paths :: p !in forbidden;
      return None;
    }
    for i := 0 to |artifacts|
      invariant forall k :: 0 <= k < i ==> !Leaks(Join(artifacts[k]), paths)
    {
      var matches, _ := SearchArtifact(artifacts[i], forbidden);
      assert Contains(Join(artifacts[i]), forbidden) <==> Leaks(Join(artifacts[i]), paths);
      if matches != {} {
        return Some(i);
      }
    }
    return None;
  }
}
