/**
 * The reference fixed point of the reachability benchmark: for every seed, sweep the
 * edges until nothing is added, then mark each node that was reached with the seed's bit.
 */
module FullScan {
  import opened Base

  type Edge = (string, string)

  // ---------------------------------------------------------------- words

  /** A `u32` as the set of positions of its one bits: `|` is union and zero is the empty set. */
  type Word = set<nat>

  /** `1_u32 << k`; an optimised build takes the shift modulo the width. */
  function Unit(k: nat): Word {
    {k % 32}
  }

  // ---------------------------------------------------------------- reachability

  /** A walk along the edges, from caller to callee. */
  ghost predicate Path(edges: seq<Edge>, p: seq<string>) {
    p != [] && forall i :: 0 <= i < |p| - 1 ==> (p[i], p[i + 1]) in edges
  }

  ghost predicate Reaches(edges: seq<Edge>, from: string, to: string) {
    exists p | Path(edges, p) :: p[0] == from && p[|p| - 1] == to
  }

  lemma ReachesItself(edges: seq<Edge>, n: string)
    ensures Reaches(edges, n, n)
  {
    assert Path(edges, [n]);
  }

  lemma ReachesThrough(edges: seq<Edge>, from: string, via: string, to: string)
    requires (from, via) in edges && Reaches(edges, via, to)
    ensures Reaches(edges, from, to)
  {
    var p :| Path(edges, p) && p[0] == via && p[|p| - 1] == to;
    var q := [from] + p;
    assert forall i :: 0 < i < |q| - 1 ==> (q[i], q[i + 1]) == (p[i - 1], p[i]);
    assert Path(edges, q);
  }

  /** No edge leads from outside `seen` into it. */
  predicate Closed(edges: seq<Edge>, seen: set<string>) {
    forall e | e in edges :: e.1 in seen ==> e.0 in seen
  }

  lemma {:induction false} ClosedHoldsPath(edges: seq<Edge>, seen: set<string>, p: seq<string>)
    requires Closed(edges, seen) && Path(edges, p) && p[|p| - 1] in seen
    ensures p[0] in seen
  {
    if |p| > 1 {
      assert Path(edges, p[1..]);
      ClosedHoldsPath(edges, seen, p[1..]);
      assert (p[0], p[1]) in edges;
    }
  }

  function Sources(edges: seq<Edge>): set<string> {
    set e | e in edges :: e.0
  }

  /** Whether a node reaches this seed; a missing seed is reached by none. */
  ghost predicate Hits(edges: seq<Edge>, seed: Option<string>, n: string) {
    seed.Some? && Reaches(edges, n, seed.value)
  }

  /** One round over the edges: sound for the seed, and at a fixed point only if closed. */
  method Sweep(edges: seq<Edge>, before: set<string>, ghost seed: Option<string>) returns (seen: set<string>)
    requires forall n | n in before :: Hits(edges, seed, n)
    ensures before <= seen <= before + Sources(edges)
    ensures seen == before ==> Closed(edges, before)
    ensures forall n | n in seen :: Hits(edges, seed, n)
  {
    hide Reaches;
    seen := before;
    for i := 0 to |edges|
      invariant before <= seen <= before + Sources(edges)
      invariant forall j :: 0 <= j < i && edges[j].1 in before ==> edges[j].0 in seen
      invariant forall n | n in seen :: Hits(edges, seed, n)
    {
      var (from, to) := edges[i];
      if to in seen {
        assert edges[i] == (from, to);
        ReachesThrough(edges, from, to, seed.value);
        seen := seen + {from};
      }
    }
  }

  lemma SubsetSize<T>(a: set<T>, b: set<T>)
    requires a <= b
    ensures |a| <= |b|
    ensures |a| == |b| ==> a == b
  {
    assert b == a + (b - a);
    assert |b| == |a| + |b - a|;
  }

  /** The rounds for one seed end, and end with exactly the nodes that reach it. */
  method Saturate(edges: seq<Edge>, seed: Option<string>) returns (seen: set<string>)
    ensures forall n :: n in seen <==> Hits(edges, seed, n)
  {
    hide Reaches;
    seen := {};
    if seed.Some? {
      seen := {seed.value};
      ReachesItself(edges, seed.value);
    }
    ghost var start := seen;
    var grown := true;
    while grown
      invariant start <= seen <= start + Sources(edges)
      invariant forall n | n in seen :: Hits(edges, seed, n)
      invariant !grown ==> Closed(edges, seen)
      decreases |start + Sources(edges) - seen|, grown
    {
      var before := seen;
      seen := Sweep(edges, before, seed);
      SubsetSize(before, seen);
      SubsetSize(start + Sources(edges) - seen, start + Sources(edges) - before);
      grown := |seen| != |before|;
    }
    forall n | Hits(edges, seed, n)
      ensures n in seen
    {
      ClosedHolds(edges, seen, n, seed.value);
    }
  }

  lemma ClosedHolds(edges: seq<Edge>, seen: set<string>, from: string, to: string)
    requires Closed(edges, seen) && to in seen && Reaches(edges, from, to)
    ensures from in seen
  {
    var p :| Path(edges, p) && p[0] == from && p[|p| - 1] == to;
    ClosedHoldsPath(edges, seen, p);
  }

  // ---------------------------------------------------------------- the scan

  type Masks = map<string, Word>

  /** Some seed among the first `k` that has bit `b` is reached from `n`. */
  ghost predicate Marked(edges: seq<Edge>, seeds: seq<Option<string>>, k: nat, n: string, b: nat)
    requires k <= |seeds|
  {
    exists j | 0 <= j < k :: Hits(edges, seeds[j], n) && j % 32 == b
  }

  /** The masks that the first `k` seeds call for. */
  ghost predicate MasksFor(edges: seq<Edge>, seeds: seq<Option<string>>, k: nat, masks: Masks)
    requires k <= |seeds|
  {
    && (forall n | n in masks :: exists j | 0 <= j < k :: Hits(edges, seeds[j], n))
    && (forall j, n | 0 <= j < k && Hits(edges, seeds[j], n) :: n in masks)
    && (forall n, b: nat | n in masks :: b in masks[n] <==> Marked(edges, seeds, k, n, b))
  }

  function Lookup(masks: Masks, n: string): Word {
    if n in masks then masks[n] else {}
  }

  /** One more bit for every node of `seen`. */
  ghost function Marking(masks: Masks, seen: set<string>, k: nat): Masks {
    map n | n in masks.Keys + seen :: if n in seen then Lookup(masks, n) + Unit(k) else masks[n]
  }

  lemma MarkingOneMore(masks: Masks, seen: set<string>, k: nat, n: string)
    requires n !in seen
    ensures var r := Marking(masks, seen, k);
      Marking(masks, seen + {n}, k) == r[n := Lookup(r, n) + Unit(k)]
  {
  }

  /** The marking loop, in whatever order the set is visited. */
  method Mark(masks: Masks, seen: set<string>, k: nat) returns (r: Masks)
    ensures r == Marking(masks, seen, k)
  {
    hide Unit, Lookup;
    r := masks;
    var rest := seen;
    assert masks == Marking(masks, seen - rest, k);
    while rest != {}
      invariant rest <= seen
      invariant r == Marking(masks, seen - rest, k)
      decreases |rest|
    {
      hide Marking;
      var n :| n in rest;
      MarkingOneMore(masks, seen - rest, k, n);
      assert seen - (rest - {n}) == (seen - rest) + {n};
      r := r[n := Lookup(r, n) + Unit(k)];
      rest := rest - {n};
    }
    assert seen - rest == seen;
  }

  lemma MasksForMore(edges: seq<Edge>, seeds: seq<Option<string>>, k: nat, masks: Masks, seen: set<string>, r: Masks)
    requires k < |seeds| && MasksFor(edges, seeds, k, masks)
    requires forall n :: n in seen <==> Hits(edges, seeds[k], n)
    requires r == Marking(masks, seen, k)
    ensures MasksFor(edges, seeds, k + 1, r)
  {
    hide Hits;
    forall n, b: nat | n in r
      ensures b in r[n] <==> Marked(edges, seeds, k + 1, n, b)
    {
      assert n !in masks ==> !Marked(edges, seeds, k, n, b);
    }
  }

  /** `full_scan`: every mask, for every edge list and any number of seeds. */
  method FullScan(edges: seq<Edge>, seeds: seq<Option<string>>) returns (result: Masks)
    ensures MasksFor(edges, seeds, |seeds|, result)
  {
    hide Hits, MasksFor;
    result := map[];
    assert MasksFor(edges, seeds, 0, map[]) by { NoMasks(edges, seeds); }
    for k := 0 to |seeds|
      invariant MasksFor(edges, seeds, k, result)
    {
      var seen := Saturate(edges, seeds[k]);
      var marked := Mark(result, seen, k);
      MasksForMore(edges, seeds, k, result, seen, marked);
      result := marked;
    }
  }

  lemma NoMasks(edges: seq<Edge>, seeds: seq<Option<string>>)
    ensures MasksFor(edges, seeds, 0, map[])
  {
  }

  // ---------------------------------------------------------------- consequences

  /** With at most 32 seeds each has its own bit: bit `b` says that seed `b` is reached. */
  lemma OneBitPerSeed(edges: seq<Edge>, seeds: seq<Option<string>>, masks: Masks)
    requires |seeds| <= 32 && MasksFor(edges, seeds, |seeds|, masks)
    ensures forall n, b: nat | b < |seeds| ::
      n in masks && b in masks[n] <==> seeds[b].Some? && Reaches(edges, n, seeds[b].value)
    ensures forall n, b: nat | n in masks && |seeds| <= b :: b !in masks[n]
  {
    hide Reaches;
    forall n, b: nat | n in masks && b in masks[n]
      ensures b < |seeds|
    {
      assert Marked(edges, seeds, |seeds|, n, b);
    }
    forall n, b: nat | b < |seeds|
      ensures n in masks && b in masks[n] <==> Hits(edges, seeds[b], n)
    {
      assert b % 32 == b;
      assert Marked(edges, seeds, |seeds|, n, b) <==> Hits(edges, seeds[b], n);
    }
  }

  /** A thirty-third seed shares the first one's bit. */
  lemma ThirtyThirdSeedShares(edges: seq<Edge>, seeds: seq<Option<string>>, masks: Masks, n: string)
    requires |seeds| == 33 && MasksFor(edges, seeds, 33, masks)
    requires Hits(edges, seeds[32], n)
    ensures n in masks && 0 in masks[n]
  {
    assert Marked(edges, seeds, 33, n, 0);
  }

  lemma SameEdgesSameReach(edges: seq<Edge>, edges': seq<Edge>, from: string, to: string)
    requires forall e :: e in edges <==> e in edges'
    ensures Reaches(edges, from, to) <==> Reaches(edges', from, to)
  {
    if Reaches(edges, from, to) {
      var p :| Path(edges, p) && p[0] == from && p[|p| - 1] == to;
      assert Path(edges', p);
    }
    if Reaches(edges', from, to) {
      var p :| Path(edges', p) && p[0] == from && p[|p| - 1] == to;
      assert Path(edges, p);
    }
  }

  /** The result depends on the edges as a set: neither their order nor repetition matters. */
  lemma EdgeOrderIsIrrelevant(edges: seq<Edge>, edges': seq<Edge>, seeds: seq<Option<string>>, m: Masks, m': Masks)
    requires forall e :: e in edges <==> e in edges'
    requires MasksFor(edges, seeds, |seeds|, m) && MasksFor(edges', seeds, |seeds|, m')
    ensures m == m'
  {
    forall j, n | 0 <= j < |seeds|
      ensures Hits(edges, seeds[j], n) <==> Hits(edges', seeds[j], n)
    {
      if seeds[j].Some? {
        SameEdgesSameReach(edges, edges', n, seeds[j].value);
      }
    }
    hide Hits;
    assert forall n :: n in m <==> n in m';
    forall n | n in m
      ensures m[n] == m'[n]
    {
      assert forall b: nat :: b in m[n] <==> b in m'[n];
    }
  }
}
