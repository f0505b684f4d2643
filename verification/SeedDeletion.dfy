/** _safe_unlink_tree of scripts/cold_cache_authority.py: a recursive deletion that counts
    entries and bytes as it goes, against the closed form that the protocols use. */
module SeedDeletion {
  import opened Base
  import opened SeedTree
  import opened SeedObject
  import opened SeedProtocol

  /** The two running totals. */
  datatype Budget = Budget(entries: nat, bytes: nat)

  predicate Within(b: Budget) {
    b.entries <= MAX_ENTRIES && b.bytes <= MAX_BYTES
  }

  /** Delete a tree; `own` is what lstat reports for one entry. None where the deletion stops. */
  function Unlink(n: Node, own: Node -> nat, b: Budget): Option<Budget>
    decreases n
  {
    var b' := Budget(b.entries + 1, b.bytes + own(n));
    if !Within(b') then None
    else
      match n
      case Special => None
      case Dir(_, entries) => UnlinkAll(entries, own, b')
      case _ => Some(b')
  }

  function UnlinkAll(es: seq<Entry>, own: Node -> nat, b: Budget): Option<Budget>
    decreases es
  {
    if es == [] then Some(b)
    else
      var b' :- Unlink(es[0].node, own, b);
      UnlinkAll(es[1..], own, b')
  }

  /** All that lstat reports for a tree. */
  function Total(n: Node, own: Node -> nat): nat
    decreases n
  {
    own(n) + if n.Dir? then TotalAll(n.entries, own) else 0
  }

  function TotalAll(es: seq<Entry>, own: Node -> nat): nat
    decreases es
  {
    if es == [] then 0 else Total(es[0].node, own) + TotalAll(es[1..], own)
  }

  lemma {:induction false} UnlinkAdds(n: Node, own: Node -> nat, b: Budget)
    ensures var b' := Budget(b.entries + Weight(n), b.bytes + Total(n, own));
            Unlink(n, own, b) == if !HasSpecial(n) && Within(b') then Some(b') else None
    decreases n
  {
    if n.Dir? {
      var b1 := Budget(b.entries + 1, b.bytes + own(n));
      if Within(b1) {
        UnlinkAllAdds(n.entries, own, b1);
      }
    }
  }

  lemma {:induction false} UnlinkAllAdds(es: seq<Entry>, own: Node -> nat, b: Budget)
    requires Within(b)
    ensures var b' := Budget(b.entries + EntriesWeight(es), b.bytes + TotalAll(es, own));
            UnlinkAll(es, own, b) == if Removable(es) && Within(b') then Some(b') else None
    decreases es
  {
    if es != [] {
      UnlinkAdds(es[0].node, own, b);
      var b1 := Unlink(es[0].node, own, b);
      if b1.Some? {
        UnlinkAllAdds(es[1..], own, b1.value);
      }
    }
  }

  /** A deletion with a fresh budget goes through exactly if there is no special file and the
      whole tree keeps within both budgets, although they are checked entry by entry. */
  lemma DeletionIsExact(n: Node, own: Node -> nat)
    ensures Unlink(n, own, Budget(0, 0)).Some? <==> Deletable(n, (m: Node) => Total(m, own))
  {
    UnlinkAdds(n, own, Budget(0, 0));
  }

  /** A deletion that goes through can be met at any smaller tree on its way, and one that
      stops may leave any smaller tree that still has what stopped it. */
  lemma DeletionCanPause(s: Slot, name: Name, rest: Node, sizes: Sizes, done: Pc, stopped: Pc)
    requires name in s.candidates && rest.Dir? && Weight(rest) < Weight(s.candidates[name])
    ensures var s' := DropOwn(s, name, Input(Change, "", rest, sizes), done, stopped);
            && (Deletable(s.candidates[name], sizes) && Deletable(rest, sizes) ==>
                  s' == s.(candidates := s.candidates[name := rest]))
            && (!Deletable(s.candidates[name], sizes) && (HasSpecial(s.candidates[name]) ==> HasSpecial(rest)) ==>
                  s' == s.(candidates := s.candidates[name := rest], pc := stopped))
    ensures s.candidates.Keys == {name} ==>
            var s' := Discard(s, Input(Change, "", rest, sizes));
            && (Deletable(s.candidates[name], sizes) && Deletable(rest, sizes) ==>
                  s' == s.(candidates := s.candidates[name := rest]))
            && (!Deletable(s.candidates[name], sizes) && (HasSpecial(s.candidates[name]) ==> HasSpecial(rest)) ==>
                  s' == s.(candidates := s.candidates[name := rest], pc := Done(Refused)))
  {
    hide Deletable, Weight, HasSpecial;
  }
}
