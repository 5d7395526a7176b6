/** Merging the order of a story list; which objects exist is decided by the object changes. */
module OrderMerge {
  import opened Common
  import opened StoryMerge

  datatype MergedOrder = MergedOrder(ids: seq<string>, conflict: bool)

  /** The side whose order wins where the lists overlap. */
  function Preferred(base: seq<string>, current: seq<string>, after: seq<string>): seq<string> {
    if CommonOrderOf(base, current, after).ChangedAfter() || base == current then after else current
  }

  function MergeOrder(base: seq<string>, current: seq<string>, after: seq<string>, members: seq<string>): MergedOrder {
    MergedOrder(Keep(Dedupe(Preferred(base, current, after) + members), Elems(members)),
                CommonOrderOf(base, current, after).Conflict())
  }

  /** The merged order names the members, each once, in the preferred order and then their own. */
  lemma OrderLaw(base: seq<string>, current: seq<string>, after: seq<string>, members: seq<string>)
    ensures var r := MergeOrder(base, current, after, members).ids;
            var p := Preferred(base, current, after);
            && NoDup(r) && Elems(r) == Elems(members)
            && Keep(r, Elems(p)) == Keep(Dedupe(p), Elems(members))
            && Drop(r, Elems(p)) == Drop(Dedupe(members), Elems(p))
            && r == Keep(Dedupe(p), Elems(members)) + Drop(Dedupe(members), Elems(p))
  {
    var p := Preferred(base, current, after);
    var m := Elems(members);
    var r := MergeOrder(base, current, after, members).ids;
    DedupeFacts(p + members);
    DedupeFacts(p);
    DedupeFacts(members);
    KeepNoDup(Dedupe(p + members), m);
    KeepElems(Dedupe(p + members), m);
    assert Elems(p + members) == Elems(p) + m;
    DedupeConcat(p, members);
    var first, second := Dedupe(p), Drop(Dedupe(members), Elems(p));
    KeepConcat(first, second, m);
    DropElems(Dedupe(members), Elems(p));
    KeepAll(second, m);
    KeepElems(first, m);
    KeepConcat(Keep(first, m), second, Elems(p));
    KeepAll(Keep(first, m), Elems(p));
    KeepNone(second, Elems(p));
    var rest := Elems(r) - Elems(p);
    KeepConcat(Keep(first, m), second, rest);
    KeepNone(Keep(first, m), rest);
    KeepAll(second, rest);
  }

  /** The members named by `lead`, in its order, and then the others in their own. */
  ghost predicate LedBy(r: seq<string>, lead: seq<string>, members: seq<string>) {
    && r == Keep(Dedupe(lead), Elems(members)) + Drop(Dedupe(members), Elems(lead))
    && Keep(r, Elems(lead)) == Keep(Dedupe(lead), Elems(members))
    && Drop(r, Elems(lead)) == Drop(Dedupe(members), Elems(lead))
  }

  lemma LedByParts(lead: seq<string>, members: seq<string>)
    ensures LedBy(Keep(Dedupe(lead), Elems(members)) + Drop(Dedupe(members), Elems(lead)), lead, members)
  {
    var first, second := Keep(Dedupe(lead), Elems(members)), Drop(Dedupe(members), Elems(lead));
    var r := first + second;
    DedupeFacts(lead);
    DedupeFacts(members);
    KeepElems(Dedupe(lead), Elems(members));
    DropElems(Dedupe(members), Elems(lead));
    KeepConcat(first, second, Elems(lead));
    KeepAll(first, Elems(lead));
    KeepNone(second, Elems(lead));
    var rest := Elems(r) - Elems(lead);
    assert Elems(r) == Elems(first) + Elems(second);
    KeepConcat(first, second, rest);
    KeepNone(first, rest);
    KeepAll(second, rest);
  }

  /**
   * Which side's order a merged list has. Where the proposal leaves what all three share in the
   * base's order and the draft is not the base, the draft's order stands; otherwise the
   * proposal's does. Orders conflict when no two of the three agree on what they share.
   */
  lemma MergedOrderLaw(base: seq<string>, current: seq<string>, after: seq<string>, members: seq<string>)
    ensures var common := Elems(base) * Elems(current) * Elems(after);
            var b, c, a := Keep(base, common), Keep(current, common), Keep(after, common);
            var r := MergeOrder(base, current, after, members);
            && NoDup(r.ids) && Elems(r.ids) == Elems(members)
            && LedBy(r.ids, if b == a && base != current then current else after, members)
            && (r.conflict <==> b != c && b != a && c != a)
  {
    OrderLaw(base, current, after, members);
    LedByParts(current, members);
    LedByParts(after, members);
  }

  /**
   * What the object changes make of the lists: `members` is the membership after they were
   * applied to the draft. What the proposal drops is gone, and what the base had and still is
   * there was in the draft.
   */
  ghost predicate MembershipAgrees(base: seq<string>, current: seq<string>, after: seq<string>, members: seq<string>) {
    && (forall x | x in base && x !in after :: x !in members)
    && (forall x | x in base && x in after && x in members :: x in current)
  }

  /** What follows the preferred order does not change with the membership it is taken from. */
  lemma MergeOrderParts(base: seq<string>, r: seq<string>, after: seq<string>)
    requires NoDup(r) && NoDup(after)
    ensures Preferred(base, r, after) == r ==> MergeOrder(base, r, after, r).ids == r
    ensures Preferred(base, r, after) == after ==>
              MergeOrder(base, r, after, r).ids == Keep(after, Elems(r)) + Drop(r, Elems(after))
  {
    OrderLaw(base, r, after, r);
    DedupeId(r);
    DedupeId(after);
    KeepAll(r, Elems(r));
    KeepNone(r, Elems(r) - Elems(r));
  }

  /** Where the contribution's order leads, it leads again. */
  lemma AfterSettles(base: seq<string>, after: seq<string>, members: seq<string>, r: seq<string>)
    requires NoDup(after) && NoDup(r) && r == Keep(after, Elems(members)) + Drop(members, Elems(after))
    ensures MergeOrder(base, r, after, r) == MergedOrder(r, false)
  {
    var common := Elems(base) * Elems(r) * Elems(after);
    KeepElems(after, Elems(members));
    DropElems(members, Elems(after));
    assert Elems(r) == Elems(after) * Elems(members) + (Elems(members) - Elems(after));
    AfterLeads(after, members, common);
    AfterLeadsAgain(after, members);
    MergeOrderParts(base, r, after);
  }

  /** Where the contribution moves nothing that is shared, it moves nothing of less that is shared. */
  lemma StillUnmoved(base: seq<string>, after: seq<string>, common: set<string>, fewer: set<string>)
    requires fewer <= common && Keep(base, common) == Keep(after, common)
    ensures Keep(base, fewer) == Keep(after, fewer)
  {
    KeepKeep(base, common, fewer);
    KeepKeep(after, common, fewer);
    assert common * fewer == fewer;
  }

  /** Applying the same order change to the merged order leaves it as it is. */
  lemma OrderFixpoint(base: seq<string>, current: seq<string>, after: seq<string>, members: seq<string>)
    requires MembershipAgrees(base, current, after, members) && NoDup(after)
    requires !MergeOrder(base, current, after, members).conflict
    ensures var r := MergeOrder(base, current, after, members).ids;
            MergeOrder(base, r, after, r) == MergedOrder(r, false)
  {
    var r := MergeOrder(base, current, after, members).ids;
    var o, o' := CommonOrderOf(base, current, after), CommonOrderOf(base, r, after);
    OrderLaw(base, current, after, members);
    if o.ChangedAfter() || base == current {
      DedupeId(after);
      DedupeFacts(members);
      AfterSettles(base, after, Dedupe(members), r);
    } else {
      forall x | x in o'.common ensures x in o.common {
        assert x in r <==> x in Elems(r);
        assert x in members <==> x in Elems(members);
      }
      StillUnmoved(base, after, o.common, o'.common);
      MergeOrderParts(base, r, after);
      if base == r {
        // The draft is back at the base order, which the proposal does not move.
        forall x | x in base ensures x in after {
          assert x in Elems(r) && (x in members <==> x in Elems(members));
        }
        BaseLeads(base, after, o'.common);
      }
    }
  }

  lemma AfterLeads(after: seq<string>, members: seq<string>, common: set<string>)
    requires common <= Elems(after) * Elems(members)
    ensures Keep(Keep(after, Elems(members)) + Drop(members, Elems(after)), common) == Keep(after, common)
  {
    var m := Elems(members);
    KeepConcat(Keep(after, m), Drop(members, Elems(after)), common);
    KeepKeep(after, m, common);
    assert m * common == common;
    DropElems(members, Elems(after));
    KeepNone(Drop(members, Elems(after)), common);
  }

  lemma AfterLeadsAgain(after: seq<string>, members: seq<string>)
    ensures var r := Keep(after, Elems(members)) + Drop(members, Elems(after));
            Keep(after, Elems(r)) + Drop(r, Elems(after)) == r
  {
    var m, a := Elems(members), Elems(after);
    var first, second := Keep(after, m), Drop(members, a);
    var r := first + second;
    KeepElems(after, m);
    DropElems(members, a);
    assert Elems(r) == Elems(first) + Elems(second);
    assert a * Elems(r) == a * m;
    KeepAgree(after, m, Elems(r));
    var rest := Elems(r) - a;
    assert rest == Elems(second);
    KeepConcat(first, second, rest);
    KeepNone(first, rest);
    KeepAll(second, rest);
    assert Keep(after, Elems(r)) == first && Drop(r, a) == second;
  }

  lemma BaseLeads(base: seq<string>, after: seq<string>, common: set<string>)
    requires NoDup(base) && NoDup(after) && Elems(base) <= Elems(after) && common == Elems(base) * Elems(after)
    requires Keep(base, common) == Keep(after, common)
    ensures Keep(after, Elems(base)) + Drop(base, Elems(after)) == base
  {
    assert common == Elems(base);
    KeepAll(base, common);
    KeepNone(base, Elems(base) - Elems(after));
  }
}
