/**
 * Field-level three-way merging of story objects, cast members, groups and sources.
 * A digest is modelled as the canonical value it identifies, so comparing digests is
 * comparing values; an absent value has no digest and is `None`.
 */
module StoryMerge {
  import opened Common

  /** A canonical JSON value. Object key order is not significant. */
  datatype Json =
    | Null
    | Bool(b: bool)
    | Num(n: real)
    | Str(s: string)
    | Arr(items: seq<Json>)
    | Obj(fields: map<string, Json>)

  /** A merged value with the paths of the fields that could not be merged. */
  datatype Merged = Merged(value: Option<Json>, conflicts: set<string>)

  // ---------------------------------------------------------------------------
  // Reading values
  // ---------------------------------------------------------------------------

  /** The fields of an object; anything that is not an object has none. */
  function Record(v: Option<Json>): map<string, Json> {
    if v.Some? && v.value.Obj? then v.value.fields else map[]
  }

  function Own(m: map<string, Json>, key: string): Option<Json> {
    if key in m then Some(m[key]) else None
  }

  function Strings(items: seq<Json>): seq<string> {
    if items == [] then []
    else (if items[0].Str? then [items[0].s] else []) + Strings(items[1..])
  }

  /** A list of identities; a value that is not an array of strings reads as empty. */
  function Ids(v: Option<Json>): seq<string> {
    if v.Some? && v.value.Arr? && forall x | x in v.value.items :: x.Str?
    then Strings(v.value.items)
    else []
  }

  function FromIds(ids: seq<string>): Json {
    Arr(seq(|ids|, i requires 0 <= i < |ids| => Str(ids[i])))
  }

  lemma {:induction false} IdsFromIds(ids: seq<string>)
    ensures Ids(Some(FromIds(ids))) == ids
  {
    if ids != [] {
      IdsFromIds(ids[1..]);
      assert FromIds(ids).items[1..] == FromIds(ids[1..]).items;
    }
  }

  function PathJoin(path: string, key: string): string {
    if path == "" then key else path + "." + key
  }

  // ---------------------------------------------------------------------------
  // Leaves
  // ---------------------------------------------------------------------------

  function Scalar(base: Option<Json>, current: Option<Json>, after: Option<Json>, path: string): Merged {
    if current == after || after == base then Merged(current, {})
    else if current == base then Merged(after, {})
    else Merged(current, {path})
  }

  /** The members all three lists share, and the order in which each list has them. */
  datatype CommonOrder = CommonOrder(common: set<string>, b: seq<string>, c: seq<string>, a: seq<string>) {
    predicate ChangedCurrent() { b != c }
    predicate ChangedAfter() { b != a }
    predicate Conflict() { ChangedCurrent() && ChangedAfter() && c != a }
    /** Only the contribution moved shared members, so their order is taken from it. */
    predicate TakesAfter() { ChangedAfter() && !ChangedCurrent() }
  }

  function CommonOrderOf(base: seq<string>, current: seq<string>, after: seq<string>): CommonOrder {
    var common := Elems(base) * Elems(current) * Elems(after);
    CommonOrder(common, Keep(base, common), Keep(current, common), Keep(after, common))
  }

  /** The surviving members of `current`, then the members `after` adds. */
  function Survivors(base: seq<string>, current: seq<string>, after: seq<string>): seq<string> {
    Drop(Dedupe(current + Drop(after, Elems(base))), Elems(base) - Elems(after))
  }

  /** Refills the slots held by `common` members from `order`, front to back. */
  function Refill(s: seq<string>, common: set<string>, order: seq<string>): (r: seq<string>)
    requires |Keep(s, common)| <= |order|
    ensures |r| == |s|
  {
    if s == [] then []
    else if s[0] in common then [order[0]] + Refill(s[1..], common, order[1..])
    else [s[0]] + Refill(s[1..], common, order)
  }

  function MergeIds(base: seq<string>, current: seq<string>, after: seq<string>): seq<string> {
    var o := CommonOrderOf(base, current, after);
    var s := Survivors(base, current, after);
    SlotsCovered(base, current, after);
    if o.TakesAfter() then Refill(s, o.common, o.a) else s
  }

  function References(base: Option<Json>, current: Option<Json>, after: Option<Json>, path: string,
                      absenceIsAll: bool): Merged
  {
    if current == after || after == base then Merged(current, {})
    else if MergesWhole(base, current, after, absenceIsAll) then Scalar(base, current, after, path)
    else if CommonOrderOf(Ids(base), Ids(current), Ids(after)).Conflict() then Merged(current, {path + "@order"})
    else Merged(Some(FromIds(MergeIds(Ids(base), Ids(current), Ids(after)))), {})
  }

  /** An absent list that stands for everybody, or a value that is no list, is merged as one unit. */
  predicate MergesWhole(base: Option<Json>, current: Option<Json>, after: Option<Json>, absenceIsAll: bool) {
    || (absenceIsAll && (base.None? || current.None? || after.None?))
    || (base.Some? && !base.value.Arr?)
    || (current.Some? && !current.value.Arr?)
    || (after.Some? && !after.value.Arr?)
  }

  // ---------------------------------------------------------------------------
  // Laws of reference lists
  // ---------------------------------------------------------------------------

  lemma SurvivorsFacts(base: seq<string>, current: seq<string>, after: seq<string>)
    ensures NoDup(Survivors(base, current, after))
    ensures Elems(Survivors(base, current, after))
         == (Elems(current) + (Elems(after) - Elems(base))) - (Elems(base) - Elems(after))
  {
    var added := Drop(after, Elems(base));
    var all := Dedupe(current + added);
    var removed := Elems(base) - Elems(after);
    DropElems(after, Elems(base));
    DedupeFacts(current + added);
    assert Elems(current + added) == Elems(current) + Elems(added);
    DropElems(all, removed);
    KeepNoDup(all, Elems(all) - removed);
  }

  /** Enough names for every slot, so the loop that refills the slots never runs out. */
  lemma SlotsCovered(base: seq<string>, current: seq<string>, after: seq<string>)
    ensures var o := CommonOrderOf(base, current, after);
            var kept := Keep(Survivors(base, current, after), o.common);
            NoDup(kept) && Elems(kept) == o.common && |kept| == |o.common| <= |o.a| && Elems(o.a) == o.common
  {
    var o := CommonOrderOf(base, current, after);
    var s := Survivors(base, current, after);
    SurvivorsFacts(base, current, after);
    KeepElems(s, o.common);
    KeepElems(after, o.common);
    KeepNoDup(s, o.common);
    NoDupCard(Keep(s, o.common));
    DedupeFacts(o.a);
    NoDupCard(Dedupe(o.a));
    DedupeShrinks(o.a);
    assert Elems(Keep(s, o.common)) == o.common;
    assert Elems(o.a) == o.common;
  }

  lemma {:induction false} DedupeShrinks<T>(s: seq<T>)
    ensures |Dedupe(s)| <= |s|
  {
    if s != [] { DedupeShrinks(s[..|s| - 1]); }
  }

  /** Refilling puts the used names into the slots and leaves everything else alone. */
  lemma {:induction false} RefillParts(s: seq<string>, common: set<string>, order: seq<string>, others: set<string>)
    requires others !! common
    requires |Keep(s, common)| <= |order| && Elems(order) <= common
    ensures Keep(Refill(s, common, order), common) == order[..|Keep(s, common)|]
    ensures Keep(Refill(s, common, order), others) == Keep(s, others)
    ensures forall j :: 0 <= j < |s| ==> (Refill(s, common, order)[j] in common <==> s[j] in common)
  {
    if s != [] {
      if s[0] in common {
        assert order == [order[0]] + order[1..];
        assert order[0] in Elems(order);
        RefillParts(s[1..], common, order[1..], others);
      } else {
        RefillParts(s[1..], common, order, others);
      }
    }
  }

  /** The names that refill the slots are all different. */
  ghost predicate SlotsDistinct(base: seq<string>, current: seq<string>, after: seq<string>) {
    var o := CommonOrderOf(base, current, after);
    o.TakesAfter() ==> |o.common| <= |o.a| && NoDup(o.a[..|o.common|])
  }

  /** A contribution without repeated references always qualifies. */
  lemma DistinctAfterSuffices(base: seq<string>, current: seq<string>, after: seq<string>)
    requires NoDup(after)
    ensures SlotsDistinct(base, current, after)
  {
    SlotsCovered(base, current, after);
    KeepNoDup(after, CommonOrderOf(base, current, after).common);
  }

  /** The list in the draft's order: its surviving members, then what the contribution adds. */
  function DraftOrder(base: seq<string>, current: seq<string>, after: seq<string>): seq<string> {
    Dedupe(Drop(current, Elems(base) - Elems(after))) + Dedupe(Drop(after, Elems(base) + Elems(current)))
  }

  ghost predicate ThreeWayMember(base: seq<string>, current: seq<string>, after: seq<string>, x: string) {
    if x in base then x in current && x in after else x in current || x in after
  }

  /** `r` has no duplicates and exactly the members a three-way merge of sets has. */
  ghost predicate ThreeWayMembers(base: seq<string>, current: seq<string>, after: seq<string>, r: seq<string>) {
    NoDup(r) && forall x :: x in r <==> ThreeWayMember(base, current, after, x)
  }

  /** Dropping what was removed before or after the lists are joined is the same. */
  lemma DropBeforeJoining(current: seq<string>, added: seq<string>, removed: set<string>)
    requires Elems(added) !! removed
    ensures Drop(Dedupe(current + added), removed) == Dedupe(Drop(current, removed) + added)
  {
    var all := current + added;
    DedupeFacts(all);
    assert Elems(all) == Elems(current) + Elems(added);
    var stay := Elems(all) - removed;
    DedupeKeep(all, stay);
    KeepConcat(current, added, stay);
    KeepAgree(current, stay, Elems(current) - removed);
    KeepAll(added, stay);
  }

  /** Of what was added, only what is new to the kept list is appended. */
  lemma AddedAfterKept(base: seq<string>, current: seq<string>, after: seq<string>)
    ensures var added, kept := Drop(after, Elems(base)), Drop(current, Elems(base) - Elems(after));
            Drop(Dedupe(added), Elems(kept)) == Dedupe(Drop(after, Elems(base) + Elems(current)))
  {
    var added, kept := Drop(after, Elems(base)), Drop(current, Elems(base) - Elems(after));
    DropElems(after, Elems(base));
    DropElems(current, Elems(base) - Elems(after));
    DedupeFacts(added);
    var others := Elems(added) - Elems(kept);
    DedupeKeep(added, others);
    KeepKeep(after, Elems(after) - Elems(base), others);
    KeepAgree(after, (Elems(after) - Elems(base)) * others, Elems(after) - (Elems(base) + Elems(current)));
  }

  lemma SurvivorsInDraftOrder(base: seq<string>, current: seq<string>, after: seq<string>)
    ensures Survivors(base, current, after) == DraftOrder(base, current, after)
  {
    var added, removed := Drop(after, Elems(base)), Elems(base) - Elems(after);
    DropElems(after, Elems(base));
    DropBeforeJoining(current, added, removed);
    DedupeConcat(Drop(current, removed), added);
    AddedAfterKept(base, current, after);
  }

  /** Refilling with distinct names permutes the slots. */
  lemma RefillLaw(s: seq<string>, common: set<string>, order: seq<string>)
    requires NoDup(s) && common <= Elems(s) && |common| <= |order| && Elems(order) <= common
    requires NoDup(order[..|common|])
    ensures |Keep(s, common)| == |common|
    ensures NoDup(Refill(s, common, order)) && Elems(Refill(s, common, order)) == Elems(s)
    ensures Elems(order[..|common|]) == common
  {
    KeepNoDup(s, common);
    KeepElems(s, common);
    assert Elems(s) * common == common;
    NoDupCard(Keep(s, common));
    var used := order[..|common|];
    NoDupCard(used);
    assert Elems(used) <= Elems(order);
    SubsetCard(Elems(used), common);
    RefillElems(s, common, order);
    NoDupCard(s);
    CardNoDup(Refill(s, common, order));
  }

  lemma {:induction false} RefillElems(s: seq<string>, common: set<string>, order: seq<string>)
    requires |Keep(s, common)| <= |order|
    ensures Elems(Refill(s, common, order)) == (Elems(s) - common) + Elems(order[..|Keep(s, common)|])
  {
    if s != [] {
      var rest, n := s[1..], |Keep(s[1..], common)|;
      assert Elems(s) == {s[0]} + Elems(rest) by { assert s == [s[0]] + rest; }
      if s[0] in common {
        RefillElems(rest, common, order[1..]);
        var tail := Refill(rest, common, order[1..]);
        assert Elems([order[0]] + tail) == {order[0]} + Elems(tail);
        assert order[..n + 1] == [order[0]] + order[1..][..n];
        assert Elems(order[..n + 1]) == {order[0]} + Elems(order[1..][..n]);
      } else {
        RefillElems(rest, common, order);
        var tail := Refill(rest, common, order);
        assert Elems([s[0]] + tail) == {s[0]} + Elems(tail);
      }
    }
  }

  /** Nothing moved by the contribution alone: the draft's own order stands. */
  lemma SurvivorOrder(base: seq<string>, current: seq<string>, after: seq<string>)
    ensures var o := CommonOrderOf(base, current, after);
            Keep(Survivors(base, current, after), o.common) == Dedupe(o.c)
  {
    var o := CommonOrderOf(base, current, after);
    var added := Drop(after, Elems(base));
    DropElems(after, Elems(base));
    DedupeFacts(current + added);
    var all := Dedupe(current + added);
    var stay := Elems(all) - (Elems(base) - Elems(after));
    KeepKeep(all, stay, o.common);
    assert Elems(current + added) == Elems(current) + Elems(added);
    assert stay * o.common == o.common;
    DedupeKeep(current + added, o.common);
    KeepConcat(current, added, o.common);
    KeepNone(added, o.common);
    assert Keep(current + added, o.common) == o.c;
  }

  lemma DistinctPrefixIsDedupe<T>(s: seq<T>, n: nat)
    requires n <= |s| && NoDup(s[..n]) && Elems(s[..n]) == Elems(s)
    ensures Dedupe(s) == s[..n]
  {
    assert s == s[..n] + s[n..];
    DedupeId(s[..n]);
    DedupeConcat(s[..n], s[n..]);
    DedupeFacts(s[n..]);
    assert Elems(s[n..]) <= Elems(s);
    KeepNone(Dedupe(s[n..]), Elems(Dedupe(s[n..])) - Elems(s[..n]));
  }

  /** The survivors refilled from the contribution's order hold that order. */
  lemma RefilledOrder(s: seq<string>, common: set<string>, order: seq<string>)
    requires |Keep(s, common)| <= |order| && Elems(order) <= common
    requires |Keep(s, common)| == |common| && NoDup(order[..|common|]) && Elems(order[..|common|]) == common
    ensures Keep(Refill(s, common, order), common) == Dedupe(order)
  {
    RefillParts(s, common, order, {});
    assert Elems(order[..|common|]) <= Elems(order);
    DistinctPrefixIsDedupe(order, |common|);
  }

  /** Everything else stays where it was. */
  lemma RefilledRest(s: seq<string>, common: set<string>, order: seq<string>)
    requires |Keep(s, common)| <= |order| && Elems(order) <= common && Elems(Refill(s, common, order)) == Elems(s)
    ensures Drop(Refill(s, common, order), common) == Drop(s, common)
    ensures forall j :: 0 <= j < |s| ==> (Refill(s, common, order)[j] in common <==> s[j] in common)
  {
    RefillParts(s, common, order, Elems(s) - common);
  }

  /** The shared members of the merged list, and everything else in it. */
  lemma MergedParts(base: seq<string>, current: seq<string>, after: seq<string>)
    requires SlotsDistinct(base, current, after)
    ensures var o := CommonOrderOf(base, current, after);
            var r := MergeIds(base, current, after);
            var s := Survivors(base, current, after);
            && NoDup(r) && Elems(r) == Elems(s)
            && Keep(r, o.common) == Dedupe(if o.TakesAfter() then o.a else o.c)
            && Drop(r, o.common) == Drop(s, o.common)
            && |r| == |s| && forall j :: 0 <= j < |r| ==> (r[j] in o.common <==> s[j] in o.common)
  {
    var o := CommonOrderOf(base, current, after);
    var s := Survivors(base, current, after);
    SurvivorsFacts(base, current, after);
    SlotsCovered(base, current, after);
    SurvivorOrder(base, current, after);
    if o.TakesAfter() {
      RefillLaw(s, o.common, o.a);
      RefilledOrder(s, o.common, o.a);
      RefilledRest(s, o.common, o.a);
    }
  }

  /**
   * What a conflict-free merge of reference lists is: three-way membership without duplicates,
   * shared members in the order of the side that moved them, every other member where the
   * draft's order has it.
   */
  lemma ListLaw(base: seq<string>, current: seq<string>, after: seq<string>)
    requires !CommonOrderOf(base, current, after).Conflict() && SlotsDistinct(base, current, after)
    ensures ThreeWayMembers(base, current, after, MergeIds(base, current, after))
    ensures var o := CommonOrderOf(base, current, after);
            var r := MergeIds(base, current, after);
            var d := DraftOrder(base, current, after);
            && Keep(r, o.common) == Dedupe(if o.ChangedAfter() then o.a else o.c)
            && Drop(r, o.common) == Drop(d, o.common)
            && |r| == |d| && forall j :: 0 <= j < |r| ==> (r[j] in o.common <==> d[j] in o.common)
  {
    SurvivorsInDraftOrder(base, current, after);
    SurvivorsFacts(base, current, after);
    MergedParts(base, current, after);
    var r := MergeIds(base, current, after);
    forall x ensures x in r <==> ThreeWayMember(base, current, after, x) {
      assert x in r <==> x in Elems(r);
    }
  }

  /** The law holds exactly when no name would be put into two slots. */
  lemma ListLawExactly(base: seq<string>, current: seq<string>, after: seq<string>)
    ensures ThreeWayMembers(base, current, after, MergeIds(base, current, after))
       <==> SlotsDistinct(base, current, after)
  {
    var o := CommonOrderOf(base, current, after);
    var s := Survivors(base, current, after);
    var r := MergeIds(base, current, after);
    SurvivorsFacts(base, current, after);
    SlotsCovered(base, current, after);
    if SlotsDistinct(base, current, after) {
      MergedParts(base, current, after);
      forall x ensures x in r <==> ThreeWayMember(base, current, after, x) {
        assert x in r <==> x in Elems(r);
      }
    } else {
      RefillParts(s, o.common, o.a, {});
      if NoDup(r) {
        KeepNoDup(r, o.common);
        assert false;
      }
    }
  }

  lemma RefillBoth(common: set<string>)
    requires common == {"x", "z"}
    ensures |Keep(["x", "z"], common)| == 2 && Refill(["x", "z"], common, ["z", "z", "x"]) == ["z", "z"]
  {
    var s, order: seq<string> := ["x", "z"], ["z", "z", "x"];
    KeepAll(s, common);
    assert s[1..] == ["z"] && order[1..] == ["z", "x"] && s[1..][1..] == [];
    KeepAll(s[1..], common);
    assert Refill([], common, order[1..][1..]) == [];
    assert Refill(s[1..], common, order[1..]) == ["z"];
  }

  /** Repeated references are not ruled out by the schema, and then a member can be lost. */
  lemma RepeatedReferenceLosesMember()
    ensures var base, current, after := ["x", "z"], ["x", "z"], ["z", "z", "x"];
            && ThreeWayMember(base, current, after, "x")
            && !CommonOrderOf(base, current, after).Conflict() && !SlotsDistinct(base, current, after)
            && MergeIds(base, current, after) == ["z", "z"]
  {
    RepeatedOrder();
    RepeatedMerge(["x", "z"], ["z", "z", "x"]);
  }

  lemma RepeatedMerge(base: seq<string>, after: seq<string>)
    requires base == ["x", "z"] && after == ["z", "z", "x"]
    requires CommonOrderOf(base, base, after) == CommonOrder({"x", "z"}, base, base, after)
    ensures ThreeWayMember(base, base, after, "x") && !SlotsDistinct(base, base, after)
    ensures MergeIds(base, base, after) == ["z", "z"]
  {
    assert base[0] == "x" && base[1] == "z" && after[0] == "z" && after[2] == "x";
    assert Elems(base) == {"x", "z"};
    assert Elems(after) == {"x", "z"};
    assert after[..2][0] == after[..2][1];
    SurvivorsFixpoint(base, base, after);
    RefillBoth({"x", "z"});
  }

  lemma RepeatedOrder()
    ensures CommonOrderOf(["x", "z"], ["x", "z"], ["z", "z", "x"])
         == CommonOrder({"x", "z"}, ["x", "z"], ["x", "z"], ["z", "z", "x"])
  {
    var base, after := ["x", "z"], ["z", "z", "x"];
    assert base[0] == "x" && base[1] == "z" && after[0] == "z" && after[2] == "x";
    var common := {"x", "z"};
    assert Elems(base) * Elems(base) * Elems(after) == common;
    KeepAll(base, common);
    KeepAll(after, common);
  }

  // ---------------------------------------------------------------------------
  // What merging reference lists does, case by case
  // ---------------------------------------------------------------------------

  /** The names a value lists; what is no list of names lists none. */
  ghost predicate Reads(v: Option<Json>, ids: seq<string>) {
    if v.Some? && v.value.Arr? && forall i | 0 <= i < |v.value.items| :: v.value.items[i].Str?
    then |ids| == |v.value.items| && forall i | 0 <= i < |ids| :: v.value.items[i] == Str(ids[i])
    else ids == []
  }

  lemma {:induction false} StringsListed(items: seq<Json>)
    requires forall i | 0 <= i < |items| :: items[i].Str?
    ensures |Strings(items)| == |items| && forall i | 0 <= i < |items| :: items[i] == Str(Strings(items)[i])
  {
    if items != [] { StringsListed(items[1..]); }
  }

  lemma ReadsExactly(v: Option<Json>, ids: seq<string>)
    ensures Reads(v, ids) <==> ids == Ids(v)
  {
    if v.Some? && v.value.Arr? && forall i | 0 <= i < |v.value.items| :: v.value.items[i].Str? {
      StringsListed(v.value.items);
    }
  }

  /** A conflict-free merge of lists, without the words the code uses for it. */
  lemma MergedListLaw(b: seq<string>, c: seq<string>, a: seq<string>)
    ensures var common := Elems(b) * Elems(c) * Elems(a);
            CommonOrderOf(b, c, a).Conflict()
            <==> Keep(b, common) != Keep(c, common) && Keep(b, common) != Keep(a, common)
                 && Keep(c, common) != Keep(a, common)
    ensures !CommonOrderOf(b, c, a).Conflict() && NoDup(a) ==> MergedInOrder(b, c, a, MergeIds(b, c, a))
  {
    if !CommonOrderOf(b, c, a).Conflict() && NoDup(a) {
      DistinctAfterSuffices(b, c, a);
      ListLaw(b, c, a);
    }
  }

  /** Members merge as sets; what is shared has the order of the side that moved it; the rest that of the draft. */
  ghost predicate MergedInOrder(b: seq<string>, c: seq<string>, a: seq<string>, r: seq<string>) {
    var common := Elems(b) * Elems(c) * Elems(a);
    && ThreeWayMembers(b, c, a, r)
    && Keep(r, common) == Dedupe(Keep(if Keep(b, common) == Keep(a, common) then c else a, common))
    && Drop(r, common) == Drop(DraftOrder(b, c, a), common)
  }

  /** A side that is there but is no list, or an absent list where that stands for everybody. */
  ghost predicate OneValue(v: Option<Json>, absenceIsAll: bool) {
    if v.None? then absenceIsAll else !v.value.Arr?
  }

  /**
   * Reference lists and what may stand for them. Who did not change the base lets the other one
   * have it. What is no list is never mixed with lists: one side wins or they conflict. Otherwise
   * two lists conflict when base, draft and proposal order what they share in three different ways;
   * else their members merge as sets, what is shared has the order of the side that moved it, and
   * what the draft does not share stays where the draft's order has it.
   */
  lemma ReferencesLaw(
    base: Option<Json>, current: Option<Json>, after: Option<Json>, path: string, absenceIsAll: bool,
    b: seq<string>, c: seq<string>, a: seq<string>)
    requires Reads(base, b) && Reads(current, c) && Reads(after, a)
    ensures var m := References(base, current, after, path, absenceIsAll);
            var common := Elems(b) * Elems(c) * Elems(a);
            if current == after || after == base then m == Merged(current, {})
            else if OneValue(base, absenceIsAll) || OneValue(current, absenceIsAll) || OneValue(after, absenceIsAll)
            then
              m == if current == base then Merged(after, {}) else Merged(current, {path})
            else if Keep(b, common) != Keep(c, common) && Keep(b, common) != Keep(a, common)
                    && Keep(c, common) != Keep(a, common) then
              m == Merged(current, {path + "@order"})
            else
              m.conflicts == {}
              && exists r :: Reads(m.value, r) && m.value.Some? && (NoDup(a) ==> MergedInOrder(b, c, a, r))
  {
    ReadsExactly(base, b);
    ReadsExactly(current, c);
    ReadsExactly(after, a);
    MergedListLaw(b, c, a);
    IdsFromIds(MergeIds(b, c, a));
    ReadsExactly(Some(FromIds(MergeIds(b, c, a))), MergeIds(b, c, a));
  }

  // ---------------------------------------------------------------------------
  // Merging a merged list again
  // ---------------------------------------------------------------------------

  /** Nothing is left to add to or remove from a merged list. */
  lemma SurvivorsFixpoint(base: seq<string>, r: seq<string>, after: seq<string>)
    requires NoDup(r) && Elems(r) !! Elems(base) - Elems(after) && Elems(after) - Elems(base) <= Elems(r)
    ensures Survivors(base, r, after) == r
  {
    SurvivorsInDraftOrder(base, r, after);
    KeepAll(r, Elems(r) - (Elems(base) - Elems(after)));
    DedupeId(r);
    KeepNone(after, Elems(after) - (Elems(base) + Elems(r)));
    assert Drop(after, Elems(base) + Elems(r)) == [];
    assert r + Dedupe([]) == r;
  }

  /**
   * Where the contribution moves shared members, it names each of them once, or it names them
   * in the base's order before it names any of them again.
   */
  ghost predicate StaysMerged(base: seq<string>, current: seq<string>, after: seq<string>) {
    var o := CommonOrderOf(base, current, after);
    o.ChangedAfter() ==> NoDup(o.a) || (|o.common| <= |o.a| && o.b == o.a[..|o.common|])
  }

  /** A contribution without repeated references always qualifies. */
  lemma DistinctStaysMerged(base: seq<string>, current: seq<string>, after: seq<string>)
    requires NoDup(after)
    ensures StaysMerged(base, current, after)
  {
    KeepNoDup(after, CommonOrderOf(base, current, after).common);
  }

  /** As many names as members, and all of the members, are different names. */
  lemma PrefixIsDistinct(s: seq<string>, b: seq<string>, common: set<string>)
    requires |common| <= |s| && b == s[..|common|] && Elems(b) == common
    ensures NoDup(s[..|common|])
    ensures Elems(s) == common ==> Dedupe(s) == b
  {
    CardNoDup(b);
    if Elems(s) == common { DistinctPrefixIsDedupe(s, |common|); }
  }

  lemma StaysMergedFillsSlots(base: seq<string>, current: seq<string>, after: seq<string>)
    requires StaysMerged(base, current, after)
    ensures SlotsDistinct(base, current, after)
  {
    var o := CommonOrderOf(base, current, after);
    SlotsCovered(base, current, after);
    KeepElems(base, o.common);
    assert Elems(o.b) == o.common;
    if o.ChangedAfter() && !NoDup(o.a) { PrefixIsDistinct(o.a, o.b, o.common); }
  }

  /** Slots that hold the first names already are refilled with what they hold. */
  lemma {:induction false} RefillSame(s: seq<string>, common: set<string>, order: seq<string>)
    requires |Keep(s, common)| <= |order| && Keep(s, common) == order[..|Keep(s, common)|]
    ensures Refill(s, common, order) == s
  {
    if s != [] {
      var rest := Keep(s[1..], common);
      if s[0] in common {
        assert Keep(s, common) == [s[0]] + rest;
        assert order[0] == s[0] && rest == order[1..][..|rest|];
        RefillSame(s[1..], common, order[1..]);
      } else {
        RefillSame(s[1..], common, order);
      }
    }
  }

  /** A merged list without repetitions, merged again: what the second merge starts from. */
  lemma SecondMerge(base: seq<string>, current: seq<string>, after: seq<string>)
    requires SlotsDistinct(base, current, after)
    ensures var o, r := CommonOrderOf(base, current, after), MergeIds(base, current, after);
            && NoDup(r) && Survivors(base, r, after) == r
            && CommonOrderOf(base, r, after)
               == CommonOrder(o.common, o.b, Dedupe(if o.TakesAfter() then o.a else o.c), o.a)
  {
    var o, r := CommonOrderOf(base, current, after), MergeIds(base, current, after);
    MergedParts(base, current, after);
    SurvivorsFacts(base, current, after);
    assert Elems(base) * Elems(r) * Elems(after) == o.common;
    SurvivorsFixpoint(base, r, after);
  }

  /** The second merge of a list that stays merged. */
  lemma StaysFixed(base: seq<string>, current: seq<string>, after: seq<string>)
    requires !CommonOrderOf(base, current, after).Conflict() && StaysMerged(base, current, after)
    ensures var r := MergeIds(base, current, after);
            !CommonOrderOf(base, r, after).Conflict() && MergeIds(base, r, after) == r
  {
    var o, r := CommonOrderOf(base, current, after), MergeIds(base, current, after);
    StaysMergedFillsSlots(base, current, after);
    SecondMerge(base, current, after);
    SlotsCovered(base, current, after);
    SlotsCovered(base, r, after);
    KeepElems(base, o.common);
    assert Elems(o.b) == o.common;
    if o.ChangedAfter() {
      if NoDup(o.a) {
        DedupeId(o.a);
      } else {
        PrefixIsDistinct(o.a, o.b, o.common);
        assert Keep(r, o.common) == o.b;
        RefillSame(r, o.common, o.a);
      }
    }
  }

  /** Refilling from names that repeat loses a shared member and repeats another. */
  lemma RefillRepeats(s: seq<string>, common: set<string>, order: seq<string>)
    requires NoDup(s) && common <= Elems(s) && |common| <= |order| && Elems(order) == common
    requires !NoDup(order[..|common|]) && |Keep(s, common)| == |common|
    ensures var r := Refill(s, common, order);
            !NoDup(r) && Elems(s) - common <= Elems(r) && !(common <= Elems(r))
  {
    var r, p := Refill(s, common, order), order[..|common|];
    RefillElems(s, common, order);
    if Elems(p) == common { CardNoDup(p); }
    assert Elems(p) <= Elems(order);
    RefillParts(s, common, order, {});
    if NoDup(r) { KeepNoDup(r, common); }
  }

  /** A list that names one shared member twice does not survive the second merge. */
  lemma RepetitionIsLost(base: seq<string>, current: seq<string>, after: seq<string>)
    requires !SlotsDistinct(base, current, after)
    ensures var r := MergeIds(base, current, after); MergeIds(base, r, after) != r && r != after
  {
    var o, s := CommonOrderOf(base, current, after), Survivors(base, current, after);
    SurvivorsFacts(base, current, after);
    SlotsCovered(base, current, after);
    RefillRepeats(s, o.common, o.a);
    var r := MergeIds(base, current, after);
    assert o.common <= Elems(after);
    assert r != after;
    RepetitionShrinks(base, r, after);
  }

  lemma RepetitionShrinks(base: seq<string>, r: seq<string>, after: seq<string>)
    requires !NoDup(r) && Elems(after) - Elems(base) <= Elems(r)
    ensures MergeIds(base, r, after) != r
  {
    var s := Survivors(base, r, after);
    SurvivorsFacts(base, r, after);
    NoDupCard(s);
    SubsetCard(Elems(s), Elems(r));
    ElemsCard(r);
    if |Elems(r)| == |r| { CardNoDup(r); }
    assert |MergeIds(base, r, after)| == |s|;
  }

  /** One that does not stay merged is moved again, or is a conflict. */
  lemma MovedAgain(base: seq<string>, current: seq<string>, after: seq<string>)
    requires !CommonOrderOf(base, current, after).Conflict() && !StaysMerged(base, current, after)
    requires SlotsDistinct(base, current, after)
    ensures var r := MergeIds(base, current, after);
            r != after && (CommonOrderOf(base, r, after).Conflict() || MergeIds(base, r, after) != r)
  {
    var o, r := CommonOrderOf(base, current, after), MergeIds(base, current, after);
    SecondMerge(base, current, after);
    var o' := CommonOrderOf(base, r, after);
    assert o'.c == Dedupe(o.a);
    DedupeFacts(o.a);
    if r == after { KeepNoDup(after, o.common); }
    if !o'.Conflict() {
      SlotsCovered(base, r, after);
      RefillParts(r, o.common, o.a, {});
      assert o'.TakesAfter();
    }
  }

  /** Merging the same change into the merged list changes nothing exactly when it stays merged. */
  lemma ListFixpointExactly(base: seq<string>, current: seq<string>, after: seq<string>)
    requires !CommonOrderOf(base, current, after).Conflict()
    ensures var r := MergeIds(base, current, after);
            && (!CommonOrderOf(base, r, after).Conflict() && MergeIds(base, r, after) == r
                <==> StaysMerged(base, current, after))
            && (!StaysMerged(base, current, after) ==> r != after)
  {
    if StaysMerged(base, current, after) {
      StaysFixed(base, current, after);
    } else if SlotsDistinct(base, current, after) {
      MovedAgain(base, current, after);
    } else {
      RepetitionIsLost(base, current, after);
    }
  }

  /** The list that lost a member loses its repetition when the same change is merged again. */
  lemma RepeatedReferenceMovesAgain()
    ensures var base, after := ["x", "z"], ["z", "z", "x"];
            MergeIds(base, base, after) == ["z", "z"] && MergeIds(base, ["z", "z"], after) == ["z"]
  {
    RepeatedReferenceLosesMember();
    RepeatedAgain(["x", "z"], ["z", "z"], ["z", "z", "x"]);
  }

  lemma RepeatedAgain(base: seq<string>, r: seq<string>, after: seq<string>)
    requires base == ["x", "z"] && r == ["z", "z"] && after == ["z", "z", "x"]
    ensures MergeIds(base, r, after) == ["z"]
  {
    assert base[0] == "x" && base[1] == "z" && after[0] == "z" && after[2] == "x" && r[0] == "z";
    assert Elems(base) == {"x", "z"};
    assert Elems(after) == {"x", "z"};
    assert Elems(r) == {"z"};
    RepeatedSurvivors(base, r, after);
    DraftOrderDiffers(base, r, {"z"});
  }

  lemma RepeatedSurvivors(base: seq<string>, r: seq<string>, after: seq<string>)
    requires r == ["z", "z"] && Elems(base) == Elems(after)
    ensures Survivors(base, r, after) == ["z"]
  {
    KeepNone(after, Elems(after) - Elems(base));
    assert Drop(after, Elems(base)) == [] && r + [] == r == ["z"] + ["z"];
    DedupeConcat(["z"], ["z"]);
    DedupeId(["z"]);
    KeepNone(["z"], Elems(["z"]) - Elems(["z"]));
    assert Dedupe(r) == ["z"] + [] == ["z"];
    KeepAll(["z"], Elems(["z"]) - (Elems(base) - Elems(after)));
  }

  lemma DraftOrderDiffers(base: seq<string>, r: seq<string>, common: set<string>)
    requires base == ["x", "z"] && r == ["z", "z"] && common == {"z"}
    ensures Keep(base, common) != Keep(r, common)
  {
    KeepAll(r, common);
    KeepNoDup(base, common);
  }
}
