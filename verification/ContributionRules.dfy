/**
 * What a contribution merge admits, answers and hands out, written out case by case: the rules a
 * contributor can check before submitting.
 */
module ContributionRules {
  import opened Common
  import opened StoryMerge
  import opened ObjectMerge
  import opened ObjectLaws
  import opened OrderMerge
  import opened Drafts
  import opened Contribution
  import opened ContributionLaws

  // ---------------------------------------------------------------------------
  // Changes
  // ---------------------------------------------------------------------------

  /** Base and proposal are there or not as the operation asks. */
  ghost predicate Operates(op: Op, base: bool, after: bool) {
    match op
    case Add => !base && after
    case Modify => base && after
    case Remove => base && !after
    case Set => after
    case Unset => base && !after
  }

  /** Values a creation cannot be without. */
  ghost predicate Indispensable(a: Address) {
    a in {Metadata(DisplayName), Metadata(DefaultLocale), Metadata(Rating), Metadata(Rights), Metadata(License),
          Configuration(Policy), Configuration(PromptModule)}
  }

  /** A named value names itself: by its slot, its cast key, or its identity. */
  ghost predicate Named(a: Address, v: Value) {
    match a
    case StoryAddress(Listed(_), id) => v.Plain? && Own(Record(Some(v.json)), "id") == Some(Str(id))
    case StoryAddress(_, _) => v.Plain?
    case CastAddress(key) => v.Plain? && Own(Record(Some(v.json)), "key") == Some(Str(key))
    case GroupAddress(id) => v.Plain? && Own(Record(Some(v.json)), "id") == Some(Str(id))
    case SourceAddress(id) => v.Plain? && Own(Record(Some(v.json)), "id") == Some(Str(id))
    case FragmentAddress(id) => v.Plain? && Own(Record(Some(v.json)), "id") == Some(Str(id))
    case EdgeAddress(id) => v.Plain? && Own(Record(Some(v.json)), "id") == Some(Str(id))
    case SlotAddress(slot) => v.SlotValue? && Own(Record(Some(v.body.rest)), "slot") == Some(Str(slot))
    case VariantAddress(_, variant) => v.Plain? && Own(Record(Some(v.json)), "id") == Some(Str(variant))
    case Metadata(_) => v.Plain?
    case Configuration(_) => v.Plain?
  }

  /** A change the code takes as it stands, whatever the draft. */
  ghost predicate Proper(c: Change, rules: Rules) {
    match c
    case Keyed(target, op, base, after) =>
      && Operates(op, base.Some?, after.Some?) && !(op.Unset? && Indispensable(target))
      && (after.Some? ==> Named(target, after.value) && rules.accepts(target, after.value))
    case Reorder(_, _, ids) => NoDup(ids)
  }

  lemma NamedExactly(a: Address, v: Value)
    ensures RightForm(a, v) && NamesItself(a, v) <==> Named(a, v)
  {
  }

  /** A change is refused for its shape exactly when it is not proper. */
  lemma ShapeExactly(c: Change, rules: Rules)
    ensures ShapeError(c, rules).None? <==> Proper(c, rules)
    ensures ShapeError(c, rules) == Some(RequiredField(ChangeKey(c)))
            <==> c.Keyed? && c.op.Unset? && c.base.Some? && c.after.None? && Indispensable(c.target)
    ensures ShapeError(c, rules) in {None, Some(RequiredField(ChangeKey(c))), Some(InvalidChange(ChangeKey(c)))}
  {
    if c.Keyed? {
      if c.after.Some? { NamedExactly(c.target, c.after.value); }
    } else {
      NoDupCardIff(c.ids);
    }
  }

  lemma NoDupCardIff(ids: seq<string>)
    ensures |Elems(ids)| == |ids| <==> NoDup(ids)
  {
    if NoDup(ids) { NoDupCard(ids); }
    if |Elems(ids)| == |ids| { CardNoDup(ids); }
  }

  /** A change changes something, and an object or an order was made from the base that is given. */
  ghost predicate Grounded(c: Change, baseline: Option<Draft>) {
    match c
    case Keyed(target, _, base, after) =>
      && !(after.Some? && after == base)
      && (IsComposition(target) && baseline.Some? ==> Read(baseline.value, PlaceOf(target)) == base)
    case Reorder(list, baseIds, ids) =>
      ids != baseIds && (baseline.Some? ==> ListIds(baseline.value, list) == baseIds)
  }

  /** What a contribution must be for the merge to look at it: a base where one is needed, no target named twice. */
  ghost predicate Admissible(d: Draft, cs: seq<Change>, baseline: Option<Draft>, rules: Rules) {
    && (baseline.None? ==> forall c <- cs :: c.Keyed? && !IsComposition(c.target))
    && (baseline.Some? ==> baseline.value.identity == d.identity)
    && (forall i, j | 0 <= i < j < |cs| :: ChangeKey(cs[i]) != ChangeKey(cs[j]))
    && (forall x <- cs, y <- cs ::
          x.Keyed? && x.target.VariantAddress? ==> ChangeKey(y) != "asset:" + x.target.slot)
    && (forall c <- cs :: Proper(c, rules) && Grounded(c, baseline))
  }

  lemma KeysDistinct(cs: seq<Change>)
    ensures NoDup(KeysOf(cs)) <==> forall i, j | 0 <= i < j < |cs| :: ChangeKey(cs[i]) != ChangeKey(cs[j])
    ensures forall k :: k in KeysOf(cs) <==> exists c :: c in cs && ChangeKey(c) == k
  {
    var keys := KeysOf(cs);
    assert forall i | 0 <= i < |cs| :: keys[i] == ChangeKey(cs[i]);
    forall k ensures k in keys <==> exists c :: c in cs && ChangeKey(c) == k {
      if c :| c in cs && ChangeKey(c) == k {
        var i :| 0 <= i < |cs| && cs[i] == c;
        assert keys[i] == k;
      }
      if k in keys {
        var i :| 0 <= i < |keys| && keys[i] == k;
        assert cs[i] in cs;
      }
    }
  }

  lemma BaseExactly(c: Change, baseline: Option<Draft>)
    ensures BaseError(c, baseline).None? <==> Grounded(c, baseline)
  {
  }

  /** A contribution is admitted exactly when it is admissible. */
  lemma AdmissionExactly(d: Draft, cs: seq<Change>, baseline: Option<Draft>, rules: Rules)
    ensures Admission(d, cs, baseline, rules).None? <==> Admissible(d, cs, baseline, rules)
  {
    var keys := KeysOf(cs);
    assert NoDup(keys[..0]);
    DuplicatesFound(keys, 0);
    OverlapsFound(cs, keys);
    BadChangesFound(cs, baseline, rules);
    KeysDistinct(cs);
    forall c | c in cs
      ensures ShapeError(c, rules).None? && BaseError(c, baseline).None? <==> Proper(c, rules) && Grounded(c, baseline)
    {
      ShapeExactly(c, rules);
      BaseExactly(c, baseline);
    }
  }

  // ---------------------------------------------------------------------------
  // Outcomes
  // ---------------------------------------------------------------------------

  /**
   * What becomes of a value that merges as a whole: done when the draft holds the proposal, applied
   * when it holds the base and the slot of a new variant is there, and else a conflict, over the
   * missing slot or over the value.
   */
  lemma WholeValueOutcome(d: Draft, original: Draft, c: Change)
    requires c.Keyed? && !IsComposition(c.target) && WellShaped(c, original)
    ensures var current := Read(d, PlaceOf(c.target));
            var slotMissing := c.target.VariantAddress? && c.base.None? && Read(d, SlotAt(c.target.slot)).None?;
            KeyedOutcome(d, original, c)
            == if current == c.after then Outcome(AlreadyApplied, None, {})
               else if current != c.base then Outcome(Conflict, Some(Diverged), {})
               else if slotMissing then Outcome(Conflict, Some(SlotMissing), {})
               else Outcome(Applied, None, {})
  {
  }

  /**
   * What becomes of an object: a conflict names its fields; otherwise it is done when the draft
   * holds the merged object already, and applied when it does not.
   */
  lemma ObjectOutcome(d: Draft, original: Draft, c: Change)
    requires c.Keyed? && IsComposition(c.target)
    ensures var p := PlaceOf(c.target);
            var m :=
              MergeObject(KindOf(c.target), c.op, AsJson(Read(original, p)), AsJson(Read(d, p)), AsJson(c.after));
            KeyedOutcome(d, original, c)
            == if m.conflicts != {} then Outcome(Conflict, Some(Diverged), m.conflicts)
               else if m.value == AsJson(Read(d, p)) then Outcome(AlreadyApplied, None, {})
               else Outcome(Applied, None, {})
  {
    ObjectsFit(d, c.target);
  }

  /** Kinds of objects and the lists and maps that hold them. */
  lemma ObjectPlaces(a: Address)
    ensures a.CastAddress? ==> PlaceOf(a) == InList(Cast, a.key) && KindOf(a) == CastMember
    ensures a.GroupAddress? ==> PlaceOf(a) == InList(Groups, a.id) && KindOf(a) == ContentGroup
    ensures a.SourceAddress? ==> PlaceOf(a) == InList(Sources, a.id) && KindOf(a) == KnowledgeSource
    ensures a.FragmentAddress? ==> PlaceOf(a) == InList(Fragments, a.id) && !IsComposition(a)
    ensures a.EdgeAddress? ==> PlaceOf(a) == InList(Edges, a.id) && !IsComposition(a)
    ensures a.SlotAddress? ==> PlaceOf(a) == SlotAt(a.slot) && !IsComposition(a)
    ensures a.VariantAddress? ==> PlaceOf(a) == VariantAt(a.slot, a.variant) && !IsComposition(a)
    ensures a.StoryAddress? ==> KindOf(a) == StoryObject(a.kind)
    ensures a.StoryAddress? && a.kind.Listed? ==> PlaceOf(a) == InList(StoryList(a.kind.kind), a.id)
    ensures a.StoryAddress? && a.kind.Var? ==> PlaceOf(a) == InRecord(Vars, a.id)
    ensures a.StoryAddress? && a.kind.Knowing? ==> PlaceOf(a) == InRecord(KnowingMap, a.id)
  {
  }

  /** Metadata fields are keyed by the place they stand in, and configurations by their name. */
  lemma FieldPlaces(a: Address)
    requires a.Metadata? || a.Configuration?
    ensures PlaceOf(a).InRecord? && PlaceOf(a).record in {Top, Meta} && !IsComposition(a)
    ensures a.Metadata? ==>
              AddressKey(a) == "metadata:" + (if PlaceOf(a).record == Meta then "meta." else "") + PlaceOf(a).key
    ensures a.Configuration? ==> AddressKey(a) == "configuration:" + PlaceOf(a).key && PlaceOf(a).record == Top
    ensures a.Metadata? ==> (PlaceOf(a).record == Top <==> a.metadata in {DisplayName, Summary})
  {
  }

  // ---------------------------------------------------------------------------
  // The whole merge
  // ---------------------------------------------------------------------------

  /** An order change names every object the contribution proposes for the list, and nothing else. */
  ghost predicate NamesProposed(original: Draft, cs: seq<Change>, c: Change)
    requires c.Reorder?
  {
    var proposed := ListIds(Proposed(original, cs), c.list);
    |proposed| == |c.ids| && Elems(proposed) <= Elems(c.ids)
  }

  /**
   * A merge gives a report exactly when the contribution is admissible and its orders name what it
   * proposes; and a result exactly when nothing conflicts and the merged draft passes the final check.
   */
  lemma MergeExactly(d: Draft, cs: seq<Change>, baseline: Option<Draft>, rules: Rules)
    ensures var original, m := Original(baseline), MergeContribution(d, cs, baseline, rules);
            && (m.Ok? <==> Admissible(d, cs, baseline, rules)
                           && forall c <- cs | c.Reorder? :: NamesProposed(original, cs, c))
            && (m.Ok? ==>
                  var outcomes, merged := Outcomes(d, original, cs), MergedDraft(d, original, cs);
                  if exists o <- outcomes :: o.state.Conflict? then m.value == Report(outcomes, None)
                  else if rules.valid(merged) then m.value == Report(outcomes, Some(merged))
                  else m.value.result == None && |m.value.outcomes| == |cs|
                       && forall o <- m.value.outcomes :: o == Outcome(Conflict, Some(InvalidResult), {}))
  {
    var original := Original(baseline);
    AdmissionExactly(d, cs, baseline, rules);
    OrdersNameMembers(Proposed(original, cs), cs);
    forall c | c in cs && c.Reorder?
      ensures NamesMembers(ListIds(Proposed(original, cs), c.list), c.ids) <==> NamesProposed(original, cs, c)
    {
      NamingIsInclusion(ListIds(Proposed(original, cs), c.list), c.ids);
    }
  }

  lemma NamingIsInclusion(membership: seq<string>, ids: seq<string>)
    ensures NamesMembers(membership, ids) <==> |membership| == |ids| && Elems(membership) <= Elems(ids)
  {
    if NamesMembers(membership, ids) {
      forall x | x in Elems(membership) ensures x in Elems(ids) { assert x in membership; }
    }
    if Elems(membership) <= Elems(ids) {
      forall x | x in membership ensures x in ids { assert x in Elems(membership); }
    }
  }

  /** What becomes of an order change: a conflict, or done when the draft has the merged order, or applied. */
  lemma OrderOutcomeExactly(w: Draft, d: Draft, original: Draft, c: Change)
    requires c.Reorder?
    ensures var base, current, after := ListIds(original, c.list), ListIds(d, c.list), c.ids;
            var common := Elems(base) * Elems(current) * Elems(after);
            var b, k, a := Keep(base, common), Keep(current, common), Keep(after, common);
            var members, merged := ListIds(w, c.list), MergeOrder(base, current, after, ListIds(w, c.list)).ids;
            && LedBy(merged, if b == a && base != current then current else after, members)
            && OrderOutcome(w, d, original, c)
               == if b != k && b != a && k != a then Outcome(Conflict, Some(Diverged), {"@order"})
                  else if merged == current then Outcome(AlreadyApplied, None, {})
                  else Outcome(Applied, None, {})
  {
    MergedOrderLaw(ListIds(original, c.list), ListIds(d, c.list), c.ids, ListIds(w, c.list));
  }

  // ---------------------------------------------------------------------------
  // Lists that no change reorders
  // ---------------------------------------------------------------------------

  ghost function IdsIn(d: Draft, list: ListName): seq<string> {
    IdsOf(ListOf(d, list))
  }

  /** The objects of a list that the changes name, in the order of the changes. */
  ghost function Targets(cs: seq<Change>, list: ListName): seq<string> {
    if cs == [] then []
    else
      var front, c := Targets(cs[..|cs| - 1], list), cs[|cs| - 1];
      if c.Keyed? && PlaceOf(c.target).InList? && PlaceOf(c.target).list == list
      then front + [PlaceOf(c.target).id] else front
  }

  lemma {:induction false} TargetsNamed(cs: seq<Change>, list: ListName, id: string)
    ensures id in Targets(cs, list) <==> exists c :: c in cs && c.Keyed? && PlaceOf(c.target) == InList(list, id)
    decreases |cs|
  {
    if cs != [] {
      var front, last := cs[..|cs| - 1], cs[|cs| - 1];
      TargetsNamed(front, list, id);
      assert cs == front + [last];
      if c :| c in cs && c.Keyed? && PlaceOf(c.target) == InList(list, id) { assert c in front || c == last; }
      if c :| c in front && c.Keyed? && PlaceOf(c.target) == InList(list, id) { assert c in cs; }
      assert last in cs;
    }
  }

  /** `now` is `was` without what is gone, in its old order, and then what is new in the order of `named`. */
  ghost predicate InOldOrder(was: seq<string>, named: seq<string>, now: seq<string>) {
    now == Keep(was, Elems(now)) + Keep(named, Elems(now) - Elems(was))
  }

  lemma OrderUnchanged(was: seq<string>, named: seq<string>, now: seq<string>, id: string)
    requires InOldOrder(was, named, now) && (id in now <==> id in was)
    ensures InOldOrder(was, named + [id], now)
  {
    KeepConcat(named, [id], Elems(now) - Elems(was));
    KeepNone([id], Elems(now) - Elems(was));
  }

  lemma OrderAdded(was: seq<string>, named: seq<string>, now: seq<string>, id: string)
    requires InOldOrder(was, named, now) && id !in now && id !in was && id !in named
    ensures InOldOrder(was, named + [id], now + [id])
  {
    var e, f := Elems(now), Elems(now + [id]);
    assert f == e + {id};
    KeepAgree(was, e, f);
    KeepAgree(named, e - Elems(was), f - Elems(was));
    KeepConcat(named, [id], f - Elems(was));
    KeepAll([id], f - Elems(was));
    Regroup(Keep(was, e), Keep(named, e - Elems(was)), [id]);
  }

  lemma OrderRemoved(was: seq<string>, named: seq<string>, now: seq<string>, id: string)
    requires InOldOrder(was, named, now) && (id in now <==> id in was)
    ensures InOldOrder(was, named + [id], Drop(now, {id}))
  {
    var e := Elems(now);
    var left, new_ := e - {id}, e - Elems(was);
    DropElems(now, {id});
    KeepConcat(Keep(was, e), Keep(named, new_), left);
    KeepKeep(was, e, left);
    KeepKeep(named, new_, left);
    assert e * left == left && new_ * left == new_ == left - Elems(was);
    KeepConcat(named, [id], new_);
    KeepNone([id], new_);
  }

  lemma WriteIds(w: Draft, p: Place, v: Option<Value>, list: ListName)
    requires WellFormed(w)
    ensures IdsIn(Write(w, p, v), list)
            == if p.InList? && p.list == list then IdsOf(Upsert(ListOf(w, list), p.id, AsJson(v))) else IdsIn(w, list)
  {
  }

  lemma ListedIn(d: Draft, list: ListName, id: string)
    ensures id in IdsIn(d, list) <==> Read(d, InList(list, id)).Some?
  {
    FindIffListed(ListOf(d, list), id);
  }

  /** One more change of an object of the list. */
  lemma TargetInOrder(d: Draft, original: Draft, front: seq<Change>, c: Change, list: ListName)
    requires WellFormed(d) && WellShapedAll(front + [c], original) && Independent(front + [c])
    requires c.Keyed? && PlaceOf(c.target).InList? && PlaceOf(c.target).list == list
    requires NoDup(IdsIn(ApplyObjects(d, original, front), list))
    requires InOldOrder(IdsIn(d, list), Targets(front, list), IdsIn(ApplyObjects(d, original, front), list))
    ensures var w := ApplyObject(ApplyObjects(d, original, front), d, original, c);
            && NoDup(IdsIn(w, list))
            && InOldOrder(IdsIn(d, list), Targets(front, list) + [PlaceOf(c.target).id], IdsIn(w, list))
  {
    var w, p := ApplyObjects(d, original, front), PlaceOf(c.target);
    var was, named, now := IdsIn(d, list), Targets(front, list), IdsIn(w, list);
    Separates(front + [c], front, c);
    forall x | x in front && x.Keyed? ensures !Overlaps(PlaceOf(x.target), p) { assert Separate(x, c); }
    ObjectsRead(d, original, front, p);
    ListedIn(d, list, p.id);
    ListedIn(w, list, p.id);
    TargetsNamed(front, list, p.id);
    assert p.id !in named;
    if KeyedOutcome(d, original, c).state.Applied? {
      var v := AsJson(NewValue(d, original, c));
      WriteIds(w, p, NewValue(d, original, c), list);
      UpsertIds(ListOf(w, list), p.id, v);
      if v.None? {
        OrderRemoved(was, named, now, p.id);
      } else if p.id in now {
        OrderUnchanged(was, named, now, p.id);
      } else {
        OrderAdded(was, named, now, p.id);
      }
    } else {
      OrderUnchanged(was, named, now, p.id);
    }
  }

  lemma {:induction false} ObjectsInOrder(d: Draft, original: Draft, cs: seq<Change>, list: ListName)
    requires WellFormed(d) && WellShapedAll(cs, original) && Independent(cs) && NoDup(IdsIn(d, list))
    ensures NoDup(IdsIn(ApplyObjects(d, original, cs), list))
    ensures InOldOrder(IdsIn(d, list), Targets(cs, list), IdsIn(ApplyObjects(d, original, cs), list))
    decreases |cs|
  {
    if cs == [] {
      KeepAll(IdsIn(d, list), Elems(IdsIn(d, list)));
    } else {
      var front, c := cs[..|cs| - 1], cs[|cs| - 1];
      assert cs == front + [c];
      Separates(cs, front, c);
      ObjectsInOrder(d, original, front, list);
      var w := ApplyObjects(d, original, front);
      if c.Keyed? && PlaceOf(c.target).InList? && PlaceOf(c.target).list == list {
        TargetInOrder(d, original, front, c, list);
      } else if c.Keyed? && KeyedOutcome(d, original, c).state.Applied? {
        ObjectsWellFormed(d, original, front);
        WriteIds(w, PlaceOf(c.target), NewValue(d, original, c), list);
      }
    }
  }

  /**
   * A list that no change reorders keeps the draft's order; what the contribution adds follows in
   * the order of its changes.
   */
  lemma OrderKept(d: Draft, cs: seq<Change>, baseline: Option<Draft>, rules: Rules, list: ListName)
    requires WellFormed(d) && NoDup(IdsIn(d, list))
    requires forall c <- cs | c.Reorder? :: StoryList(c.list) != list
    requires var m := MergeContribution(d, cs, baseline, rules); m.Ok? && m.value.result.Some?
    ensures var now := IdsIn(MergeContribution(d, cs, baseline, rules).value.result.value, list);
            NoDup(now) && InOldOrder(IdsIn(d, list), Targets(cs, list), now)
  {
    AdmittedIndependent(d, cs, baseline, rules);
    ListKept(d, Original(baseline), cs, list);
  }

  lemma ListKept(d: Draft, original: Draft, cs: seq<Change>, list: ListName)
    requires WellFormed(d) && WellShapedAll(cs, original) && Independent(cs) && NoDup(IdsIn(d, list))
    requires forall c <- cs | c.Reorder? :: StoryList(c.list) != list
    ensures var now := IdsIn(MergedDraft(d, original, cs), list);
            NoDup(now) && InOldOrder(IdsIn(d, list), Targets(cs, list), now)
  {
    ObjectsInOrder(d, original, cs, list);
    var w := ApplyObjects(d, original, cs);
    var all := ApplyOrders(w, d, original, cs);
    OtherListsKept(w, d, original, cs, list);
    assert ListOf(all, list) == ListOf(w, list) by {
      assert Stored(all, list) == Stored(w, list);
    }
    ObjectsWellFormed(d, original, cs);
    OrdersRead(w, d, original, cs, InRecord(Top, ""));
    RemovedList(all, list);
  }

  // ---------------------------------------------------------------------------
  // Empty stories
  // ---------------------------------------------------------------------------

  /** The story has something besides its version. */
  ghost predicate TellsSomething(d: Draft) {
    || (d.story.Story? && d.story.player.Some?)
    || (exists k: ListKind :: ListOf(d, StoryList(k)) != [])
    || RecordOf(d, Vars) != map[] || RecordOf(d, KnowingMap) != map[]
  }

  lemma EmptyExactly(d: Draft)
    requires WellFormed(d)
    ensures StoryIsEmpty(d) <==> d.story.Story? && !TellsSomething(d)
  {
    if d.story.Story? && !TellsSomething(d) {
      forall list | list in d.lists && list.StoryList? ensures d.lists[list] == [] {
        assert ListOf(d, StoryList(list.kind)) == d.lists[list];
      }
    }
    if StoryIsEmpty(d) {
      forall k: ListKind ensures ListOf(d, StoryList(k)) == [] {
        assert StoryList(k) in d.lists ==> d.lists[StoryList(k)] == [];
      }
    }
  }

  lemma {:induction false} ObjectsKeepStory(d: Draft, original: Draft, cs: seq<Change>)
    requires forall c <- cs :: !NeedsBase(c)
    ensures ApplyObjects(d, original, cs).story == d.story
    decreases |cs|
  {
    if cs != [] {
      var front, c := cs[..|cs| - 1], cs[|cs| - 1];
      assert c in cs && forall x <- front :: x in cs;
      ObjectsKeepStory(d, original, front);
      assert !InStory(PlaceOf(c.target));
    }
  }

  lemma {:induction false} NoOrdersNoChange(w: Draft, d: Draft, original: Draft, cs: seq<Change>)
    requires forall c <- cs :: !c.Reorder?
    ensures ApplyOrders(w, d, original, cs) == w
    decreases |cs|
  {
    if cs != [] {
      var front, c := cs[..|cs| - 1], cs[|cs| - 1];
      assert c in cs && forall x <- front :: x in cs;
      NoOrdersNoChange(w, d, original, front);
    }
  }

  /**
   * A contribution to objects or orders never leaves a story with nothing in it; any other one
   * leaves the story as it is, empty or not.
   */
  lemma StoryExactly(d: Draft, cs: seq<Change>, baseline: Option<Draft>, rules: Rules)
    requires WellFormed(d)
    requires var m := MergeContribution(d, cs, baseline, rules); m.Ok? && m.value.result.Some?
    ensures var r := MergeContribution(d, cs, baseline, rules).value.result.value;
            if exists c <- cs :: c.Reorder? || IsComposition(c.target) then r.story.Story? ==> TellsSomething(r)
            else r.story == d.story
  {
    AdmittedIndependent(d, cs, baseline, rules);
    MergedStory(d, Original(baseline), cs);
  }

  lemma MergedStory(d: Draft, original: Draft, cs: seq<Change>)
    requires WellFormed(d)
    ensures var r := MergedDraft(d, original, cs);
            if exists c <- cs :: NeedsBase(c) then r.story.Story? ==> TellsSomething(r) else r.story == d.story
  {
    var w := ApplyObjects(d, original, cs);
    if exists c <- cs :: NeedsBase(c) {
      ObjectsWellFormed(d, original, cs);
      OrdersRead(w, d, original, cs, InRecord(Top, ""));
      EmptyExactly(ApplyOrders(w, d, original, cs));
    } else {
      ObjectsKeepStory(d, original, cs);
      NoOrdersNoChange(w, d, original, cs);
    }
  }

  // ---------------------------------------------------------------------------
  // Names
  // ---------------------------------------------------------------------------

  /** The names of the fields that stand beside `meta`. */
  lemma TopNames()
    ensures PlaceOf(Metadata(DisplayName)) == InRecord(Top, "display_name")
    ensures PlaceOf(Metadata(Summary)) == InRecord(Top, "summary")
    ensures PlaceOf(Configuration(Policy)) == InRecord(Top, "policy")
    ensures PlaceOf(Configuration(PromptModule)) == InRecord(Top, "prompt_module")
    ensures PlaceOf(Configuration(Assembly)) == InRecord(Top, "assembly")
    ensures PlaceOf(Configuration(AssemblyTests)) == InRecord(Top, "assembly_tests")
  {
  }

  /** The names of the fields inside `meta`. */
  lemma MetaNames()
    ensures PlaceOf(Metadata(DefaultLocale)) == InRecord(Meta, "default_locale")
    ensures PlaceOf(Metadata(Tags)) == InRecord(Meta, "tags") && PlaceOf(Metadata(Rating)) == InRecord(Meta, "rating")
    ensures PlaceOf(Metadata(ContentWarnings)) == InRecord(Meta, "content_warnings")
    ensures PlaceOf(Metadata(Rights)) == InRecord(Meta, "rights")
  {
  }

  lemma MoreMetaNames()
    ensures PlaceOf(Metadata(License)) == InRecord(Meta, "license")
    ensures PlaceOf(Metadata(RecommendedPresets)) == InRecord(Meta, "recommended_presets")
    ensures PlaceOf(Metadata(ContributionPolicy)) == InRecord(Meta, "contribution_policy")
  {
  }
}
