/**
 * The merge as it runs: a working copy and a copy of the base that are changed in place, one
 * change after another. Each step is proved against the function that specifies it.
 */
module MergeRun {
  import opened Common
  import opened StoryMerge
  import opened ObjectMerge
  import opened OrderMerge
  import opened Drafts
  import opened Contribution
  import opened ContributionLaws

  /** Replaces, removes or appends one entry of a keyed list. */
  method UpsertEntry<V>(list: seq<Entry<V>>, id: string, v: Option<V>) returns (r: seq<Entry<V>>)
    ensures r == Upsert(list, id, v)
  {
    var i := 0;
    while i < |list| && list[i].id != id
      invariant i <= |list|
      invariant Upsert(list, id, v) == list[..i] + Upsert(list[i..], id, v)
    {
      assert list[i..][1..] == list[i + 1..];
      i := i + 1;
    }
    UpsertRest(list, i, id, v);
    match v {
      case None => r := if i < |list| then list[..i] + list[i + 1..] else list;
      case Some(value) => r := if i < |list| then list[i := Entry(id, value)] else list + [Entry(id, value)];
    }
  }

  lemma UpsertRest<V>(list: seq<Entry<V>>, i: nat, id: string, v: Option<V>)
    requires i <= |list| && (i < |list| ==> list[i].id == id)
    ensures i == |list| ==> list[..i] + Upsert(list[i..], id, v) == if v.None? then list
            else list + [Entry(id, v.value)]
    ensures i < |list| ==>
      list[..i] + Upsert(list[i..], id, v)
      == if v.None? then list[..i] + list[i + 1..] else list[i := Entry(id, v.value)]
  {
    if i < |list| { assert list[i..][1..] == list[i + 1..]; }
  }

  /** A copy of a draft that is changed in place and thrown away if the merge fails. */
  class Working {
    const identity: (string, string, string)
    const rest: Json
    var lists: map<ListName, seq<Entry<Json>>>
    var records: map<RecordName, map<string, Json>>
    var assets: seq<Entry<SlotBody>>
    var story: Story

    function Document(): Draft
      reads this
    {
      Draft.Draft(identity, rest, lists, records, assets, story)
    }

    constructor (d: Draft)
      ensures Document() == d
    {
      identity, rest, lists, records, assets, story := d.identity, d.rest, d.lists, d.records, d.assets, d.story;
    }

    method Apply(p: Place, v: Option<Value>)
      requires p.VariantAt? ==> Find(assets, p.slot).Some?
      modifies this
      ensures Document() == Write(old(Document()), p, v)
    {
      if InStory(p) && story.NoStory? {
        if v.None? { return; }
        story := Story(None);
        lists := lists[StoryList(Scene) := []];
      }
      match p {
        case InList(list, id) =>
          var updated := UpsertEntry(if list in lists then lists[list] else [], id, AsJson(v));
          lists := if updated == [] && Droppable(list) then lists - {list} else lists[list := updated];
        case InRecord(record, key) =>
          var held := if record in records then records[record] else map[];
          if v.None? {
            held := held - {key};
          } else if v.value.Plain? {
            held := held[key := v.value.json];
          }
          records := if held == map[] && record in {Vars, KnowingMap} then records - {record}
                     else records[record := held];
        case SlotAt(slot) =>
          assets := UpsertEntry(assets, slot, AsBody(v));
        case VariantAt(slot, variant) =>
          var body := Find(assets, slot).value;
          var variants := UpsertEntry(body.variants, variant, AsJson(v));
          assets := UpsertEntry(assets, slot, Some(body.(variants := variants)));
      }
    }

    method ApplyListOrder(kind: ListKind, ids: seq<string>)
      modifies this
      ensures Document() == ApplyOrder(old(Document()), kind, ids)
    {
      if story.NoStory? { return; }
      var list := StoryList(kind);
      var entries := if list in lists then lists[list] else [];
      var ordered: seq<Entry<Json>> := [];
      for i := 0 to |ids|
        invariant unchanged(this)
        invariant Pick(entries, ids) == ordered + Pick(entries, ids[i..])
      {
        assert ids[i..][1..] == ids[i + 1..];
        var found := Find(entries, ids[i]);
        if found.Some? { ordered := ordered + [Entry(ids[i], found.value)]; }
      }
      assert Pick(entries, ids[|ids|..]) == [];
      assert ordered == Pick(ListOf(Document(), list), ids);
      lists := if ids == [] && Droppable(list) then lists - {list} else lists[list := ordered];
    }

    method DropEmptyStory()
      modifies this
      ensures Document() == RemoveEmptyStory(old(Document()))
    {
      if StoryIsEmpty(Document()) {
        story := NoStory;
        lists := map list | list in lists && !list.StoryList? :: lists[list];
        records := records - {Vars, KnowingMap};
      }
    }
  }

  /** The first repeated key, found with a set of the keys seen so far. */
  method FindDuplicate(keys: seq<string>) returns (e: Option<MergeError>)
    ensures e == FirstDuplicate(keys, 0)
  {
    var seen: set<string> := {};
    for i := 0 to |keys|
      invariant seen == Elems(keys[..i])
      invariant FirstDuplicate(keys, 0) == FirstDuplicate(keys, i)
    {
      if keys[i] in seen { return Some(DuplicateKey(keys[i])); }
      seen := seen + {keys[i]};
      assert keys[..i + 1] == keys[..i] + [keys[i]];
    }
    e := None;
  }

  /** Refuses a malformed contribution, in the order the checks are made. */
  method Admit(d: Draft, cs: seq<Change>, baseline: Option<Draft>, rules: Rules) returns (e: Option<MergeError>)
    ensures e == Admission(d, cs, baseline, rules)
  {
    if baseline.None? && exists c | c in cs :: NeedsBase(c) { return Some(BaseRequired); }
    if baseline.Some? && baseline.value.identity != d.identity { return Some(BaseIdentityMismatch); }
    var keys := KeysOf(cs);
    e := FindDuplicate(keys);
    if e.Some? { return; }
    for i := 0 to |cs|
      invariant FirstOverlap(cs, keys) == FirstOverlap(cs[i..], keys)
    {
      assert cs[i..][1..] == cs[i + 1..];
      if cs[i].Keyed? && cs[i].target.VariantAddress? {
        var slotKey := AddressKey(SlotAddress(cs[i].target.slot));
        if slotKey in keys { return Some(OverlappingAssetChange(slotKey)); }
      }
    }
    for i := 0 to |cs|
      invariant FirstBadChange(cs, baseline, rules) == FirstBadChange(cs[i..], baseline, rules)
    {
      assert cs[i..][1..] == cs[i + 1..];
      e := ShapeError(cs[i], rules);
      if e.Some? { return; }
      e := BaseError(cs[i], baseline);
      if e.Some? { return; }
    }
    e := None;
  }

  /** Object changes first, to the working copy and to the copy of the base. */
  method ApplyObjectChanges(d: Draft, original: Draft, cs: seq<Change>, working: Working, proposed: Working)
    requires working != proposed && working.Document() == d && proposed.Document() == original
    requires forall i | 0 <= i < |cs| && cs[i].Keyed? && KeyedOutcome(d, original, cs[i]).state.Applied? ::
               SlotReady(ApplyObjects(d, original, cs[..i]), PlaceOf(cs[i].target))
    modifies working, proposed
    ensures working.Document() == ApplyObjects(d, original, cs)
    ensures proposed.Document() == Proposed(original, cs)
  {
    for i := 0 to |cs|
      invariant working.Document() == ApplyObjects(d, original, cs[..i])
      invariant proposed.Document() == Proposed(original, cs[..i])
    {
      var c := cs[i];
      assert cs[..i + 1][..i] == cs[..i] && cs[..i + 1][i] == c;
      if c.Keyed? {
        if IsComposition(c.target) { proposed.Apply(PlaceOf(c.target), c.after); }
        if KeyedOutcome(d, original, c).state.Applied? {
          working.Apply(PlaceOf(c.target), NewValue(d, original, c));
        }
      }
    }
    assert cs[..|cs|] == cs;
  }

  ghost predicate SlotReady(w: Draft, p: Place) {
    p.VariantAt? ==> Find(w.assets, p.slot).Some?
  }

  /** One order change, judged against the working copy as it is by then. */
  method RunOrderChange(d: Draft, original: Draft, c: Change, working: Working) returns (outcome: Outcome)
    requires c.Reorder?
    modifies working
    ensures outcome == OrderOutcome(old(working.Document()), d, original, c)
    ensures working.Document() == ApplyOrderChange(old(working.Document()), d, original, c)
  {
    var merged := MergeOrder(ListIds(original, c.list), ListIds(d, c.list), c.ids,
                             ListIds(working.Document(), c.list));
    if merged.conflict {
      outcome := Outcome(Conflict, Some(Diverged), {"@order"});
    } else {
      outcome := Outcome(if merged.ids == ListIds(d, c.list) then AlreadyApplied else Applied, None, {});
      working.ApplyListOrder(c.list, merged.ids);
    }
  }

  /** The outcomes of the first `n` changes. */
  ghost function OutcomesTo(d: Draft, original: Draft, cs: seq<Change>, n: nat): seq<Outcome>
    requires n <= |cs|
  {
    if n == 0 then [] else OutcomesTo(d, original, cs, n - 1) + [OutcomeOf(d, original, cs, n - 1)]
  }

  lemma {:induction false} AllOutcomes(d: Draft, original: Draft, cs: seq<Change>, n: nat)
    requires n <= |cs|
    ensures OutcomesTo(d, original, cs, n) == Outcomes(d, original, cs)[..n]
    ensures n == |cs| ==> OutcomesTo(d, original, cs, n) == Outcomes(d, original, cs)
  {
    if n > 0 { AllOutcomes(d, original, cs, n - 1); }
  }

  lemma OrdersStep(w: Draft, d: Draft, original: Draft, cs: seq<Change>, i: nat)
    requires i < |cs|
    ensures ApplyOrders(w, d, original, cs[..i + 1])
         == ApplyOrderChange(ApplyOrders(w, d, original, cs[..i]), d, original, cs[i])
    ensures w == ApplyObjects(d, original, cs) && cs[i].Reorder? ==>
              OutcomeOf(d, original, cs, i) == OrderOutcome(ApplyOrders(w, d, original, cs[..i]), d, original, cs[i])
    ensures cs[i].Keyed? ==> OutcomeOf(d, original, cs, i) == KeyedOutcome(d, original, cs[i])
  {
    assert cs[..i + 1][..i] == cs[..i] && cs[..i + 1][i] == cs[i];
  }

  /** Then the order changes, in turn. */
  method ApplyOrderChanges(d: Draft, original: Draft, cs: seq<Change>, working: Working)
    returns (outcomes: seq<Outcome>)
    requires working.Document() == ApplyObjects(d, original, cs)
    modifies working
    ensures working.Document() == ApplyOrders(ApplyObjects(d, original, cs), d, original, cs)
    ensures outcomes == Outcomes(d, original, cs)
  {
    outcomes := [];
    ghost var w := working.Document();
    for i := 0 to |cs|
      invariant working.Document() == ApplyOrders(w, d, original, cs[..i])
      invariant outcomes == OutcomesTo(d, original, cs, i)
    {
      var outcome: Outcome;
      OrdersStep(w, d, original, cs, i);
      if cs[i].Keyed? {
        outcome := KeyedOutcome(d, original, cs[i]);
      } else {
        outcome := RunOrderChange(d, original, cs[i], working);
      }
      outcomes := outcomes + [outcome];
    }
    assert cs[..|cs|] == cs;
    AllOutcomes(d, original, cs, |cs|);
  }

  /** The whole merge: refuse, judge, apply to a copy, and hand the copy out only if nothing conflicts. */
  method RunMerge(d: Draft, cs: seq<Change>, baseline: Option<Draft>, rules: Rules)
    returns (m: Result<Report, MergeError>)
    ensures m == MergeContribution(d, cs, baseline, rules)
  {
    var original := Original(baseline);
    var refused := Admit(d, cs, baseline, rules);
    if refused.Some? { return Err(refused.value); }
    VariantSlotsReady(d, cs, baseline, rules);
    var working := new Working(d);
    var proposed := new Working(original);
    ApplyObjectChanges(d, original, cs, working, proposed);
    var badOrder := FirstBadOrder(proposed.Document(), cs);
    if badOrder.Some? { return Err(badOrder.value); }
    var outcomes := ApplyOrderChanges(d, original, cs, working);
    if exists c | c in cs :: NeedsBase(c) { working.DropEmptyStory(); }
    m := Ok(Judge(outcomes, working.Document(), rules));
  }

  /** The slot an applied variant change writes into is there when its turn comes. */
  lemma VariantSlotsReady(d: Draft, cs: seq<Change>, baseline: Option<Draft>, rules: Rules)
    requires Admission(d, cs, baseline, rules).None?
    ensures var original := Original(baseline);
            forall i | 0 <= i < |cs| && cs[i].Keyed? && KeyedOutcome(d, original, cs[i]).state.Applied? ::
              SlotReady(ApplyObjects(d, original, cs[..i]), PlaceOf(cs[i].target))
  {
    var original := Original(baseline);
    AdmittedIndependent(d, cs, baseline, rules);
    forall i | 0 <= i < |cs| && cs[i].Keyed? && KeyedOutcome(d, original, cs[i]).state.Applied?
      ensures SlotReady(ApplyObjects(d, original, cs[..i]), PlaceOf(cs[i].target))
    {
      var p := PlaceOf(cs[i].target);
      assert WellShaped(cs[i], original);
      AppliedVariantHasSlot(d, original, cs[i]);
      if p.VariantAt? {
        forall c | c in cs[..i] && c.Keyed? ensures PlaceOf(c.target) != SlotAt(p.slot) {
          var j :| 0 <= j < i && cs[j] == c;
          assert Separate(cs[j], cs[i]);
        }
        SlotSurvives(d, original, cs[..i], p.slot);
        SlotPresent(d, p.slot);
        SlotPresent(ApplyObjects(d, original, cs[..i]), p.slot);
      }
    }
  }
}
