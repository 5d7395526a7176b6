/** The order in which a contribution lists its changes does not matter. */
module ContributionOrder {
  import opened Common
  import opened StoryMerge
  import opened ObjectMerge
  import opened OrderMerge
  import opened Drafts
  import opened Contribution
  import opened ContributionLaws

  /**
   * Equal at every key, hidden values included; only the positions of different identities inside
   * a list may differ.
   */
  ghost predicate SameDocument(x: Draft, y: Draft) {
    && x.identity == y.identity && x.rest == y.rest && x.story == y.story
    && (forall q: Place | !q.SlotAt? :: ReadAll(x, q) == ReadAll(y, q))
    && (forall slot: string :: SlotFrame(x, slot) == SlotFrame(y, slot))
  }

  // ---------------------------------------------------------------------------
  // Admission does not look at the order
  // ---------------------------------------------------------------------------

  lemma SameChanges(xs: seq<Change>, ys: seq<Change>)
    requires multiset(xs) == multiset(ys)
    ensures forall c :: c in xs <==> c in ys
    ensures NoDup(KeysOf(xs)) <==> NoDup(KeysOf(ys))
    ensures forall key :: key in KeysOf(xs) <==> key in KeysOf(ys)
  {
    forall c ensures c in xs <==> c in ys {
      assert c in multiset(xs) <==> c in multiset(ys);
    }
    KeysTravel(xs, ys);
    KeysTravel(ys, xs);
    if NoDup(KeysOf(xs)) { DistinctKeysTravel(xs, ys); }
    if NoDup(KeysOf(ys)) { DistinctKeysTravel(ys, xs); }
  }

  lemma KeysTravel(xs: seq<Change>, ys: seq<Change>)
    requires forall c :: c in xs ==> c in ys
    ensures forall key :: key in KeysOf(xs) ==> key in KeysOf(ys)
  {
    forall key | key in KeysOf(xs) ensures key in KeysOf(ys) {
      var i :| 0 <= i < |xs| && KeysOf(xs)[i] == key;
      assert xs[i] in ys;
      var j :| 0 <= j < |ys| && ys[j] == xs[i];
      assert KeysOf(ys)[j] == key;
    }
  }

  lemma DistinctKeysTravel(xs: seq<Change>, ys: seq<Change>)
    requires multiset(xs) == multiset(ys) && NoDup(KeysOf(xs))
    ensures NoDup(KeysOf(ys))
  {
    assert |xs| == |multiset(xs)| == |multiset(ys)| == |ys|;
    assert forall c :: c in xs <==> c in multiset(xs);
    assert forall c :: c in ys <==> c in multiset(ys);
    KeysTravel(xs, ys);
    KeysTravel(ys, xs);
    NoDupCard(KeysOf(xs));
    assert Elems(KeysOf(xs)) == Elems(KeysOf(ys));
    CardNoDup(KeysOf(ys));
  }

  lemma AdmissionCommutes(d: Draft, xs: seq<Change>, ys: seq<Change>, baseline: Option<Draft>, rules: Rules)
    requires multiset(xs) == multiset(ys)
    ensures Admission(d, xs, baseline, rules).None? <==> Admission(d, ys, baseline, rules).None?
  {
    SameChanges(xs, ys);
    assert KeysOf(xs)[..0] == [] == KeysOf(ys)[..0];
    DuplicatesFound(KeysOf(xs), 0);
    DuplicatesFound(KeysOf(ys), 0);
    OverlapsFound(xs, KeysOf(xs));
    OverlapsFound(ys, KeysOf(ys));
    BadChangesFound(xs, baseline, rules);
    BadChangesFound(ys, baseline, rules);
  }

  /** Lists with equally many entries under every identity have the same identities, as often. */
  lemma SameIds<V>(s: seq<Entry<V>>, t: seq<Entry<V>>)
    requires forall id: string :: |All(s, id)| == |All(t, id)|
    ensures multiset(IdsOf(s)) == multiset(IdsOf(t)) && |IdsOf(s)| == |IdsOf(t)|
  {
    forall id: string ensures multiset(IdsOf(s))[id] == multiset(IdsOf(t))[id] {
      AllListed(s, id);
      AllListed(t, id);
    }
    assert |IdsOf(s)| == |multiset(IdsOf(s))| && |IdsOf(t)| == |multiset(IdsOf(t))|;
  }

  lemma SameMembersProposed(original: Draft, xs: seq<Change>, ys: seq<Change>, list: ListKind)
    requires (forall c :: c in xs <==> c in ys) && WellFormed(original)
    requires WellShapedAll(xs, original) && Independent(xs) && WellShapedAll(ys, original) && Independent(ys)
    ensures multiset(ListIds(Proposed(original, xs), list)) == multiset(ListIds(Proposed(original, ys), list))
    ensures |ListIds(Proposed(original, xs), list)| == |ListIds(Proposed(original, ys), list)|
  {
    var p, p' := Proposed(original, xs), Proposed(original, ys);
    var s, s' := ListOf(p, StoryList(list)), ListOf(p', StoryList(list));
    forall id: string ensures |All(s, id)| == |All(s', id)| {
      ProposedSame(original, xs, ys, InList(StoryList(list), id));
      assert |Plains(All(s, id))| == |Plains(All(s', id))|;
    }
    SameIds(s, s');
  }

  lemma NamingSame(p: seq<string>, p': seq<string>, ids: seq<string>)
    requires multiset(p) == multiset(p') && |p| == |p'|
    ensures NamesMembers(p, ids) <==> NamesMembers(p', ids)
  {
    assert forall id :: id in p <==> id in multiset(p);
    assert forall id :: id in p' <==> id in multiset(p');
  }

  lemma ProposalsCommute(original: Draft, xs: seq<Change>, ys: seq<Change>)
    requires multiset(xs) == multiset(ys) && WellFormed(original)
    requires WellShapedAll(xs, original) && Independent(xs) && WellShapedAll(ys, original) && Independent(ys)
    ensures FirstBadOrder(Proposed(original, xs), xs).None? <==> FirstBadOrder(Proposed(original, ys), ys).None?
  {
    SameChanges(xs, ys);
    var p, p' := Proposed(original, xs), Proposed(original, ys);
    OrdersNameMembers(p, xs);
    OrdersNameMembers(p', ys);
    forall c | c in xs && c.Reorder?
      ensures NamesMembers(ListIds(p, c.list), c.ids) <==> NamesMembers(ListIds(p', c.list), c.ids)
    {
      SameMembersProposed(original, xs, ys, c.list);
      NamingSame(ListIds(p, c.list), ListIds(p', c.list), c.ids);
    }
  }

  lemma ProposedSame(original: Draft, xs: seq<Change>, ys: seq<Change>, q: Place)
    requires (forall c :: c in xs <==> c in ys) && WellFormed(original) && q.InList? && q.list.StoryList?
    requires WellShapedAll(xs, original) && Independent(xs) && WellShapedAll(ys, original) && Independent(ys)
    ensures ReadAll(Proposed(original, xs), q) == ReadAll(Proposed(original, ys), q)
  {
    ProposedRead(original, xs, q);
    ProposedRead(original, ys, q);
  }

  // ---------------------------------------------------------------------------
  // The merged values do not depend on the order
  // ---------------------------------------------------------------------------

  /** The input of both merges. */
  ghost predicate Reordered(d: Draft, original: Draft, xs: seq<Change>, ys: seq<Change>) {
    && WellFormed(d) && multiset(xs) == multiset(ys)
    && WellShapedAll(xs, original) && Independent(xs) && WellShapedAll(ys, original) && Independent(ys)
  }

  /** A place some change overlaps without being its own is a slot, or a variant of a changed slot. */
  lemma ObjectsSame(d: Draft, original: Draft, xs: seq<Change>, ys: seq<Change>, q: Place)
    requires Reordered(d, original, xs, ys) && !q.SlotAt?
    ensures ReadAll(ApplyObjects(d, original, xs), q) == ReadAll(ApplyObjects(d, original, ys), q)
    ensures Read(ApplyObjects(d, original, xs), q) == Read(ApplyObjects(d, original, ys), q)
  {
    SameChanges(xs, ys);
    ObjectsReadAll(d, original, xs, q);
    ObjectsReadAll(d, original, ys, q);
    if q.VariantAt? {
      var slot := SlotAt(q.slot);
      if c :| c in xs && c.Keyed? && PlaceOf(c.target) == slot {
        ObjectsRead(d, original, xs, slot);
        ObjectsRead(d, original, ys, slot);
        assert c in ys;
        SlotDeterminesVariant(ApplyObjects(d, original, xs), ApplyObjects(d, original, ys), q);
      }
    }
    ReadIsFirst(ApplyObjects(d, original, xs), q);
    ReadIsFirst(ApplyObjects(d, original, ys), q);
  }

  lemma SlotDeterminesVariant(x: Draft, y: Draft, q: Place)
    requires q.VariantAt? && Read(x, SlotAt(q.slot)) == Read(y, SlotAt(q.slot))
    ensures ReadAll(x, q) == ReadAll(y, q)
  {
  }

  lemma SlotDeterminesFrame(x: Draft, y: Draft, slot: string)
    requires ReadAll(x, SlotAt(slot)) == ReadAll(y, SlotAt(slot))
    ensures SlotFrame(x, slot) == SlotFrame(y, slot)
  {
    var a, b := All(x.assets, slot), All(y.assets, slot);
    assert |a| == |Bodies(a)| == |Bodies(b)| == |b|;
    forall i | 0 <= i < |a| ensures a[i] == b[i] {
      assert Bodies(a)[i] == Bodies(b)[i];
    }
    assert a == b;
  }

  lemma SlotFrameSame(d: Draft, original: Draft, xs: seq<Change>, ys: seq<Change>, slot: string)
    requires Reordered(d, original, xs, ys)
    ensures SlotFrame(ApplyObjects(d, original, xs), slot) == SlotFrame(ApplyObjects(d, original, ys), slot)
  {
    SameChanges(xs, ys);
    if c :| c in xs && c.Keyed? && PlaceOf(c.target) == SlotAt(slot) {
      ObjectsReadAll(d, original, xs, SlotAt(slot));
      ObjectsReadAll(d, original, ys, SlotAt(slot));
      assert c in ys;
      SlotDeterminesFrame(ApplyObjects(d, original, xs), ApplyObjects(d, original, ys), slot);
    } else {
      SlotSurvives(d, original, xs, slot);
      SlotSurvives(d, original, ys, slot);
    }
  }

  // ---------------------------------------------------------------------------
  // The order of list entries, as far as it is determined
  // ---------------------------------------------------------------------------

  /** Entries the draft had stay in the draft's order, where it names each once. */
  lemma {:induction false} DraftOrderKept(d: Draft, original: Draft, cs: seq<Change>, kind: ListKind)
    requires WellFormed(d) && WellShapedAll(cs, original) && Independent(cs) && NoDup(ListIds(d, kind))
    ensures var ids, ids' := ListIds(d, kind), ListIds(ApplyObjects(d, original, cs), kind);
            Keep(ids', Elems(ids)) == Keep(ids, Elems(ids')) && NoDup(ids')
    decreases |cs|
  {
    var ids := ListIds(d, kind);
    if cs == [] {
      KeepAll(ids, Elems(ids));
    } else {
      var init, c := cs[..|cs| - 1], cs[|cs| - 1];
      assert cs == init + [c];
      Separates(cs, init, c);
      var w := ApplyObjects(d, original, init);
      DraftOrderKept(d, original, init, kind);
      ObjectsWellFormed(d, original, init);
      if c.Keyed? && KeyedOutcome(d, original, c).state.Applied? && OnList(c, kind) {
        var id := PlaceOf(c.target).id;
        ObjectsRead(d, original, init, PlaceOf(c.target));
        forall x | x in init && x.Keyed? ensures !Overlaps(PlaceOf(x.target), PlaceOf(c.target)) {
          assert Separate(x, c);
        }
        ListedIffRead(d, kind, id);
        ListedIffRead(w, kind, id);
        NewValueFits(d, original, c);
        WriteListIds(w, kind, id, NewValue(d, original, c));
        OrderOfWrite(ids, ListIds(w, kind), id, NewValue(d, original, c).Some?);
      } else {
        OffListWrite(w, d, original, c, kind);
      }
    }
  }

  ghost predicate OnList(c: Change, kind: ListKind)
    requires c.Keyed?
  {
    PlaceOf(c.target).InList? && PlaceOf(c.target).list == StoryList(kind)
  }

  lemma OffListWrite(w: Draft, d: Draft, original: Draft, c: Change, kind: ListKind)
    requires WellFormed(w) && (c.Keyed? && KeyedOutcome(d, original, c).state.Applied? ==> !OnList(c, kind))
    ensures ListIds(ApplyObject(w, d, original, c), kind) == ListIds(w, kind)
  {
    assert ListOf(ApplyObject(w, d, original, c), StoryList(kind)) == ListOf(w, StoryList(kind));
  }

  lemma WriteListIds(w: Draft, kind: ListKind, id: string, v: Option<Value>)
    requires WellFormed(w) && Fits(InList(StoryList(kind), id), v) && NoDup(ListIds(w, kind))
    ensures NoDup(ListIds(Write(w, InList(StoryList(kind), id), v), kind))
    ensures ListIds(Write(w, InList(StoryList(kind), id), v), kind)
         == if v.None? then Drop(ListIds(w, kind), {id})
            else if id in ListIds(w, kind) then ListIds(w, kind) else ListIds(w, kind) + [id]
  {
    UpsertIds(ListOf(w, StoryList(kind)), id, AsJson(v));
    if w.story.NoStory? && v.None? {
      assert ListIds(w, kind) == [];
      assert Drop(ListIds(w, kind), {id}) == [];
    } else {
      var e := WithStory(w);
      assert ListOf(e, StoryList(kind)) == ListOf(w, StoryList(kind));
    }
  }

  lemma OrderOfWrite(ids: seq<string>, now: seq<string>, id: string, present: bool)
    requires NoDup(ids) && NoDup(now) && (id in ids <==> id in now)
    requires Keep(now, Elems(ids)) == Keep(ids, Elems(now))
    ensures var next := if !present then Drop(now, {id}) else if id in now then now else now + [id];
            Keep(next, Elems(ids)) == Keep(ids, Elems(next))
  {
    if !present {
      var rest := Elems(now) - {id};
      DropElems(now, {id});
      KeepKeep(now, rest, Elems(ids));
      KeepKeep(now, Elems(ids), rest);
      KeepKeep(ids, Elems(now), rest);
      assert rest * Elems(ids) == Elems(ids) * rest && Elems(now) * rest == rest;
    } else if id !in now {
      KeepConcat(now, [id], Elems(ids));
      KeepNone([id], Elems(ids));
      assert Elems(now + [id]) == Elems(now) + {id};
      KeepAgree(ids, Elems(now), Elems(now) + {id});
    }
  }

  lemma MembersSame(d: Draft, original: Draft, xs: seq<Change>, ys: seq<Change>, list: ListKind)
    requires Reordered(d, original, xs, ys)
    ensures Elems(ListIds(ApplyObjects(d, original, xs), list)) == Elems(ListIds(ApplyObjects(d, original, ys), list))
  {
    var w, w' := ApplyObjects(d, original, xs), ApplyObjects(d, original, ys);
    ObjectsRead(d, original, xs, InRecord(Top, ""));
    ObjectsRead(d, original, ys, InRecord(Top, ""));
    forall id ensures id in ListIds(w, list) <==> id in ListIds(w', list) {
      ListedIffRead(w, list, id);
      ListedIffRead(w', list, id);
      ObjectsSame(d, original, xs, ys, InList(StoryList(list), id));
    }
  }

  /** Whether an order change finds the list already merged does not depend on the other changes' order. */
  lemma OrderStateSame(d: Draft, original: Draft, xs: seq<Change>, ys: seq<Change>, c: Change)
    requires Reordered(d, original, xs, ys) && c.Reorder?
    ensures OrderOutcome(ApplyObjects(d, original, xs), d, original, c)
         == OrderOutcome(ApplyObjects(d, original, ys), d, original, c)
  {
    var w, w' := ApplyObjects(d, original, xs), ApplyObjects(d, original, ys);
    var ids, m, m' := ListIds(d, c.list), ListIds(w, c.list), ListIds(w', c.list);
    MembersSame(d, original, xs, ys, c.list);
    ObjectsRead(d, original, xs, InRecord(Top, ""));
    ObjectsRead(d, original, ys, InRecord(Top, ""));
    OrderLaw(ListIds(original, c.list), ids, c.ids, m);
    OrderLaw(ListIds(original, c.list), ids, c.ids, m');
    if Elems(m) == Elems(ids) && NoDup(ids) {
      DraftOrderKept(d, original, xs, c.list);
      DraftOrderKept(d, original, ys, c.list);
      KeepAll(m, Elems(ids));
      KeepAll(m', Elems(ids));
      assert m == m';
    }
  }

  // ---------------------------------------------------------------------------
  // The story as a whole
  // ---------------------------------------------------------------------------

  ghost predicate HasStoryValues(d: Draft) {
    exists q: Place :: InStory(q) && Read(d, q).Some?
  }

  lemma {:induction false} StoryKept(d: Draft, original: Draft, cs: seq<Change>)
    ensures var w := ApplyObjects(d, original, cs);
            if d.story.Story? then w.story == d.story else w.story in {NoStory, Story(None)}
    decreases |cs|
  {
    if cs != [] { StoryKept(d, original, cs[..|cs| - 1]); }
  }

  lemma EmptyStoryReads(d: Draft)
    requires WellFormed(d) && d.story == Story(None)
    ensures StoryIsEmpty(d) <==> !HasStoryValues(d)
  {
    if !StoryIsEmpty(d) {
      if list :| list in d.lists && list.StoryList? && d.lists[list] != [] {
        assert Read(d, InList(list, d.lists[list][0].id)).Some?;
      } else if key :| key in RecordOf(d, Vars) {
        assert Read(d, InRecord(Vars, key)).Some?;
      } else {
        var key :| key in RecordOf(d, KnowingMap);
        assert Read(d, InRecord(KnowingMap, key)).Some?;
      }
    }
  }

  /** What is left of the story after the merge follows from the values in it. */
  lemma StoryDetermined(d: Draft, original: Draft, cs: seq<Change>)
    requires WellFormed(d) && WellShapedAll(cs, original) && Independent(cs)
    requires exists c | c in cs :: NeedsBase(c)
    ensures var r := MergedDraft(d, original, cs);
            r.story == if d.story.Story? && d.story.player.Some? then d.story
                       else if HasStoryValues(r) then Story(None) else NoStory
  {
    var w := ApplyObjects(d, original, cs);
    var all := ApplyOrders(w, d, original, cs);
    StoryKept(d, original, cs);
    ObjectsRead(d, original, cs, InRecord(Top, ""));
    OrdersRead(w, d, original, cs, InRecord(Top, ""));
    RemoveEmptyReads(all, InRecord(Top, ""));
    var r := MergedDraft(d, original, cs);
    forall q: Place ensures Read(r, q) == Read(all, q) { RemoveEmptyReads(all, q); }
    assert HasStoryValues(r) <==> HasStoryValues(all);
    if all.story == Story(None) { EmptyStoryReads(all); }
  }

  lemma {:induction false} NoStoryChange(d: Draft, original: Draft, cs: seq<Change>)
    requires forall c | c in cs :: !NeedsBase(c)
    ensures ApplyObjects(d, original, cs).story == d.story
    decreases |cs|
  {
    if cs != [] {
      var c := cs[|cs| - 1];
      assert c in cs && !NeedsBase(c);
      assert c.Keyed? ==> !InStory(PlaceOf(c.target));
      NoStoryChange(d, original, cs[..|cs| - 1]);
    }
  }

  // ---------------------------------------------------------------------------
  // The theorem
  // ---------------------------------------------------------------------------

  lemma {:induction false} AssetsUntouched(w: Draft, d: Draft, original: Draft, cs: seq<Change>)
    ensures ApplyOrders(w, d, original, cs).assets == w.assets
    decreases |cs|
  {
    if cs != [] { AssetsUntouched(w, d, original, cs[..|cs| - 1]); }
  }

  /** Whether the merged draft has a story does not depend on the order of the changes. */
  lemma StorySame(d: Draft, original: Draft, xs: seq<Change>, ys: seq<Change>)
    requires Reordered(d, original, xs, ys)
    requires forall q: Place | InStory(q) ::
               Read(MergedDraft(d, original, xs), q) == Read(MergedDraft(d, original, ys), q)
    ensures MergedDraft(d, original, xs).story == MergedDraft(d, original, ys).story
  {
    SameChanges(xs, ys);
    var r, r' := MergedDraft(d, original, xs), MergedDraft(d, original, ys);
    if c :| c in xs && NeedsBase(c) {
      assert c in ys;
      StoryDetermined(d, original, xs);
      StoryDetermined(d, original, ys);
      assert HasStoryValues(r) <==> HasStoryValues(r') by {
        assert forall q: Place | InStory(q) :: Read(r, q) == Read(r', q);
      }
    } else {
      var w, w' := ApplyObjects(d, original, xs), ApplyObjects(d, original, ys);
      NoStoryChange(d, original, xs);
      NoStoryChange(d, original, ys);
      ObjectsRead(d, original, xs, InRecord(Top, ""));
      ObjectsRead(d, original, ys, InRecord(Top, ""));
      OrdersRead(w, d, original, xs, InRecord(Top, ""));
      OrdersRead(w', d, original, ys, InRecord(Top, ""));
    }
  }

  /** The merged draft at a place: what the objects left there, without what an order change drops. */
  lemma MergedReadsAll(d: Draft, original: Draft, cs: seq<Change>, q: Place)
    requires WellFormed(d) && WellShapedAll(cs, original) && Independent(cs)
    ensures var w, r := ApplyObjects(d, original, cs), MergedDraft(d, original, cs);
            ReadAll(r, q)
            == if exists c | c in cs :: Reorders(d, original, c, q) then Lead(Read(w, q)) else ReadAll(w, q)
  {
    var w := ApplyObjects(d, original, cs);
    ObjectsWellFormed(d, original, cs);
    OrdersReadAll(w, d, original, cs, q);
    OrdersRead(w, d, original, cs, q);
    RemoveEmptyReads(ApplyOrders(w, d, original, cs), q);
  }

  lemma {:induction false} OrdersReadAll(w: Draft, d: Draft, original: Draft, cs: seq<Change>, q: Place)
    requires WellFormed(w)
    ensures ReadAll(ApplyOrders(w, d, original, cs), q)
         == if exists c | c in cs :: Reorders(d, original, c, q) then Lead(Read(w, q)) else ReadAll(w, q)
    decreases |cs|
  {
    if cs != [] {
      var init, c := cs[..|cs| - 1], cs[|cs| - 1];
      assert cs == init + [c];
      OrdersReadAll(w, d, original, init, q);
      OrdersRead(w, d, original, init, q);
      OrderChangeReads(ApplyOrders(w, d, original, init), d, original, c, q);
      assert (exists x | x in cs :: Reorders(d, original, x, q))
        <==> Reorders(d, original, c, q) || exists x | x in init :: Reorders(d, original, x, q);
    }
  }

  lemma MergedSameAt(d: Draft, original: Draft, xs: seq<Change>, ys: seq<Change>, q: Place)
    requires Reordered(d, original, xs, ys) && !q.SlotAt?
    ensures ReadAll(MergedDraft(d, original, xs), q) == ReadAll(MergedDraft(d, original, ys), q)
    ensures Read(MergedDraft(d, original, xs), q) == Read(MergedDraft(d, original, ys), q)
  {
    SameChanges(xs, ys);
    MergedReadsAll(d, original, xs, q);
    MergedReadsAll(d, original, ys, q);
    ObjectsSame(d, original, xs, ys, q);
    ReadIsFirst(MergedDraft(d, original, xs), q);
    ReadIsFirst(MergedDraft(d, original, ys), q);
  }

  lemma MergedAssets(d: Draft, original: Draft, cs: seq<Change>)
    ensures MergedDraft(d, original, cs).assets == ApplyObjects(d, original, cs).assets
    ensures MergedDraft(d, original, cs).identity == d.identity && MergedDraft(d, original, cs).rest == d.rest
  {
    AssetsUntouched(ApplyObjects(d, original, cs), d, original, cs);
    IdentityKept(ApplyObjects(d, original, cs), d, original, cs);
  }

  lemma MergedSame(d: Draft, original: Draft, xs: seq<Change>, ys: seq<Change>)
    requires Reordered(d, original, xs, ys)
    ensures SameDocument(MergedDraft(d, original, xs), MergedDraft(d, original, ys))
  {
    var r, r' := MergedDraft(d, original, xs), MergedDraft(d, original, ys);
    MergedAssets(d, original, xs);
    MergedAssets(d, original, ys);
    forall slot: string ensures SlotFrame(r, slot) == SlotFrame(r', slot) {
      SlotFrameSame(d, original, xs, ys, slot);
    }
    forall q: Place | !q.SlotAt? ensures ReadAll(r, q) == ReadAll(r', q) && Read(r, q) == Read(r', q) {
      MergedSameAt(d, original, xs, ys, q);
    }
    StorySame(d, original, xs, ys);
  }

  lemma OutcomeSame(d: Draft, original: Draft, xs: seq<Change>, ys: seq<Change>, i: nat, j: nat)
    requires Reordered(d, original, xs, ys) && i < |xs| && j < |ys| && xs[i] == ys[j]
    ensures OutcomeOf(d, original, xs, i) == OutcomeOf(d, original, ys, j)
  {
    if xs[i].Reorder? {
      ObjectsRead(d, original, xs, InRecord(Top, ""));
      ObjectsRead(d, original, ys, InRecord(Top, ""));
      OrderMergedAlone(ApplyObjects(d, original, xs), d, original, xs, i);
      OrderMergedAlone(ApplyObjects(d, original, ys), d, original, ys, j);
      OrderStateSame(d, original, xs, ys, xs[i]);
    }
  }

  lemma ConflictsSame(d: Draft, original: Draft, xs: seq<Change>, ys: seq<Change>)
    requires Reordered(d, original, xs, ys)
    ensures HasConflict(Outcomes(d, original, xs)) ==> HasConflict(Outcomes(d, original, ys))
  {
    SameChanges(xs, ys);
    if HasConflict(Outcomes(d, original, xs)) {
      var i :| 0 <= i < |xs| && Outcomes(d, original, xs)[i].state.Conflict?;
      assert xs[i] in ys;
      var j :| 0 <= j < |ys| && ys[j] == xs[i];
      OutcomeSame(d, original, xs, ys, i, j);
      assert Outcomes(d, original, ys)[j].state.Conflict?;
    }
  }

  /**
   * Listing the same changes in another order: admitted or refused alike, the same outcome for
   * every change, and a result that is the same document at every key.
   */
  lemma Commutation(d: Draft, xs: seq<Change>, ys: seq<Change>, baseline: Option<Draft>, rules: Rules)
    requires WellFormed(d) && WellFormed(Original(baseline)) && multiset(xs) == multiset(ys)
    requires forall x, y :: SameDocument(x, y) ==> (rules.valid(x) <==> rules.valid(y))
    ensures var m, m' := MergeContribution(d, xs, baseline, rules), MergeContribution(d, ys, baseline, rules);
            && (m.Ok? <==> m'.Ok?)
            && (m.Ok? ==>
                  && |m.value.outcomes| == |xs| == |ys| == |m'.value.outcomes|
                  && (forall i, j :: 0 <= i < |xs| && 0 <= j < |ys| && xs[i] == ys[j] ==>
                        m.value.outcomes[i] == m'.value.outcomes[j])
                  && (m.value.result.Some? <==> m'.value.result.Some?)
                  && (m.value.result.Some? ==> SameDocument(m.value.result.value, m'.value.result.value)))
  {
    var original := Original(baseline);
    AdmissionCommutes(d, xs, ys, baseline, rules);
    assert |xs| == |multiset(xs)| == |ys|;
    if Admission(d, xs, baseline, rules).None? {
      AdmittedIndependent(d, xs, baseline, rules);
      AdmittedIndependent(d, ys, baseline, rules);
      ProposalsCommute(original, xs, ys);
      MergedSame(d, original, xs, ys);
      ConflictsSame(d, original, xs, ys);
      ConflictsSame(d, original, ys, xs);
      forall i, j | 0 <= i < |xs| && 0 <= j < |ys| && xs[i] == ys[j]
        ensures Outcomes(d, original, xs)[i] == Outcomes(d, original, ys)[j]
      {
        OutcomeSame(d, original, xs, ys, i, j);
      }
    }
  }
}
