/** Laws of whole contributions: what is written, what is left alone, and applying one twice. */
module ContributionLaws {
  import opened Common
  import opened StoryMerge
  import opened ObjectMerge
  import opened ObjectLaws
  import opened OrderMerge
  import opened Drafts
  import opened Contribution

  // ---------------------------------------------------------------------------
  // What an admitted contribution satisfies
  // ---------------------------------------------------------------------------

  /** Two changes that cannot touch the same value. */
  ghost predicate Separate(x: Change, y: Change) {
    if x.Keyed? && y.Keyed? then !Overlaps(PlaceOf(x.target), PlaceOf(y.target))
    else x.Reorder? && y.Reorder? ==> x.list != y.list
  }

  ghost predicate Independent(cs: seq<Change>) {
    forall i, j :: 0 <= i < |cs| && 0 <= j < |cs| && i != j ==> Separate(cs[i], cs[j])
  }

  ghost predicate WellShaped(c: Change, original: Draft) {
    match c
    case Keyed(target, op, base, after) =>
      && (after.Some? ==> RightForm(target, after.value) && NamesItself(target, after.value) && after != base)
      && (after.None? ==> (op.Remove? || op.Unset?) && base.Some?)
      && (op.Add? ==> base.None?) && (op.Modify? ==> base.Some?)
      && (op.Remove? || op.Unset? ==> after.None?)
      && (IsComposition(target) ==> Read(original, PlaceOf(target)) == base)
    case Reorder(list, baseIds, ids) => NoDup(ids) && ids != baseIds && ListIds(original, list) == baseIds
  }

  ghost predicate WellShapedAll(cs: seq<Change>, original: Draft) {
    forall c | c in cs :: WellShaped(c, original)
  }

  lemma {:induction false} DuplicatesFound(keys: seq<string>, n: nat)
    requires n <= |keys| && NoDup(keys[..n])
    ensures FirstDuplicate(keys, n).None? <==> NoDup(keys)
    decreases |keys| - n
  {
    if n == |keys| {
      assert keys[..n] == keys;
    } else {
      assert keys[..n + 1] == keys[..n] + [keys[n]];
      if keys[n] !in keys[..n] { DuplicatesFound(keys, n + 1); }
    }
  }

  lemma {:induction false} OverlapsFound(cs: seq<Change>, keys: seq<string>)
    ensures FirstOverlap(cs, keys).None? <==>
      forall c | c in cs :: c.Keyed? && c.target.VariantAddress? ==> AddressKey(SlotAddress(c.target.slot)) !in keys
  {
    if cs != [] {
      OverlapsFound(cs[1..], keys);
      assert cs == [cs[0]] + cs[1..];
    }
  }

  lemma {:induction false} BadChangesFound(cs: seq<Change>, original: Option<Draft>, rules: Rules)
    ensures FirstBadChange(cs, original, rules).None? <==>
      forall c | c in cs :: ShapeError(c, rules).None? && BaseError(c, original).None?
  {
    if cs != [] {
      BadChangesFound(cs[1..], original, rules);
      assert cs == [cs[0]] + cs[1..];
    }
  }

  lemma SamePlaceSameKey(a: Address, b: Address)
    requires PlaceOf(a) == PlaceOf(b)
    ensures AddressKey(a) == AddressKey(b)
  {
  }

  /** The slot a variant belongs to is not changed as a whole by the change with `key`. */
  predicate LeavesSlot(c: Change, key: string) {
    c.Keyed? && c.target.VariantAddress? ==> AddressKey(SlotAddress(c.target.slot)) != key
  }

  lemma SeparateKeys(x: Change, y: Change)
    requires ChangeKey(x) != ChangeKey(y) && LeavesSlot(x, ChangeKey(y)) && LeavesSlot(y, ChangeKey(x))
    ensures Separate(x, y)
  {
    if x.Keyed? && y.Keyed? && PlaceOf(x.target) == PlaceOf(y.target) { SamePlaceSameKey(x.target, y.target); }
  }

  lemma AdmittedShape(c: Change, baseline: Option<Draft>, rules: Rules)
    requires ShapeError(c, rules).None? && BaseError(c, baseline).None? && (NeedsBase(c) ==> baseline.Some?)
    ensures WellShaped(c, Original(baseline))
  {
    if c.Reorder? { CardNoDup(c.ids); }
  }

  /** Distinct keys mean distinct places, so admitted changes are independent of each other. */
  lemma AdmittedIndependent(d: Draft, cs: seq<Change>, baseline: Option<Draft>, rules: Rules)
    requires Admission(d, cs, baseline, rules).None?
    ensures Independent(cs)
    ensures WellShapedAll(cs, Original(baseline))
  {
    var keys := KeysOf(cs);
    assert NoDup(keys[..0]);
    DuplicatesFound(keys, 0);
    OverlapsFound(cs, keys);
    BadChangesFound(cs, baseline, rules);
    forall i, j | 0 <= i < |cs| && 0 <= j < |cs| && i != j ensures Separate(cs[i], cs[j]) {
      assert keys[i] != keys[j] && keys[i] in keys && keys[j] in keys;
      assert cs[i] in cs && cs[j] in cs;
      SeparateKeys(cs[i], cs[j]);
    }
    forall c | c in cs ensures WellShaped(c, Original(baseline)) {
      AdmittedShape(c, baseline, rules);
    }
  }

  lemma Separates(cs: seq<Change>, init: seq<Change>, last: Change)
    requires Independent(cs) && cs == init + [last]
    ensures Independent(init)
    ensures forall c | c in init :: Separate(c, last)
  {
    forall c | c in init ensures Separate(c, last) {
      var i :| 0 <= i < |init| && init[i] == c;
      assert cs[i] == c && cs[|init|] == last;
    }
    forall i, j | 0 <= i < |init| && 0 <= j < |init| && i != j ensures Separate(init[i], init[j]) {
      assert cs[i] == init[i] && cs[j] == init[j];
    }
  }

  // ---------------------------------------------------------------------------
  // What the merged draft holds at every place
  // ---------------------------------------------------------------------------

  /** All values at a change's own place once it has been judged, and applied if it is to be. */
  ghost function SettledAll(d: Draft, original: Draft, c: Change): seq<Value>
    requires c.Keyed?
  {
    var all := ReadAll(d, PlaceOf(c.target));
    if KeyedOutcome(d, original, c).state.Applied? then Lead(NewValue(d, original, c)) + Others(all) else all
  }

  /** What a keyed change leaves at its own place. */
  ghost function Settled(d: Draft, original: Draft, c: Change): Option<Value>
    requires c.Keyed?
  {
    First(SettledAll(d, original, c))
  }

  lemma NewValueFits(d: Draft, original: Draft, c: Change)
    requires c.Keyed? && WellShaped(c, original)
    ensures Fits(PlaceOf(c.target), NewValue(d, original, c)) && Fits(PlaceOf(c.target), c.after)
  {
  }

  /** A variant change is applied only inside a slot that is there. */
  lemma AppliedVariantHasSlot(d: Draft, original: Draft, c: Change)
    requires c.Keyed? && WellShaped(c, original) && KeyedOutcome(d, original, c).state.Applied?
    ensures Writable(d, PlaceOf(c.target))
  {
  }

  /** Changes of variants leave the rest of their slot alone, and so does every other change but its own. */
  lemma {:induction false} SlotSurvives(d: Draft, original: Draft, cs: seq<Change>, slot: string)
    requires forall c | c in cs :: c.Keyed? ==> PlaceOf(c.target) != SlotAt(slot)
    ensures SlotFrame(ApplyObjects(d, original, cs), slot) == SlotFrame(d, slot)
    decreases |cs|
  {
    if cs != [] {
      var c := cs[|cs| - 1];
      SlotSurvives(d, original, cs[..|cs| - 1], slot);
      if c.Keyed? {
        assert c in cs;
        WriteKeepsSlot(ApplyObjects(d, original, cs[..|cs| - 1]), PlaceOf(c.target), NewValue(d, original, c), slot);
      }
    }
  }

  lemma {:induction false} ObjectsWellFormed(d: Draft, original: Draft, cs: seq<Change>)
    requires WellFormed(d)
    ensures WellFormed(ApplyObjects(d, original, cs))
    decreases |cs|
  {
    if cs != [] {
      var init, c := cs[..|cs| - 1], cs[|cs| - 1];
      ObjectsWellFormed(d, original, init);
      if c.Keyed? { WriteWellFormed(ApplyObjects(d, original, init), PlaceOf(c.target), NewValue(d, original, c)); }
    }
  }

  /** What one more change does to a place. */
  lemma ObjectRead(d: Draft, original: Draft, init: seq<Change>, c: Change, q: Place)
    requires WellFormed(d) && WellShapedAll(init + [c], original) && Independent(init + [c])
    ensures var w := ApplyObjects(d, original, init);
            && (!c.Keyed? || !Overlaps(PlaceOf(c.target), q) ==>
                  ReadAll(ApplyObject(w, d, original, c), q) == ReadAll(w, q))
            && (c.Keyed? && PlaceOf(c.target) == q ==>
                  ReadAll(ApplyObject(w, d, original, c), q)
                  == if KeyedOutcome(d, original, c).state.Applied?
                      then Lead(NewValue(d, original, c)) + Others(ReadAll(w, q))
                     else ReadAll(w, q))
  {
    assert c in init + [c];
    if c.Keyed? && KeyedOutcome(d, original, c).state.Applied? {
      var w, p := ApplyObjects(d, original, init), PlaceOf(c.target);
      Separates(init + [c], init, c);
      ObjectsWellFormed(d, original, init);
      NewValueFits(d, original, c);
      AppliedVariantHasSlot(d, original, c);
      if p.VariantAt? {
        forall x | x in init && x.Keyed? ensures PlaceOf(x.target) != SlotAt(p.slot) { assert Separate(x, c); }
        SlotSurvives(d, original, init, p.slot);
        SlotPresent(d, p.slot);
        SlotPresent(w, p.slot);
      }
      ReadWrite(w, p, NewValue(d, original, c), q);
    }
  }

  /** Every change leaves its own value behind; a place no change overlaps keeps all the draft's values. */
  lemma {:induction false} ObjectsReadAll(d: Draft, original: Draft, cs: seq<Change>, q: Place)
    requires WellFormed(d) && WellShapedAll(cs, original) && Independent(cs)
    ensures forall c | c in cs && c.Keyed? && PlaceOf(c.target) == q ::
              ReadAll(ApplyObjects(d, original, cs), q) == SettledAll(d, original, c)
    ensures (forall c | c in cs && c.Keyed? :: !Overlaps(PlaceOf(c.target), q)) ==>
              ReadAll(ApplyObjects(d, original, cs), q) == ReadAll(d, q)
    decreases |cs|
  {
    if cs != [] {
      var init, c := cs[..|cs| - 1], cs[|cs| - 1];
      assert cs == init + [c];
      Separates(cs, init, c);
      ObjectsReadAll(d, original, init, q);
      ObjectRead(d, original, init, c, q);
      if c.Keyed? && PlaceOf(c.target) == q {
        forall x | x in init && x.Keyed? ensures !Overlaps(PlaceOf(x.target), q) {
          assert Separate(x, c);
        }
      } else {
        forall x | x in cs && x.Keyed? && PlaceOf(x.target) == q
          ensures ReadAll(ApplyObjects(d, original, cs), q) == SettledAll(d, original, x)
        {
          assert Separate(x, c);
        }
      }
    }
  }

  lemma ObjectsRead(d: Draft, original: Draft, cs: seq<Change>, q: Place)
    requires WellFormed(d) && WellShapedAll(cs, original) && Independent(cs)
    ensures WellFormed(ApplyObjects(d, original, cs))
    ensures forall c | c in cs && c.Keyed? && PlaceOf(c.target) == q ::
              Read(ApplyObjects(d, original, cs), q) == Settled(d, original, c)
    ensures (forall c | c in cs && c.Keyed? :: !Overlaps(PlaceOf(c.target), q)) ==>
              Read(ApplyObjects(d, original, cs), q) == Read(d, q)
  {
    ObjectsWellFormed(d, original, cs);
    ObjectsReadAll(d, original, cs, q);
    ReadIsFirst(d, q);
    ReadIsFirst(ApplyObjects(d, original, cs), q);
  }

  // ---------------------------------------------------------------------------
  // Story membership
  // ---------------------------------------------------------------------------

  lemma ListedIffRead(d: Draft, kind: ListKind, id: string)
    ensures id in ListIds(d, kind) <==> Read(d, InList(StoryList(kind), id)).Some?
  {
    FindIffListed(ListOf(d, StoryList(kind)), id);
  }

  /** What the base holds once every proposed object is in it. */
  lemma {:induction false} ProposedRead(original: Draft, cs: seq<Change>, q: Place)
    requires WellFormed(original) && WellShapedAll(cs, original) && Independent(cs) && q.InList? && q.list.StoryList?
    ensures WellFormed(Proposed(original, cs))
    ensures forall c | c in cs && c.Keyed? && PlaceOf(c.target) == q ::
              ReadAll(Proposed(original, cs), q) == Lead(c.after) + Others(ReadAll(original, q))
    ensures (forall c | c in cs && c.Keyed? :: PlaceOf(c.target) != q) ==>
              ReadAll(Proposed(original, cs), q) == ReadAll(original, q)
    decreases |cs|
  {
    if cs != [] {
      var init, c := cs[..|cs| - 1], cs[|cs| - 1];
      var p := Proposed(original, init);
      assert cs == init + [c];
      Separates(cs, init, c);
      ProposedRead(original, init, q);
      if c.Keyed? && IsComposition(c.target) {
        NewValueFits(original, original, c);
        WriteWellFormed(p, PlaceOf(c.target), c.after);
        ReadWrite(p, PlaceOf(c.target), c.after, q);
      }
      if c.Keyed? && PlaceOf(c.target) == q {
        forall x | x in init && x.Keyed? ensures PlaceOf(x.target) != q { assert Separate(x, c); }
      } else {
        forall x | x in cs && x.Keyed? && PlaceOf(x.target) == q
          ensures ReadAll(Proposed(original, cs), q) == Lead(x.after) + Others(ReadAll(original, q))
        {
          assert Separate(x, c);
        }
      }
    }
  }

  /** Every object of the draft is one the schema accepts. */
  ghost predicate CompleteObjects(d: Draft) {
    forall a: Address | IsComposition(a) :: Complete(KindOf(a), AsJson(Read(d, PlaceOf(a))))
  }

  /** Every proposed object is one the schema accepts. */
  ghost predicate CompleteProposals(cs: seq<Change>) {
    forall c | c in cs && c.Keyed? && IsComposition(c.target) :: Complete(KindOf(c.target), AsJson(c.after))
  }

  lemma ObjectsFit(d: Draft, a: Address)
    requires IsComposition(a)
    ensures AsValue(AsJson(Read(d, PlaceOf(a)))) == Read(d, PlaceOf(a))
  {
  }

  /** A change that proposes an object never makes it disappear, and finds it where it modifies it. */
  lemma ProposedValueStays(d: Draft, original: Draft, c: Change)
    requires c.Keyed? && IsComposition(c.target) && WellShaped(c, original) && CompleteObjects(d)
    requires Complete(KindOf(c.target), AsJson(c.after)) && c.after.Some?
    requires !KeyedOutcome(d, original, c).state.Conflict?
    ensures NewValue(d, original, c).Some?
    ensures c.base.Some? ==> Read(d, PlaceOf(c.target)).Some?
  {
    var p := PlaceOf(c.target);
    ObjectsFit(original, c.target);
    ObjectFixpoint(KindOf(c.target), c.op, AsJson(Read(original, p)), AsJson(Read(d, p)), AsJson(c.after));
  }

  /**
   * The change has nothing left to do in its own result: a removal that is applied uncovers no
   * second value under the same identity, and an object that is merged field by field has
   * only reference lists that stay merged.
   */
  ghost predicate AppliesOnce(d: Draft, original: Draft, c: Change)
    requires c.Keyed?
  {
    var p := PlaceOf(c.target);
    if c.after.None? then Read(d, p) == c.base ==> Uncovered(d, p).None?
    else IsComposition(c.target) ==>
      ObjectSettles(KindOf(c.target), c.op, AsJson(Read(original, p)), AsJson(Read(d, p)), AsJson(c.after))
  }

  /** A removal: applied when the base value is there, done when nothing is. */
  lemma RemovalSettles(d: Draft, original: Draft, c: Change, r: Draft)
    requires c.Keyed? && WellShaped(c, original) && c.after.None? && !KeyedOutcome(d, original, c).state.Conflict?
    requires Read(r, PlaceOf(c.target)) == Settled(d, original, c)
    ensures KeyedOutcome(r, original, c).state.AlreadyApplied? <==> AppliesOnce(d, original, c)
    ensures AppliesOnce(d, original, c) ==> KeyedOutcome(r, original, c) == Outcome(AlreadyApplied, None, {})
  {
    var p := PlaceOf(c.target);
    ReadIsFirst(d, p);
    assert [] + Others(ReadAll(d, p)) == Others(ReadAll(d, p));
    if IsComposition(c.target) {
      ObjectsFit(original, c.target);
      ObjectsFit(d, c.target);
      ObjectsFit(r, c.target);
      assert MergesAsUnit(c.op, AsJson(Read(original, p)), AsJson(Read(d, p)), None);
      assert MergesAsUnit(c.op, AsJson(Read(original, p)), AsJson(Read(r, p)), None);
    }
  }

  /** A value that is proposed. */
  lemma ProposalSettles(d: Draft, original: Draft, c: Change, r: Draft)
    requires c.Keyed? && WellShaped(c, original) && c.after.Some? && !KeyedOutcome(d, original, c).state.Conflict?
    requires CompleteObjects(d) && (IsComposition(c.target) ==> Complete(KindOf(c.target), AsJson(c.after)))
    requires Read(r, PlaceOf(c.target)) == Settled(d, original, c)
    ensures KeyedOutcome(r, original, c).state.AlreadyApplied? <==> AppliesOnce(d, original, c)
    ensures AppliesOnce(d, original, c) ==> KeyedOutcome(r, original, c) == Outcome(AlreadyApplied, None, {})
  {
    var p := PlaceOf(c.target);
    ReadIsFirst(d, p);
    if IsComposition(c.target) {
      ProposedValueStays(d, original, c);
      ObjectsFit(original, c.target);
      ObjectsFit(d, c.target);
      ObjectFixpoint(KindOf(c.target), c.op, AsJson(Read(original, p)), AsJson(Read(d, p)), AsJson(c.after));
      assert Read(r, p) == NewValue(d, original, c);
    }
  }

  /** In the merged draft a change has nothing left to do exactly when it applies once. */
  lemma KeyedChangeSettles(d: Draft, original: Draft, c: Change, r: Draft)
    requires c.Keyed? && WellShaped(c, original) && !KeyedOutcome(d, original, c).state.Conflict?
    requires CompleteObjects(d) && (IsComposition(c.target) ==> Complete(KindOf(c.target), AsJson(c.after)))
    requires Read(r, PlaceOf(c.target)) == Settled(d, original, c)
    ensures KeyedOutcome(r, original, c).state.AlreadyApplied? <==> AppliesOnce(d, original, c)
    ensures AppliesOnce(d, original, c) ==> KeyedOutcome(r, original, c) == Outcome(AlreadyApplied, None, {})
  {
    if c.after.None? { RemovalSettles(d, original, c, r); } else { ProposalSettles(d, original, c, r); }
  }

  ghost predicate NoConflicts(d: Draft, original: Draft, cs: seq<Change>) {
    forall c | c in cs && c.Keyed? :: !KeyedOutcome(d, original, c).state.Conflict?
  }

  /** The hypotheses under which the laws of a whole merge hold. */
  ghost predicate Coherent(d: Draft, original: Draft, cs: seq<Change>) {
    && WellFormed(d) && WellFormed(original) && CompleteObjects(d) && CompleteProposals(cs)
    && WellShapedAll(cs, original) && Independent(cs) && NoConflicts(d, original, cs)
  }

  ghost predicate AllApplyOnce(d: Draft, original: Draft, cs: seq<Change>) {
    forall c | c in cs && c.Keyed? :: AppliesOnce(d, original, c)
  }

  /** An object of the base that some change targets. */
  lemma TargetedObject(d: Draft, original: Draft, cs: seq<Change>, c: Change)
    requires Coherent(d, original, cs) && c in cs && c.Keyed? && IsComposition(c.target) && c.base.Some?
    ensures var q := PlaceOf(c.target);
            && (Read(ApplyObjects(d, original, cs), q).Some? ==> Read(d, q).Some?)
            && (c.after.None? && AppliesOnce(d, original, c) ==> Read(ApplyObjects(d, original, cs), q).None?)
  {
    var q := PlaceOf(c.target);
    ObjectsRead(d, original, cs, q);
    ReadIsFirst(d, q);
    assert WellShaped(c, original);
    if c.after.Some? {
      ProposedValueStays(d, original, c);
    } else {
      assert MergesAsUnit(c.op, AsJson(Read(original, q)), AsJson(Read(d, q)), None);
      ObjectsFit(original, c.target);
      ObjectsFit(d, c.target);
    }
  }

  /** How one object of the base fares in the proposal and in the merged draft. */
  lemma BaseObject(d: Draft, original: Draft, cs: seq<Change>, kind: ListKind, id: string)
    requires Coherent(d, original, cs) && AllApplyOnce(d, original, cs)
    requires Read(original, InList(StoryList(kind), id)).Some?
    ensures var q := InList(StoryList(kind), id);
            && (Read(Proposed(original, cs), q).None? ==> Read(ApplyObjects(d, original, cs), q).None?)
            && (Read(ApplyObjects(d, original, cs), q).Some? ==> Read(d, q).Some?)
  {
    var q := InList(StoryList(kind), id);
    ProposedRead(original, cs, q);
    ReadIsFirst(original, q);
    ReadIsFirst(Proposed(original, cs), q);
    if c :| c in cs && c.Keyed? && PlaceOf(c.target) == q {
      assert WellShaped(c, original);
      TargetedObject(d, original, cs, c);
    } else {
      assert forall c | c in cs && c.Keyed? :: !Overlaps(PlaceOf(c.target), q);
      ObjectsRead(d, original, cs, q);
    }
  }

  /** The object changes leave the story list with the members its order change expects. */
  lemma MembersAgree(d: Draft, original: Draft, cs: seq<Change>, c: Change)
    requires Coherent(d, original, cs) && AllApplyOnce(d, original, cs)
    requires c in cs && c.Reorder? && NamesMembers(ListIds(Proposed(original, cs), c.list), c.ids)
    ensures MembershipAgrees(ListIds(original, c.list), ListIds(d, c.list), c.ids,
                             ListIds(ApplyObjects(d, original, cs), c.list))
  {
    var base, w := ListIds(original, c.list), ApplyObjects(d, original, cs);
    var proposed := Proposed(original, cs);
    forall x | x in base
      ensures x !in c.ids ==> x !in ListIds(w, c.list)
      ensures x in ListIds(w, c.list) ==> x in ListIds(d, c.list)
    {
      ListedIffRead(original, c.list, x);
      ListedIffRead(d, c.list, x);
      ListedIffRead(w, c.list, x);
      ListedIffRead(proposed, c.list, x);
      BaseObject(d, original, cs, c.list, x);
    }
  }

  // ---------------------------------------------------------------------------
  // Order changes
  // ---------------------------------------------------------------------------

  ghost function Stored(d: Draft, list: ListName): Option<seq<Entry<Json>>> {
    if list in d.lists then Some(d.lists[list]) else None
  }

  /** The change puts the list of the place in order; whether it can does not depend on the objects. */
  ghost predicate Reorders(d: Draft, original: Draft, c: Change, q: Place) {
    && c.Reorder? && q.InList? && q.list == StoryList(c.list)
    && !CommonOrderOf(ListIds(original, c.list), ListIds(d, c.list), c.ids).Conflict()
  }

  lemma OrderChangeElsewhere(w: Draft, d: Draft, original: Draft, c: Change, list: ListName)
    requires c.Reorder? ==> list != StoryList(c.list)
    ensures Stored(ApplyOrderChange(w, d, original, c), list) == Stored(w, list)
  {
  }

  lemma OrderChangeReads(w: Draft, d: Draft, original: Draft, c: Change, q: Place)
    requires WellFormed(w)
    ensures WellFormed(ApplyOrderChange(w, d, original, c))
            && Read(ApplyOrderChange(w, d, original, c), q) == Read(w, q)
    ensures ReadAll(ApplyOrderChange(w, d, original, c), q)
         == if Reorders(d, original, c, q) then Lead(Read(w, q)) else ReadAll(w, q)
    ensures ApplyOrderChange(w, d, original, c).story == w.story
    ensures c.Reorder? && w.story.Story? && !OrderMerged(w, d, original, c).conflict ==>
              ListIds(ApplyOrderChange(w, d, original, c), c.list) == OrderMerged(w, d, original, c).ids
  {
    if c.Reorder? && !OrderMerged(w, d, original, c).conflict {
      OrderLaw(ListIds(original, c.list), ListIds(d, c.list), c.ids, ListIds(w, c.list));
      OrderWellFormed(w, c.list, OrderMerged(w, d, original, c).ids);
      OrderReads(w, c.list, OrderMerged(w, d, original, c).ids, q);
    }
  }

  /** Order changes move entries about and change no value. */
  lemma {:induction false} OrdersRead(w: Draft, d: Draft, original: Draft, cs: seq<Change>, q: Place)
    requires WellFormed(w)
    ensures WellFormed(ApplyOrders(w, d, original, cs)) && Read(ApplyOrders(w, d, original, cs), q) == Read(w, q)
    ensures ApplyOrders(w, d, original, cs).story == w.story
    decreases |cs|
  {
    if cs != [] {
      OrdersRead(w, d, original, cs[..|cs| - 1], q);
      OrderChangeReads(ApplyOrders(w, d, original, cs[..|cs| - 1]), d, original, cs[|cs| - 1], q);
    }
  }

  /** A list no order change names stays as it was. */
  lemma {:induction false} OtherListsKept(w: Draft, d: Draft, original: Draft, cs: seq<Change>, list: ListName)
    requires forall c | c in cs && c.Reorder? :: list != StoryList(c.list)
    ensures Stored(ApplyOrders(w, d, original, cs), list) == Stored(w, list)
    decreases |cs|
  {
    if cs != [] {
      OtherListsKept(w, d, original, cs[..|cs| - 1], list);
      OrderChangeElsewhere(ApplyOrders(w, d, original, cs[..|cs| - 1]), d, original, cs[|cs| - 1], list);
    }
  }

  /** Until its turn comes, the list a change orders is as it was. */
  lemma OrderUntouched(w: Draft, d: Draft, original: Draft, cs: seq<Change>, i: nat)
    requires WellFormed(w) && Independent(cs) && i < |cs| && cs[i].Reorder?
    ensures var before := ApplyOrders(w, d, original, cs[..i]);
            && WellFormed(before) && before.story == w.story
            && Stored(before, StoryList(cs[i].list)) == Stored(w, StoryList(cs[i].list))
  {
    var list := StoryList(cs[i].list);
    OrdersRead(w, d, original, cs[..i], InRecord(Top, ""));
    forall c | c in cs[..i] && c.Reorder? ensures list != StoryList(c.list) {
      var k :| 0 <= k < i && cs[k] == c;
      assert Separate(cs[k], cs[i]);
    }
    OtherListsKept(w, d, original, cs[..i], list);
  }

  /** An order change reads and writes nothing of the draft but its list and whether there is a story. */
  lemma OrderChangeLocal(w: Draft, w': Draft, d: Draft, original: Draft, c: Change)
    requires c.Reorder? && w.story == w'.story && Stored(w, StoryList(c.list)) == Stored(w', StoryList(c.list))
    ensures OrderMerged(w, d, original, c) == OrderMerged(w', d, original, c)
    ensures Stored(ApplyOrderChange(w, d, original, c), StoryList(c.list))
         == Stored(ApplyOrderChange(w', d, original, c), StoryList(c.list))
  {
  }

  /** An order change sees the list as the object changes left it, and nothing after it moves the list. */
  lemma OrderMergedAlone(w: Draft, d: Draft, original: Draft, cs: seq<Change>, i: nat)
    requires WellFormed(w) && Independent(cs) && i < |cs| && cs[i].Reorder?
    ensures OrderMerged(ApplyOrders(w, d, original, cs[..i]), d, original, cs[i]) == OrderMerged(w, d, original, cs[i])
  {
    OrderUntouched(w, d, original, cs, i);
    OrderChangeLocal(ApplyOrders(w, d, original, cs[..i]), w, d, original, cs[i]);
  }

  lemma OrderAppliedAlone(w: Draft, d: Draft, original: Draft, cs: seq<Change>, i: nat)
    requires WellFormed(w) && Independent(cs) && i < |cs| && cs[i].Reorder?
    ensures Stored(ApplyOrders(w, d, original, cs[..i + 1]), StoryList(cs[i].list))
         == Stored(ApplyOrderChange(w, d, original, cs[i]), StoryList(cs[i].list))
  {
    OrderUntouched(w, d, original, cs, i);
    OrderChangeLocal(ApplyOrders(w, d, original, cs[..i]), w, d, original, cs[i]);
    OrdersEnd(w, d, original, cs, i + 1);
  }

  lemma OrdersEnd(w: Draft, d: Draft, original: Draft, cs: seq<Change>, n: nat)
    requires 0 < n <= |cs|
    ensures ApplyOrders(w, d, original, cs[..n])
         == ApplyOrderChange(ApplyOrders(w, d, original, cs[..n - 1]), d, original, cs[n - 1])
  {
    assert cs[..n][..n - 1] == cs[..n - 1];
  }

  /** A later order change leaves the list of an earlier one alone. */
  lemma LaterOrderLeaves(w: Draft, d: Draft, original: Draft, cs: seq<Change>, i: nat, n: nat)
    requires Independent(cs) && i < n < |cs| && cs[i].Reorder?
    ensures Stored(ApplyOrders(w, d, original, cs[..n + 1]), StoryList(cs[i].list))
         == Stored(ApplyOrders(w, d, original, cs[..n]), StoryList(cs[i].list))
  {
    assert Separate(cs[i], cs[n]);
    OrdersEnd(w, d, original, cs, n + 1);
    OrderChangeElsewhere(ApplyOrders(w, d, original, cs[..n]), d, original, cs[n], StoryList(cs[i].list));
  }

  /** Once its order change has run, a list keeps the order it was given. */
  lemma {:induction false} OrderStands(w: Draft, d: Draft, original: Draft, cs: seq<Change>, i: nat, n: nat)
    requires WellFormed(w) && Independent(cs) && i < n <= |cs| && cs[i].Reorder?
    ensures Stored(ApplyOrders(w, d, original, cs[..n]), StoryList(cs[i].list))
         == Stored(ApplyOrderChange(w, d, original, cs[i]), StoryList(cs[i].list))
    decreases n
  {
    if n == i + 1 {
      OrderAppliedAlone(w, d, original, cs, i);
    } else {
      OrderStands(w, d, original, cs, i, n - 1);
      LaterOrderLeaves(w, d, original, cs, i, n - 1);
    }
  }

  /** One order change puts its list in its merged order, and takes an emptied list away. */
  lemma OneOrderReached(w: Draft, d: Draft, original: Draft, c: Change)
    requires WellFormed(w) && c.Reorder? && !OrderMerged(w, d, original, c).conflict
    ensures var one := ApplyOrderChange(w, d, original, c);
            && ListIds(one, c.list) == OrderMerged(w, d, original, c).ids
            && (Droppable(StoryList(c.list)) && StoryList(c.list) in one.lists ==> one.lists[StoryList(c.list)] != [])
  {
    var m := OrderMerged(w, d, original, c).ids;
    OrderChangeReads(w, d, original, c, InRecord(Top, ""));
    OrderLaw(ListIds(original, c.list), ListIds(d, c.list), c.ids, ListIds(w, c.list));
    if w.story.NoStory? {
      assert ListIds(w, c.list) == [];
      NoDupCard(m);
    } else if m != [] {
      assert |ListIds(ApplyOrderChange(w, d, original, c), c.list)| > 0;
    }
  }

  /** After the order changes a list is in its merged order, and an emptied list is gone. */
  lemma OrderReached(w: Draft, d: Draft, original: Draft, cs: seq<Change>, i: nat)
    requires WellFormed(w) && Independent(cs) && i < |cs| && cs[i].Reorder?
    requires !OrderMerged(w, d, original, cs[i]).conflict
    ensures var all := ApplyOrders(w, d, original, cs);
            && ListIds(all, cs[i].list) == OrderMerged(w, d, original, cs[i]).ids
            && (Droppable(StoryList(cs[i].list)) && StoryList(cs[i].list) in all.lists
                ==> all.lists[StoryList(cs[i].list)] != [])
  {
    assert cs[..|cs|] == cs;
    OrderStands(w, d, original, cs, i, |cs|);
    OneOrderReached(w, d, original, cs[i]);
  }

  // ---------------------------------------------------------------------------
  // Applying a contribution twice
  // ---------------------------------------------------------------------------

  lemma NothingToApply(r: Draft, original: Draft, cs: seq<Change>)
    requires forall c | c in cs && c.Keyed? :: KeyedOutcome(r, original, c) == Outcome(AlreadyApplied, None, {})
    ensures ApplyObjects(r, original, cs) == r
    decreases |cs|
  {
    if cs != [] { NothingToApply(r, original, cs[..|cs| - 1]); }
  }

  /** The order change finds its list already in order. */
  ghost predicate OrderSettledIn(r: Draft, original: Draft, c: Change) {
    c.Reorder? ==>
      && OrderMerged(r, r, original, c) == MergedOrder(ListIds(r, c.list), false)
      && ApplyOrder(r, c.list, ListIds(r, c.list)) == r
  }

  lemma NothingToReorder(r: Draft, original: Draft, cs: seq<Change>)
    requires forall c | c in cs :: OrderSettledIn(r, original, c)
    ensures ApplyOrders(r, r, original, cs) == r
    decreases |cs|
  {
    if cs != [] {
      NothingToReorder(r, original, cs[..|cs| - 1]);
      assert OrderSettledIn(r, original, cs[|cs| - 1]);
    }
  }

  lemma OutcomesFree(d: Draft, original: Draft, cs: seq<Change>)
    requires !HasConflict(Outcomes(d, original, cs))
    ensures NoConflicts(d, original, cs)
    ensures forall i | 0 <= i < |cs| && cs[i].Reorder? ::
      !OrderMerged(ApplyOrders(ApplyObjects(d, original, cs), d, original, cs[..i]), d, original, cs[i]).conflict
  {
    var os := Outcomes(d, original, cs);
    forall i | 0 <= i < |cs| ensures !OutcomeOf(d, original, cs, i).state.Conflict? {
      assert os[i] in os;
    }
    forall c | c in cs && c.Keyed? ensures !KeyedOutcome(d, original, c).state.Conflict? {
      var i :| 0 <= i < |cs| && cs[i] == c;
      assert !OutcomeOf(d, original, cs, i).state.Conflict?;
    }
    var w := ApplyObjects(d, original, cs);
    forall i | 0 <= i < |cs| && cs[i].Reorder?
      ensures !OrderMerged(ApplyOrders(w, d, original, cs[..i]), d, original, cs[i]).conflict
    {
      assert !OutcomeOf(d, original, cs, i).state.Conflict?;
    }
  }

  lemma {:induction false} OrdersNameMembers(proposed: Draft, cs: seq<Change>)
    ensures FirstBadOrder(proposed, cs).None? <==>
      forall c | c in cs && c.Reorder? :: NamesMembers(ListIds(proposed, c.list), c.ids)
  {
    if cs != [] {
      OrdersNameMembers(proposed, cs[1..]);
      assert cs == [cs[0]] + cs[1..];
    }
  }

  /** The list of an order change in the merged draft: it is in its merged order, and not stored empty. */
  lemma OrderedList(d: Draft, original: Draft, cs: seq<Change>, i: nat)
    requires WellFormed(d) && Independent(cs) && !HasConflict(Outcomes(d, original, cs)) && i < |cs| && cs[i].Reorder?
    ensures var w, r, c := ApplyObjects(d, original, cs), MergedDraft(d, original, cs), cs[i];
            && WellFormed(r) && !OrderMerged(w, d, original, c).conflict
            && ListIds(r, c.list) == OrderMerged(w, d, original, c).ids
            && (Droppable(StoryList(c.list)) && StoryList(c.list) in r.lists ==> r.lists[StoryList(c.list)] != [])
  {
    var c := cs[i];
    var w := ApplyObjects(d, original, cs);
    var all := ApplyOrders(w, d, original, cs);
    ObjectsWellFormed(d, original, cs);
    OutcomesFree(d, original, cs);
    OrderMergedAlone(w, d, original, cs, i);
    OrderReached(w, d, original, cs, i);
    OrdersRead(w, d, original, cs, InRecord(Top, ""));
    assert c in cs && NeedsBase(c);
    RemovedList(all, StoryList(c.list));
  }

  lemma RemovedList(all: Draft, list: ListName)
    requires WellFormed(all)
    ensures WellFormed(RemoveEmptyStory(all)) && ListOf(RemoveEmptyStory(all), list) == ListOf(all, list)
    ensures list in RemoveEmptyStory(all).lists ==> list in all.lists
  {
  }

  /** Each order change, in the merged draft. */
  lemma OrderChangeSettles(d: Draft, original: Draft, cs: seq<Change>, i: nat, r: Draft)
    requires Coherent(d, original, cs) && AllApplyOnce(d, original, cs)
    requires FirstBadOrder(Proposed(original, cs), cs).None?
    requires !HasConflict(Outcomes(d, original, cs)) && r == MergedDraft(d, original, cs)
    requires i < |cs| && cs[i].Reorder?
    ensures OrderSettledIn(r, original, cs[i])
  {
    var c := cs[i];
    var w := ApplyObjects(d, original, cs);
    OrderedList(d, original, cs, i);
    assert c in cs;
    OrdersNameMembers(Proposed(original, cs), cs);
    MembersAgree(d, original, cs, c);
    assert WellShaped(c, original);
    OrderFixpoint(ListIds(original, c.list), ListIds(d, c.list), c.ids, ListIds(w, c.list));
    OrderLaw(ListIds(original, c.list), ListIds(d, c.list), c.ids, ListIds(w, c.list));
    OrderSettled(r, c.list);
  }

  lemma MergedReads(d: Draft, original: Draft, cs: seq<Change>, q: Place)
    requires WellFormed(d) && WellShapedAll(cs, original) && Independent(cs)
    ensures WellFormed(MergedDraft(d, original, cs))
    ensures Read(MergedDraft(d, original, cs), q) == Read(ApplyObjects(d, original, cs), q)
  {
    var w := ApplyObjects(d, original, cs);
    ObjectsRead(d, original, cs, q);
    OrdersRead(w, d, original, cs, q);
    RemoveEmptyReads(ApplyOrders(w, d, original, cs), q);
  }

  lemma {:induction false} IdentityKept(w: Draft, d: Draft, original: Draft, cs: seq<Change>)
    ensures ApplyObjects(d, original, cs).identity == d.identity
    ensures ApplyOrders(w, d, original, cs).identity == w.identity
    ensures ApplyObjects(d, original, cs).rest == d.rest
    ensures ApplyOrders(w, d, original, cs).rest == w.rest
    decreases |cs|
  {
    if cs != [] { IdentityKept(w, d, original, cs[..|cs| - 1]); }
  }

  /** The schema accepts no object without the field its kind demands. */
  ghost predicate SchemaObjects(rules: Rules) {
    forall a, v | IsComposition(a) && rules.accepts(a, v) :: Complete(KindOf(a), AsJson(Some(v)))
  }

  /** What a merge is given: a canonical draft and base. */
  ghost predicate CanonicalInput(d: Draft, baseline: Option<Draft>) {
    WellFormed(d) && WellFormed(Original(baseline)) && CompleteObjects(d)
  }

  lemma AdmittedComplete(d: Draft, cs: seq<Change>, baseline: Option<Draft>, rules: Rules)
    requires SchemaObjects(rules) && Admission(d, cs, baseline, rules).None?
    ensures CompleteProposals(cs)
  {
    BadChangesFound(cs, baseline, rules);
    forall c | c in cs && c.Keyed? && IsComposition(c.target) ensures Complete(KindOf(c.target), AsJson(c.after)) {
      assert ShapeError(c, rules).None?;
    }
  }

  lemma MergedCoherent(d: Draft, cs: seq<Change>, baseline: Option<Draft>, rules: Rules)
    requires CanonicalInput(d, baseline) && SchemaObjects(rules)
    requires var m := MergeContribution(d, cs, baseline, rules); m.Ok? && m.value.result.Some?
    ensures Coherent(d, Original(baseline), cs)
    ensures !HasConflict(Outcomes(d, Original(baseline), cs))
    ensures FirstBadOrder(Proposed(Original(baseline), cs), cs).None?
    ensures MergeContribution(d, cs, baseline, rules).value.result.value == MergedDraft(d, Original(baseline), cs)
    ensures rules.valid(MergedDraft(d, Original(baseline), cs))
  {
    AdmittedIndependent(d, cs, baseline, rules);
    AdmittedComplete(d, cs, baseline, rules);
    OutcomesFree(d, Original(baseline), cs);
  }

  /** Each keyed change, judged again in the merged draft. */
  lemma KeyedAgain(d: Draft, original: Draft, cs: seq<Change>, c: Change)
    requires Coherent(d, original, cs) && c in cs && c.Keyed?
    ensures var r := MergedDraft(d, original, cs);
            && (KeyedOutcome(r, original, c).state.AlreadyApplied? <==> AppliesOnce(d, original, c))
            && (AppliesOnce(d, original, c) ==> KeyedOutcome(r, original, c) == Outcome(AlreadyApplied, None, {}))
  {
    MergedReads(d, original, cs, PlaceOf(c.target));
    ObjectsRead(d, original, cs, PlaceOf(c.target));
    assert WellShaped(c, original);
    KeyedChangeSettles(d, original, c, MergedDraft(d, original, cs));
  }

  lemma NoMoreToRemove(d: Draft, original: Draft, cs: seq<Change>)
    requires WellFormed(d) && WellShapedAll(cs, original) && Independent(cs)
    ensures (exists c | c in cs :: NeedsBase(c)) ==>
              RemoveEmptyStory(MergedDraft(d, original, cs)) == MergedDraft(d, original, cs)
  {
    var w := ApplyObjects(d, original, cs);
    ObjectsRead(d, original, cs, InRecord(Top, ""));
    OrdersRead(w, d, original, cs, InRecord(Top, ""));
    RemoveEmptyReads(ApplyOrders(w, d, original, cs), InRecord(Top, ""));
  }

  /** Every change finds its work done in the merged draft. */
  lemma SettledOutcomes(d: Draft, original: Draft, cs: seq<Change>)
    requires Coherent(d, original, cs) && AllApplyOnce(d, original, cs)
    requires FirstBadOrder(Proposed(original, cs), cs).None? && !HasConflict(Outcomes(d, original, cs))
    ensures var r := MergedDraft(d, original, cs);
            && ApplyObjects(r, original, cs) == r && MergedDraft(r, original, cs) == r
            && forall i | 0 <= i < |cs| :: OutcomeOf(r, original, cs, i) == Outcome(AlreadyApplied, None, {})
  {
    var r := MergedDraft(d, original, cs);
    forall c | c in cs && c.Keyed? ensures KeyedOutcome(r, original, c) == Outcome(AlreadyApplied, None, {}) {
      KeyedAgain(d, original, cs, c);
    }
    forall c | c in cs ensures OrderSettledIn(r, original, c) {
      var i :| 0 <= i < |cs| && cs[i] == c;
      if c.Reorder? { OrderChangeSettles(d, original, cs, i, r); }
    }
    NothingToApply(r, original, cs);
    NothingToReorder(r, original, cs);
    forall i | 0 <= i < |cs| ensures OutcomeOf(r, original, cs, i) == Outcome(AlreadyApplied, None, {}) {
      assert cs[i] in cs;
      if cs[i].Reorder? {
        NothingToReorder(r, original, cs[..i]);
        assert OrderSettledIn(r, original, cs[i]);
      }
    }
    NoMoreToRemove(d, original, cs);
  }

  function Done(cs: seq<Change>): seq<Outcome> {
    seq(|cs|, _ => Outcome(AlreadyApplied, None, {}))
  }

  /**
   * Applying a contribution to its own result marks every change as already applied and gives the
   * result back, whatever mix of whole values, field-merged objects and orders it has, exactly
   * when no applied removal uncovers a second value under its identity and no reference list that
   * is merged repeats members it moves.
   */
  lemma Reapplication(d: Draft, cs: seq<Change>, baseline: Option<Draft>, rules: Rules)
    requires CanonicalInput(d, baseline) && SchemaObjects(rules)
    requires var m := MergeContribution(d, cs, baseline, rules); m.Ok? && m.value.result.Some?
    ensures var r := MergeContribution(d, cs, baseline, rules).value.result.value;
            MergeContribution(r, cs, baseline, rules) == Ok(Report(Done(cs), Some(r)))
            <==> AllApplyOnce(d, Original(baseline), cs)
  {
    var original := Original(baseline);
    var r := MergedDraft(d, original, cs);
    MergedCoherent(d, cs, baseline, rules);
    IdentityKept(ApplyObjects(d, original, cs), d, original, cs);
    assert Admission(r, cs, baseline, rules) == Admission(d, cs, baseline, rules);
    if AllApplyOnce(d, original, cs) {
      SettledOutcomes(d, original, cs);
      assert Outcomes(r, original, cs) == Done(cs);
    } else {
      var c :| c in cs && c.Keyed? && !AppliesOnce(d, original, c);
      var i :| 0 <= i < |cs| && cs[i] == c;
      KeyedAgain(d, original, cs, c);
      StillToDo(r, original, cs, i, rules);
    }
  }

  lemma StillToDo(r: Draft, original: Draft, cs: seq<Change>, i: nat, rules: Rules)
    requires i < |cs| && cs[i].Keyed? && !KeyedOutcome(r, original, cs[i]).state.AlreadyApplied?
    ensures Judge(Outcomes(r, original, cs), MergedDraft(r, original, cs), rules).outcomes != Done(cs)
  {
    var os := Outcomes(r, original, cs);
    assert os[i] == KeyedOutcome(r, original, cs[i]) != Done(cs)[i];
    var report := Judge(os, MergedDraft(r, original, cs), rules);
    assert report.outcomes[i] != Done(cs)[i];
  }

  /** Drafts that name no identity twice and proposals that name no reference twice always re-apply. */
  lemma DistinctAppliesOnce(d: Draft, original: Draft, cs: seq<Change>)
    requires Unique(d)
    requires forall c | c in cs && c.Keyed? && IsComposition(c.target) ::
               DistinctReferences(RuleOf(KindOf(c.target)), AsRecord(AsJson(c.after)))
    ensures AllApplyOnce(d, original, cs)
  {
    forall c | c in cs && c.Keyed? ensures AppliesOnce(d, original, c) {
      var p := PlaceOf(c.target);
      assert |ReadAll(d, p)| <= 1;
      if IsComposition(c.target) {
        DistinctReferencesSettle(RuleOf(KindOf(c.target)), AsRecord(AsJson(Read(original, p))),
                                 AsRecord(AsJson(Read(d, p))), AsRecord(AsJson(c.after)));
      }
    }
  }

  // ---------------------------------------------------------------------------
  // Frame and commutation
  // ---------------------------------------------------------------------------

  /** A value no change overlaps is in the result exactly what it was in the draft. */
  lemma Frame(d: Draft, cs: seq<Change>, baseline: Option<Draft>, rules: Rules, q: Place)
    requires WellFormed(d)
    requires var m := MergeContribution(d, cs, baseline, rules); m.Ok? && m.value.result.Some?
    requires forall c | c in cs && c.Keyed? :: !Overlaps(PlaceOf(c.target), q)
    ensures var r := MergeContribution(d, cs, baseline, rules).value.result.value;
            Read(r, q) == Read(d, q) && r.identity == d.identity && r.rest == d.rest
  {
    var original := Original(baseline);
    AdmittedIndependent(d, cs, baseline, rules);
    MergedReads(d, original, cs, q);
    ObjectsRead(d, original, cs, q);
    IdentityKept(ApplyObjects(d, original, cs), d, original, cs);
  }

  /**
   * A reordered list of the result names its objects once each. Where the order change leaves what
   * base, draft and proposal share in the base's order and the draft moved something, the draft's
   * order stands; otherwise the proposed one does.
   */
  lemma OrderOfResult(d: Draft, cs: seq<Change>, baseline: Option<Draft>, rules: Rules, i: nat)
    requires WellFormed(d) && i < |cs| && cs[i].Reorder?
    requires var m := MergeContribution(d, cs, baseline, rules); m.Ok? && m.value.result.Some?
    ensures var ids := ListIds(MergeContribution(d, cs, baseline, rules).value.result.value, cs[i].list);
            var base, current, after := ListIds(Original(baseline), cs[i].list), ListIds(d, cs[i].list), cs[i].ids;
            var common := Elems(base) * Elems(current) * Elems(after);
            && NoDup(ids)
            && (if Keep(base, common) == Keep(after, common) && base != current
                then Keep(ids, Elems(current)) == Keep(Dedupe(current), Elems(ids))
                else Keep(ids, Elems(after)) == Keep(after, Elems(ids)))
  {
    var original, c := Original(baseline), cs[i];
    AdmittedIndependent(d, cs, baseline, rules);
    OutcomesFree(d, original, cs);
    OrderedList(d, original, cs, i);
    var members := ListIds(ApplyObjects(d, original, cs), c.list);
    MergedOrderLaw(ListIds(original, c.list), ListIds(d, c.list), c.ids, members);
    assert c in cs && WellShaped(c, original);
    DedupeId(c.ids);
  }

  lemma SettledValue(d: Draft, original: Draft, c: Change)
    requires c.Keyed? && WellShaped(c, original) && !KeyedOutcome(d, original, c).state.Conflict?
    ensures var v := if IsComposition(c.target) then AsValue(MergedObject(d, original, c).value) else c.after;
            Settled(d, original, c) == if v.Some? || Read(d, PlaceOf(c.target)).None? then v
                else Uncovered(d, PlaceOf(c.target))
  {
    ReadIsFirst(d, PlaceOf(c.target));
    assert [] + Others(ReadAll(d, PlaceOf(c.target))) == Others(ReadAll(d, PlaceOf(c.target)));
  }

  /**
   * The changed places hold what their changes settle on, each judged against the untouched
   * draft; what is removed uncovers what the draft had behind it.
   */
  lemma ChangedPlaces(d: Draft, cs: seq<Change>, baseline: Option<Draft>, rules: Rules, c: Change)
    requires WellFormed(d) && c in cs && c.Keyed?
    requires var m := MergeContribution(d, cs, baseline, rules); m.Ok? && m.value.result.Some?
    ensures var r := MergeContribution(d, cs, baseline, rules).value.result.value;
            var p := PlaceOf(c.target);
            var v := if IsComposition(c.target) then AsValue(MergedObject(d, Original(baseline), c).value) else c.after;
            Read(r, p) == if v.Some? || Read(d, p).None? then v else Uncovered(d, p)
  {
    var original := Original(baseline);
    AdmittedIndependent(d, cs, baseline, rules);
    MergedReads(d, original, cs, PlaceOf(c.target));
    ObjectsRead(d, original, cs, PlaceOf(c.target));
    OutcomesFree(d, original, cs);
    SettledValue(d, original, c);
  }

  // ---------------------------------------------------------------------------
  // When a change conflicts
  // ---------------------------------------------------------------------------

  /** A value that merges as a whole conflicts exactly when both sides left the base, and differently. */
  lemma WholeValueConflict(d: Draft, original: Draft, c: Change)
    requires c.Keyed? && !IsComposition(c.target) && WellShaped(c, original)
    ensures var p := PlaceOf(c.target);
            var current := Read(d, p);
            var missing := c.base.None? && current.None? && p.VariantAt? && Read(d, SlotAt(p.slot)).None?;
            KeyedOutcome(d, original, c).state.Conflict?
            <==> (current != c.base && current != c.after) || missing
  {
  }

  /** A draft that did not move away from the base takes every change: the rebase never conflicts. */
  lemma UntouchedNeverConflicts(d: Draft, original: Draft, c: Change)
    requires c.Keyed? && WellShaped(c, original) && Read(d, PlaceOf(c.target)) == c.base
    requires c.target.VariantAddress? ==> Read(d, SlotAt(c.target.slot)).Some?
    ensures !KeyedOutcome(d, original, c).state.Conflict?
  {
    if IsComposition(c.target) {
      var base := AsJson(c.base);
      if !MergesAsUnit(c.op, base, base, AsJson(c.after)) {
        DisjointEditsMerge(RuleOf(KindOf(c.target)), AsRecord(base), AsRecord(base), AsRecord(AsJson(c.after)), "");
      }
    }
  }

  lemma RemovalMerges(d: Draft, c: Change, rules: Rules)
    requires c.Keyed? && c.target.EdgeAddress? && c.op.Remove? && c.base.Some? && c.after.None?
    requires Read(d, PlaceOf(c.target)) == c.base && rules.valid(MergedDraft(d, NO_BASELINE, [c]))
    ensures var m := MergeContribution(d, [c], None, rules);
            m.Ok? && m.value.result.Some?
  {
    var cs := [c];
    assert |KeysOf(cs)| == 1;
    assert FirstDuplicate(KeysOf(cs), 1).None?;
    assert FirstDuplicate(KeysOf(cs), 0).None?;
    assert cs[1..] == [] && cs[0] == c;
    assert FirstOverlap(cs[1..], KeysOf(cs)).None?;
    assert FirstBadChange(cs[1..], None, rules).None?;
    assert ShapeError(c, rules).None? && BaseError(c, None).None?;
    assert Admission(d, cs, None, rules).None?;
    assert FirstBadOrder(Proposed(NO_BASELINE, cs), cs[1..]).None?;
    assert KeyedOutcome(d, NO_BASELINE, c) == Outcome(Applied, None, {});
    assert forall o | o in Outcomes(d, NO_BASELINE, cs) :: o == OutcomeOf(d, NO_BASELINE, cs, 0);
  }

  /**
   * Removing an edge from any draft that names it twice: the merge succeeds and uncovers the other
   * one, and merging it again is not what was promised.
   */
  lemma RepeatedIdentityBreaksReapplication(d: Draft, c: Change, rules: Rules)
    requires CanonicalInput(d, None) && SchemaObjects(rules)
    requires c.Keyed? && c.target.EdgeAddress? && c.op.Remove? && c.base.Some? && c.after.None?
    requires Read(d, PlaceOf(c.target)) == c.base && Uncovered(d, PlaceOf(c.target)).Some?
    requires rules.valid(MergedDraft(d, NO_BASELINE, [c]))
    ensures var m := MergeContribution(d, [c], None, rules);
            && m.Ok? && m.value.result.Some?
            && MergeContribution(m.value.result.value, [c], None, rules) != Ok(Report(Done([c]), m.value.result))
  {
    RemovalMerges(d, c, rules);
    Reapplication(d, [c], None, rules);
    assert c in [c] && !AppliesOnce(d, NO_BASELINE, c);
  }

  /** One change to the base itself, admitted, goes through when the result is valid. */
  lemma UntouchedMerges(d: Draft, c: Change, rules: Rules)
    requires c.Keyed? && !c.target.VariantAddress? && ShapeError(c, rules).None?
    requires Read(d, PlaceOf(c.target)) == c.base && c.after != c.base && rules.valid(MergedDraft(d, d, [c]))
    ensures var m := MergeContribution(d, [c], Some(d), rules);
            m.Ok? && m.value.result.Some?
  {
    var cs := [c];
    assert |KeysOf(cs)| == 1;
    assert FirstDuplicate(KeysOf(cs), 1).None?;
    assert FirstDuplicate(KeysOf(cs), 0).None?;
    assert cs[1..] == [] && cs[0] == c;
    assert FirstOverlap(cs[1..], KeysOf(cs)).None?;
    assert FirstBadChange(cs[1..], Some(d), rules).None?;
    assert Admission(d, cs, Some(d), rules).None?;
    assert FirstBadOrder(Proposed(d, cs), cs[1..]).None?;
    AdmittedIndependent(d, cs, Some(d), rules);
    assert c in cs && WellShaped(c, d);
    UntouchedNeverConflicts(d, d, c);
    assert forall o | o in Outcomes(d, d, cs) :: o == OutcomeOf(d, d, cs, 0);
  }

  lemma ScenesMove(base: Option<Json>, after: Option<Json>)
    requires Own(Record(base), "scenes") == Some(FromIds(["x", "z"]))
    requires Own(Record(after), "scenes") == Some(FromIds(["z", "z", "x"]))
    ensures !Settles(RuleOf(StoryObject(Listed(Plotline))), base, base, after)
  {
    var rule, keys := RuleOf(StoryObject(Listed(Plotline))), ["scenes"];
    assert keys[1..] == [] && IsLeaf(RuleAt(rule, "scenes"), []);
    assert IsLeaf(rule, keys) && LeafRule(rule, keys) == ReferenceRule(false);
    assert At(base, keys) == At(Own(Record(base), "scenes"), []);
    assert At(after, keys) == At(Own(Record(after), "scenes"), []);
    RepeatedOrder();
    IdsFromIds(["x", "z"]);
    IdsFromIds(["z", "z", "x"]);
    var a := ["z", "z", "x"];
    assert a[0] == a[1] && a[..2][0] == "z";
    assert !StaysMerged(["x", "z"], ["x", "z"], a);
  }

  /**
   * Reordering the two scenes of any plotline by a list that names one of them twice: the merge
   * succeeds, and merging it again is not what was promised.
   */
  lemma RepeatedReferenceBreaksReapplication(d: Draft, c: Change, id: string, fields: map<string, Json>, rules: Rules)
    requires CanonicalInput(d, Some(d)) && SchemaObjects(rules)
    requires "scenes" in fields && fields["scenes"] == FromIds(["x", "z"])
    requires var proposed := Obj(fields["scenes" := FromIds(["z", "z", "x"])]);
             c == Keyed(StoryAddress(Listed(Plotline), id), Modify, Some(Plain(Obj(fields))), Some(Plain(proposed)))
    requires Read(d, PlaceOf(c.target)) == c.base && ShapeError(c, rules).None? && rules.valid(MergedDraft(d, d, [c]))
    ensures var m := MergeContribution(d, [c], Some(d), rules);
            && m.Ok? && m.value.result.Some?
            && MergeContribution(m.value.result.value, [c], Some(d), rules) != Ok(Report(Done([c]), m.value.result))
  {
    MovedScenes(fields, c.after.value.json);
    UntouchedMerges(d, c, rules);
    Reapplication(d, [c], Some(d), rules);
    assert c in [c] && !AppliesOnce(d, d, c);
  }

  lemma MovedScenes(fields: map<string, Json>, proposed: Json)
    requires "scenes" in fields && fields["scenes"] == FromIds(["x", "z"])
    requires proposed == Obj(fields["scenes" := FromIds(["z", "z", "x"])])
    ensures proposed != Obj(fields)
    ensures !ObjectSettles(StoryObject(Listed(Plotline)), Modify, Some(Obj(fields)), Some(Obj(fields)), Some(proposed))
  {
    IdsFromIds(["x", "z"]);
    IdsFromIds(["z", "z", "x"]);
    assert proposed.fields["scenes"] != fields["scenes"];
    ScenesMove(Some(Obj(fields)), Some(proposed));
  }
}
