/**
 * Merging a contribution into a draft: every change is judged on its own against the base it was
 * made from, the draft as it is now and the value it proposes; the changes are applied together
 * or not at all.
 */
module Contribution {
  import opened Common
  import opened StoryMerge
  import opened ObjectMerge
  import opened OrderMerge
  import opened Drafts

  datatype MetadataField =
    | DisplayName | Summary | DefaultLocale | Tags | Rating
    | ContentWarnings | Rights | License | RecommendedPresets | ContributionPolicy

  datatype ConfigurationField = Policy | PromptModule | Assembly | AssemblyTests

  datatype Address =
    | StoryAddress(kind: StoryKind, id: string)
    | CastAddress(key: string)
    | GroupAddress(id: string)
    | SourceAddress(id: string)
    | FragmentAddress(id: string)
    | EdgeAddress(id: string)
    | SlotAddress(slot: string)
    | VariantAddress(slot: string, variant: string)
    | Metadata(metadata: MetadataField)
    | Configuration(configuration: ConfigurationField)

  /** A change of one keyed value, or of the order of one story list. */
  datatype Change =
    | Keyed(target: Address, op: Op, base: Option<Value>, after: Option<Value>)
    | Reorder(list: ListKind, baseIds: seq<string>, ids: seq<string>)

  /** What the schemas decide: which proposed values parse, and which merged drafts pass the final check. */
  datatype Rules = Rules(accepts: (Address, Value) -> bool, valid: Draft -> bool)

  datatype MergeError =
    | BaseRequired
    | BaseIdentityMismatch
    | DuplicateKey(key: string)
    | OverlappingAssetChange(key: string)
    | InvalidChange(key: string)
    | RequiredField(key: string)
    | NoopChange(key: string)
    | BaseMismatch(key: string)

  datatype State = Applied | AlreadyApplied | Conflict

  datatype Reason = Diverged | SlotMissing | InvalidResult

  datatype Outcome = Outcome(state: State, reason: Option<Reason>, fields: set<string>)

  datatype Report = Report(outcomes: seq<Outcome>, result: Option<Draft>)

  // ---------------------------------------------------------------------------
  // Addresses
  // ---------------------------------------------------------------------------

  function ListLabel(kind: ListKind): string {
    match kind
    case Scene => "scenes"
    case Beat => "beats"
    case Plotline => "plotlines"
    case Ending => "endings"
    case Start => "starts"
    case Choice => "choices"
    case Item => "items"
    case Event => "events"
    case Timeline => "timelines"
  }

  function KindLabel(kind: StoryKind): string {
    match kind
    case Listed(Scene) => "scene"
    case Listed(Beat) => "beat"
    case Listed(Plotline) => "plotline"
    case Listed(Ending) => "ending"
    case Listed(Start) => "start"
    case Listed(Choice) => "choice"
    case Listed(Item) => "item"
    case Listed(Event) => "event"
    case Listed(Timeline) => "timeline"
    case Var => "var"
    case Knowing => "knowing"
  }

  function MetadataName(field: MetadataField): string {
    match field
    case DisplayName => "display_name"
    case Summary => "summary"
    case DefaultLocale => "default_locale"
    case Tags => "tags"
    case Rating => "rating"
    case ContentWarnings => "content_warnings"
    case Rights => "rights"
    case License => "license"
    case RecommendedPresets => "recommended_presets"
    case ContributionPolicy => "contribution_policy"
  }

  function ConfigurationName(field: ConfigurationField): string {
    match field
    case Policy => "policy"
    case PromptModule => "prompt_module"
    case Assembly => "assembly"
    case AssemblyTests => "assembly_tests"
  }

  /** `display_name` and `summary` sit beside `meta`, every other metadata field inside it. */
  function MetadataRecord(field: MetadataField): RecordName {
    if field in {DisplayName, Summary} then Top else Meta
  }

  function PlaceOf(a: Address): Place {
    match a
    case StoryAddress(Listed(kind), id) => InList(StoryList(kind), id)
    case StoryAddress(Var, id) => InRecord(Vars, id)
    case StoryAddress(Knowing, id) => InRecord(KnowingMap, id)
    case CastAddress(key) => InList(Cast, key)
    case GroupAddress(id) => InList(Groups, id)
    case SourceAddress(id) => InList(Sources, id)
    case FragmentAddress(id) => InList(Fragments, id)
    case EdgeAddress(id) => InList(Edges, id)
    case SlotAddress(slot) => SlotAt(slot)
    case VariantAddress(slot, variant) => VariantAt(slot, variant)
    case Metadata(field) => InRecord(MetadataRecord(field), MetadataName(field))
    case Configuration(field) => InRecord(Top, ConfigurationName(field))
  }

  /** Objects that merge field by field against the immutable base. */
  predicate IsComposition(a: Address) {
    a.StoryAddress? || a.CastAddress? || a.GroupAddress? || a.SourceAddress?
  }

  function KindOf(a: Address): ObjectKind
    requires IsComposition(a)
  {
    match a
    case StoryAddress(kind, _) => StoryObject(kind)
    case CastAddress(_) => CastMember
    case GroupAddress(_) => ContentGroup
    case SourceAddress(_) => KnowledgeSource
  }

  function AddressKey(a: Address): string {
    match a
    case StoryAddress(kind, id) => "story:" + KindLabel(kind) + ":" + id
    case CastAddress(key) => "cast:" + key
    case GroupAddress(id) => "group:" + id
    case SourceAddress(id) => "source:" + id
    case FragmentAddress(id) => "fragment:" + id
    case EdgeAddress(id) => "edge:" + id
    case SlotAddress(slot) => "asset:" + slot
    case VariantAddress(slot, variant) => "asset:" + slot + "/" + variant
    case Metadata(field) => "metadata:" + (if MetadataRecord(field).Meta? then "meta." else "") + MetadataName(field)
    case Configuration(field) => "configuration:" + ConfigurationName(field)
  }

  function ChangeKey(c: Change): string {
    match c
    case Keyed(target, _, _, _) => AddressKey(target)
    case Reorder(list, _, _) => "story-order:" + ListLabel(list)
  }

  // ---------------------------------------------------------------------------
  // Admission
  // ---------------------------------------------------------------------------

  /** The field that carries an object's own identity, when it has one. */
  function IdentityField(a: Address): Option<(string, string)> {
    match a
    case StoryAddress(Listed(_), id) => Some(("id", id))
    case StoryAddress(_, _) => None
    case CastAddress(key) => Some(("key", key))
    case GroupAddress(id) => Some(("id", id))
    case SourceAddress(id) => Some(("id", id))
    case FragmentAddress(id) => Some(("id", id))
    case EdgeAddress(id) => Some(("id", id))
    case SlotAddress(slot) => Some(("slot", slot))
    case VariantAddress(_, variant) => Some(("id", variant))
    case Metadata(_) => None
    case Configuration(_) => None
  }

  predicate NamesItself(a: Address, v: Value) {
    match IdentityField(a)
    case None => true
    case Some((field, id)) =>
      Own(Record(Some(if v.Plain? then v.json else v.body.rest)), field) == Some(Str(id))
  }

  predicate RightForm(a: Address, v: Value) {
    v.SlotValue? <==> a.SlotAddress?
  }

  predicate RequiredAddress(a: Address) {
    || (a.Metadata? && a.metadata in {DisplayName, DefaultLocale, Rating, Rights, License})
    || (a.Configuration? && a.configuration in {Policy, PromptModule})
  }

  function ShapeError(c: Change, rules: Rules): Option<MergeError> {
    var key := ChangeKey(c);
    match c
    case Keyed(target, op, base, after) =>
      if (match op
          case Add => base.Some? || after.None?
          case Modify => base.None? || after.None?
          case Remove => base.None? || after.Some?
          case Set => after.None?
          case Unset => base.None? || after.Some?) then Some(InvalidChange(key))
      else if op.Unset? && RequiredAddress(target) then Some(RequiredField(key))
      else if after.Some? && !(RightForm(target, after.value) && NamesItself(target, after.value)
                               && rules.accepts(target, after.value)) then Some(InvalidChange(key))
      else None
    case Reorder(_, _, ids) => if |Elems(ids)| != |ids| then Some(InvalidChange(key)) else None
  }

  function BaseError(c: Change, original: Option<Draft>): Option<MergeError> {
    var key := ChangeKey(c);
    match c
    case Keyed(target, _, base, after) =>
      if after.Some? && after == base then Some(NoopChange(key))
      else if IsComposition(target) && original.Some? && Read(original.value, PlaceOf(target)) != base
        then Some(BaseMismatch(key))
      else None
    case Reorder(list, baseIds, ids) =>
      if ids == baseIds then Some(NoopChange(key))
      else if original.Some? && ListIds(original.value, list) != baseIds then Some(BaseMismatch(key))
      else None
  }

  predicate NeedsBase(c: Change) {
    c.Reorder? || IsComposition(c.target)
  }

  function KeysOf(cs: seq<Change>): seq<string> {
    seq(|cs|, i requires 0 <= i < |cs| => ChangeKey(cs[i]))
  }

  function FirstDuplicate(keys: seq<string>, n: nat): Option<MergeError>
    requires n <= |keys|
    decreases |keys| - n
  {
    if n == |keys| then None
    else if keys[n] in keys[..n] then Some(DuplicateKey(keys[n]))
    else FirstDuplicate(keys, n + 1)
  }

  function FirstOverlap(cs: seq<Change>, keys: seq<string>): Option<MergeError> {
    if cs == [] then None
    else if cs[0].Keyed? && cs[0].target.VariantAddress? && AddressKey(SlotAddress(cs[0].target.slot)) in keys
      then Some(OverlappingAssetChange(AddressKey(SlotAddress(cs[0].target.slot))))
    else FirstOverlap(cs[1..], keys)
  }

  function FirstBadChange(cs: seq<Change>, original: Option<Draft>, rules: Rules): Option<MergeError> {
    if cs == [] then None
    else if ShapeError(cs[0], rules).Some? then ShapeError(cs[0], rules)
    else if BaseError(cs[0], original).Some? then BaseError(cs[0], original)
    else FirstBadChange(cs[1..], original, rules)
  }

  function Admission(d: Draft, cs: seq<Change>, original: Option<Draft>, rules: Rules): Option<MergeError> {
    var keys := KeysOf(cs);
    if original.None? && exists c | c in cs :: NeedsBase(c) then Some(BaseRequired)
    else if original.Some? && original.value.identity != d.identity then Some(BaseIdentityMismatch)
    else if FirstDuplicate(keys, 0).Some? then FirstDuplicate(keys, 0)
    else if FirstOverlap(cs, keys).Some? then FirstOverlap(cs, keys)
    else FirstBadChange(cs, original, rules)
  }

  // ---------------------------------------------------------------------------
  // Outcomes of keyed changes
  // ---------------------------------------------------------------------------

  /** The decision on a value that merges as a whole. `slotExists` matters only to asset variants. */
  function Decide(op: Op, base: Option<Value>, after: Option<Value>, current: Option<Value>,
      slotExists: bool): Outcome {
    var diverged := Outcome(Conflict, Some(Diverged), {});
    if (op.Add? || op.Set?) && base.None? then
      if current.None? then
        if slotExists then Outcome(Applied, None, {}) else Outcome(Conflict, Some(SlotMissing), {})
      else if current == after then Outcome(AlreadyApplied, None, {})
      else diverged
    else if op.Modify? || op.Set? then
      if current == base then Outcome(Applied, None, {})
      else if current == after then Outcome(AlreadyApplied, None, {})
      else diverged
    else if current == base then Outcome(Applied, None, {})
    else if current.None? then Outcome(AlreadyApplied, None, {})
    else diverged
  }

  function MergedObject(d: Draft, original: Draft, c: Change): Merged
    requires c.Keyed? && IsComposition(c.target)
  {
    var p := PlaceOf(c.target);
    MergeObject(KindOf(c.target), c.op, AsJson(Read(original, p)), AsJson(Read(d, p)), AsJson(c.after))
  }

  function KeyedOutcome(d: Draft, original: Draft, c: Change): Outcome
    requires c.Keyed?
  {
    var p := PlaceOf(c.target);
    if IsComposition(c.target) then
      var m := MergedObject(d, original, c);
      if m.conflicts != {} then Outcome(Conflict, Some(Diverged), m.conflicts)
      else if AsValue(m.value) == Read(d, p) then Outcome(AlreadyApplied, None, {})
      else Outcome(Applied, None, {})
    else
      Decide(c.op, c.base, c.after, Read(d, p), p.VariantAt? ==> Read(d, SlotAt(p.slot)).Some?)
  }

  /** The value an applied change writes. */
  function NewValue(d: Draft, original: Draft, c: Change): Option<Value>
    requires c.Keyed?
  {
    if IsComposition(c.target) then AsValue(MergedObject(d, original, c).value) else c.after
  }

  // ---------------------------------------------------------------------------
  // The merge
  // ---------------------------------------------------------------------------

  function ApplyObject(w: Draft, d: Draft, original: Draft, c: Change): Draft {
    if c.Keyed? && KeyedOutcome(d, original, c).state.Applied?
    then Write(w, PlaceOf(c.target), NewValue(d, original, c))
    else w
  }

  function ApplyObjects(d: Draft, original: Draft, cs: seq<Change>): Draft {
    if cs == [] then d
    else ApplyObject(ApplyObjects(d, original, cs[..|cs| - 1]), d, original, cs[|cs| - 1])
  }

  /** The base with every proposed object, which the order changes must name completely. */
  function Proposed(original: Draft, cs: seq<Change>): Draft {
    if cs == [] then original
    else
      var p, c := Proposed(original, cs[..|cs| - 1]), cs[|cs| - 1];
      if c.Keyed? && IsComposition(c.target) then Write(p, PlaceOf(c.target), c.after) else p
  }

  predicate NamesMembers(membership: seq<string>, ids: seq<string>) {
    |membership| == |ids| && forall id | id in membership :: id in ids
  }

  function FirstBadOrder(proposed: Draft, cs: seq<Change>): Option<MergeError> {
    if cs == [] then None
    else if cs[0].Reorder? && !NamesMembers(ListIds(proposed, cs[0].list), cs[0].ids)
      then Some(InvalidChange(ChangeKey(cs[0])))
    else FirstBadOrder(proposed, cs[1..])
  }

  function OrderMerged(w: Draft, d: Draft, original: Draft, c: Change): MergedOrder
    requires c.Reorder?
  {
    MergeOrder(ListIds(original, c.list), ListIds(d, c.list), c.ids, ListIds(w, c.list))
  }

  function OrderOutcome(w: Draft, d: Draft, original: Draft, c: Change): Outcome
    requires c.Reorder?
  {
    var m := OrderMerged(w, d, original, c);
    if m.conflict then Outcome(Conflict, Some(Diverged), {"@order"})
    else if m.ids == ListIds(d, c.list) then Outcome(AlreadyApplied, None, {})
    else Outcome(Applied, None, {})
  }

  function ApplyOrderChange(w: Draft, d: Draft, original: Draft, c: Change): Draft {
    if c.Reorder? && !OrderMerged(w, d, original, c).conflict
    then ApplyOrder(w, c.list, OrderMerged(w, d, original, c).ids)
    else w
  }

  function ApplyOrders(w: Draft, d: Draft, original: Draft, cs: seq<Change>): Draft {
    if cs == [] then w
    else ApplyOrderChange(ApplyOrders(w, d, original, cs[..|cs| - 1]), d, original, cs[|cs| - 1])
  }

  function OutcomeOf(d: Draft, original: Draft, cs: seq<Change>, i: nat): Outcome
    requires i < |cs|
  {
    if cs[i].Keyed? then KeyedOutcome(d, original, cs[i])
    else OrderOutcome(ApplyOrders(ApplyObjects(d, original, cs), d, original, cs[..i]), d, original, cs[i])
  }

  function Outcomes(d: Draft, original: Draft, cs: seq<Change>): seq<Outcome> {
    seq(|cs|, i requires 0 <= i < |cs| => OutcomeOf(d, original, cs, i))
  }

  /** The draft with every applicable change, before the final check. */
  function MergedDraft(d: Draft, original: Draft, cs: seq<Change>): Draft {
    var w := ApplyOrders(ApplyObjects(d, original, cs), d, original, cs);
    if exists c | c in cs :: NeedsBase(c) then RemoveEmptyStory(w) else w
  }

  predicate HasConflict(outcomes: seq<Outcome>) {
    exists o | o in outcomes :: o.state.Conflict?
  }

  function Judge(outcomes: seq<Outcome>, merged: Draft, rules: Rules): Report {
    if HasConflict(outcomes) then Report(outcomes, None)
    else if rules.valid(merged) then Report(outcomes, Some(merged))
    else Report(seq(|outcomes|, _ => Outcome(Conflict, Some(InvalidResult), {})), None)
  }

  /** Stands for the base of a contribution that needs none. */
  const NO_BASELINE := Draft(("", "", ""), Null, map[Fragments := [], Edges := []], map[Top := map[], Meta := map[]],
                             [], NoStory)

  function Original(baseline: Option<Draft>): Draft {
    if baseline.Some? then baseline.value else NO_BASELINE
  }

  function MergeContribution(d: Draft, cs: seq<Change>, baseline: Option<Draft>, rules: Rules)
    : Result<Report, MergeError>
  {
    var original := Original(baseline);
    var refused := Admission(d, cs, baseline, rules);
    if refused.Some? then Err(refused.value)
    else
      var badOrder := FirstBadOrder(Proposed(original, cs), cs);
      if badOrder.Some? then Err(badOrder.value)
      else Ok(Judge(Outcomes(d, original, cs), MergedDraft(d, original, cs), rules))
  }
}
