/**
 * A creation draft as the contribution merge sees it: keyed lists, keyed records, asset slots
 * and an optional story. `Place` names one mergeable value of it.
 */
module Drafts {
  import opened Common
  import opened StoryMerge
  import opened ObjectMerge

  datatype ListName = Fragments | Edges | Cast | Groups | Sources | StoryList(kind: ListKind)

  datatype RecordName = Top | Meta | Vars | KnowingMap

  datatype Entry<+V> = Entry(id: string, value: V)

  /** An asset slot apart from its identity: its variants and everything else. */
  datatype SlotBody = SlotBody(rest: Json, variants: seq<Entry<Json>>)

  datatype Story = NoStory | Story(player: Option<Json>)

  datatype Draft = Draft(
    identity: (string, string, string),
    rest: Json,
    lists: map<ListName, seq<Entry<Json>>>,
    records: map<RecordName, map<string, Json>>,
    assets: seq<Entry<SlotBody>>,
    story: Story)

  datatype Place =
    | InList(list: ListName, id: string)
    | InRecord(record: RecordName, key: string)
    | SlotAt(slot: string)
    | VariantAt(slot: string, variant: string)

  datatype Value = Plain(json: Json) | SlotValue(body: SlotBody)

  // ---------------------------------------------------------------------------
  // Keyed lists
  // ---------------------------------------------------------------------------

  function Find<V>(s: seq<Entry<V>>, id: string): Option<V> {
    if s == [] then None
    else if s[0].id == id then Some(s[0].value)
    else Find(s[1..], id)
  }

  /** Replaces, removes or appends the entry with the given identity. */
  function Upsert<V>(s: seq<Entry<V>>, id: string, v: Option<V>): seq<Entry<V>> {
    if s == [] then (if v.Some? then [Entry(id, v.value)] else [])
    else if s[0].id == id then (if v.Some? then [Entry(id, v.value)] else []) + s[1..]
    else [s[0]] + Upsert(s[1..], id, v)
  }

  function IdsOf<V>(s: seq<Entry<V>>): seq<string> {
    seq(|s|, i requires 0 <= i < |s| => s[i].id)
  }

  lemma {:induction false} FindIffListed<V>(s: seq<Entry<V>>, id: string)
    ensures Find(s, id).Some? <==> id in IdsOf(s)
  {
    if s != [] {
      FindIffListed(s[1..], id);
      assert IdsOf(s) == [s[0].id] + IdsOf(s[1..]);
    }
  }

  lemma HeadId<V>(s: seq<Entry<V>>)
    requires s != []
    ensures IdsOf(s) == [s[0].id] + IdsOf(s[1..])
    ensures NoDup(IdsOf(s)) ==> s[0].id !in IdsOf(s[1..]) && NoDup(IdsOf(s[1..]))
  {
    assert IdsOf(s)[1..] == IdsOf(s[1..]);
    assert IdsOf(s)[0] == s[0].id;
    if NoDup(IdsOf(s)) {
      forall k | 0 <= k < |s| - 1 ensures IdsOf(s[1..])[k] != s[0].id {
        assert IdsOf(s[1..])[k] == IdsOf(s)[k + 1];
      }
    }
  }

  lemma {:induction false} UpsertSome<V>(s: seq<Entry<V>>, id: string, v: V)
    ensures IdsOf(Upsert(s, id, Some(v))) == if id in IdsOf(s) then IdsOf(s) else IdsOf(s) + [id]
  {
    if s != [] {
      HeadId(s);
      UpsertSome(s[1..], id, v);
      var up := Upsert(s, id, Some(v));
      if s[0].id == id {
        assert up == [Entry(id, v)] + s[1..];
        assert IdsOf(up) == [id] + IdsOf(s[1..]);
      } else {
        assert IdsOf(up) == [s[0].id] + IdsOf(Upsert(s[1..], id, Some(v)));
      }
    }
  }

  lemma {:induction false} UpsertNone<V>(s: seq<Entry<V>>, id: string)
    requires NoDup(IdsOf(s))
    ensures IdsOf(Upsert(s, id, None)) == Drop(IdsOf(s), {id})
  {
    if s != [] {
      HeadId(s);
      var ids, rest := IdsOf(s), IdsOf(s[1..]);
      UpsertNone(s[1..], id);
      KeepAgree(rest, Elems(ids) - {id}, Elems(rest) - {id});
      if s[0].id == id {
        assert Upsert(s, id, None) == s[1..];
        KeepAll(rest, Elems(rest) - {id});
      } else {
        assert IdsOf(Upsert(s, id, None)) == [s[0].id] + IdsOf(Upsert(s[1..], id, None));
        assert s[0].id in Elems(ids) - {id};
      }
    } else {
      assert Drop(IdsOf(s), {id}) == [];
    }
  }

  lemma UpsertIds<V>(s: seq<Entry<V>>, id: string, v: Option<V>)
    requires NoDup(IdsOf(s))
    ensures IdsOf(Upsert(s, id, v))
         == if v.None? then Drop(IdsOf(s), {id}) else if id in IdsOf(s) then IdsOf(s) else IdsOf(s) + [id]
    ensures NoDup(IdsOf(Upsert(s, id, v)))
  {
    match v {
      case None =>
        UpsertNone(s, id);
        KeepNoDup(IdsOf(s), Elems(IdsOf(s)) - {id});
      case Some(value) => UpsertSome(s, id, value);
    }
  }

  /** All values under an identity, in order; canonical lists may repeat one. */
  function All<V>(s: seq<Entry<V>>, id: string): seq<V> {
    if s == [] then []
    else (if s[0].id == id then [s[0].value] else []) + All(s[1..], id)
  }

  function Lead<V>(v: Option<V>): seq<V> {
    if v.Some? then [v.value] else []
  }

  function First<V>(vs: seq<V>): Option<V> {
    if vs == [] then None else Some(vs[0])
  }

  function Others<V>(vs: seq<V>): seq<V> {
    if vs == [] then [] else vs[1..]
  }

  lemma {:induction false} FindIsFirst<V>(s: seq<Entry<V>>, id: string)
    ensures Find(s, id) == First(All(s, id))
  {
    if s != [] { FindIsFirst(s[1..], id); }
  }

  /** Of the values under an identity the first is replaced, and under no other identity is anything changed. */
  lemma {:induction false} AllUpsert<V>(s: seq<Entry<V>>, id: string, v: Option<V>, other: string)
    ensures All(Upsert(s, id, v), other) == if other == id then Lead(v) + Others(All(s, id)) else All(s, other)
  {
    var up := Upsert(s, id, v);
    if s == [] {
      assert v.Some? ==> up[1..] == [];
    } else {
      AllUpsert(s[1..], id, v, other);
      assert [] + All(s[1..], other) == All(s[1..], other);
      if s[0].id == id {
        assert v.Some? ==> up[1..] == s[1..];
        assert v.None? ==> up == s[1..];
        assert Others(All(s, id)) == All(s[1..], id);
      } else {
        assert up[1..] == Upsert(s[1..], id, v);
      }
    }
  }

  lemma {:induction false} AllListed<V>(s: seq<Entry<V>>, id: string)
    ensures |All(s, id)| == multiset(IdsOf(s))[id]
  {
    if s != [] {
      HeadId(s);
      AllListed(s[1..], id);
      assert multiset(IdsOf(s)) == multiset{s[0].id} + multiset(IdsOf(s[1..]));
    }
  }

  /** Lists with the same identities in the same order and the same values are the same. */
  lemma {:induction false} SameByFind<V>(s: seq<Entry<V>>, t: seq<Entry<V>>)
    requires IdsOf(s) == IdsOf(t) && NoDup(IdsOf(s))
    requires forall id | id in IdsOf(s) :: Find(s, id) == Find(t, id)
    ensures s == t
  {
    assert |s| == |IdsOf(s)| == |t|;
    if s != [] {
      assert IdsOf(s) == [s[0].id] + IdsOf(s[1..]) && IdsOf(t) == [t[0].id] + IdsOf(t[1..]);
      assert IdsOf(s)[1..] == IdsOf(s[1..]) && IdsOf(t)[1..] == IdsOf(t[1..]);
      assert s[0].id == IdsOf(s)[0] == IdsOf(t)[0] == t[0].id;
      assert Find(s, s[0].id) == Find(t, s[0].id);
      forall id | id in IdsOf(s[1..]) ensures Find(s[1..], id) == Find(t[1..], id) {
        assert id in IdsOf(s);
        assert id != s[0].id;
      }
      SameByFind(s[1..], t[1..]);
    }
  }

  /** `ids.map(find).filter(defined)`: the entries in the order of `ids`. */
  function Pick<V>(s: seq<Entry<V>>, ids: seq<string>): seq<Entry<V>> {
    if ids == [] then []
    else
      var found := Find(s, ids[0]);
      (if found.Some? then [Entry(ids[0], found.value)] else []) + Pick(s, ids[1..])
  }

  lemma {:induction false} PickIds<V>(s: seq<Entry<V>>, ids: seq<string>)
    ensures IdsOf(Pick(s, ids)) == Keep(ids, Elems(IdsOf(s)))
  {
    if ids != [] {
      PickIds(s, ids[1..]);
      FindIffListed(s, ids[0]);
      var tail := Pick(s, ids[1..]);
      if Find(s, ids[0]).Some? {
        assert IdsOf(Pick(s, ids)) == [ids[0]] + IdsOf(tail);
      } else {
        assert Pick(s, ids) == tail;
      }
    }
  }

  lemma {:induction false} FindPick<V>(s: seq<Entry<V>>, ids: seq<string>, id: string)
    ensures Find(Pick(s, ids), id) == if id in ids then Find(s, id) else None
  {
    if ids != [] {
      FindPick(s, ids[1..], id);
      var tail := Pick(s, ids[1..]);
      if Find(s, ids[0]).Some? {
        assert Pick(s, ids)[1..] == tail;
      } else {
        assert Pick(s, ids) == tail;
      }
      assert id in ids <==> id == ids[0] || id in ids[1..];
    }
  }

  lemma {:induction false} AllPick<V>(s: seq<Entry<V>>, ids: seq<string>, id: string)
    requires NoDup(ids)
    ensures All(Pick(s, ids), id) == if id in ids then Lead(Find(s, id)) else []
  {
    if ids != [] {
      NoDupCons(ids);
      AllPick(s, ids[1..], id);
      var tail := Pick(s, ids[1..]);
      if Find(s, ids[0]).Some? {
        assert Pick(s, ids)[1..] == tail;
      } else {
        assert Pick(s, ids) == tail;
      }
      assert id in ids <==> id == ids[0] || id in ids[1..];
      assert id in ids[1..] <==> id in Elems(ids[1..]);
    }
  }

  // ---------------------------------------------------------------------------
  // Reading and writing one place
  // ---------------------------------------------------------------------------

  function ListOf(d: Draft, list: ListName): seq<Entry<Json>> {
    if list in d.lists then d.lists[list] else []
  }

  function RecordOf(d: Draft, record: RecordName): map<string, Json> {
    if record in d.records then d.records[record] else map[]
  }

  function AsValue(v: Option<Json>): Option<Value> {
    if v.Some? then Some(Plain(v.value)) else None
  }

  function AsJson(v: Option<Value>): Option<Json> {
    if v.Some? && v.value.Plain? then Some(v.value.json) else None
  }

  function AsBody(v: Option<Value>): Option<SlotBody> {
    if v.Some? && v.value.SlotValue? then Some(v.value.body) else None
  }

  function Read(d: Draft, p: Place): Option<Value> {
    match p
    case InList(list, id) => AsValue(Find(ListOf(d, list), id))
    case InRecord(record, key) => AsValue(Own(RecordOf(d, record), key))
    case SlotAt(slot) =>
      var body := Find(d.assets, slot);
      if body.Some? then Some(SlotValue(body.value)) else None
    case VariantAt(slot, variant) =>
      var body := Find(d.assets, slot);
      if body.Some? then AsValue(Find(body.value.variants, variant)) else None
  }

  function Plains(vs: seq<Json>): seq<Value> {
    seq(|vs|, i requires 0 <= i < |vs| => Plain(vs[i]))
  }

  function Bodies(vs: seq<SlotBody>): seq<Value> {
    seq(|vs|, i requires 0 <= i < |vs| => SlotValue(vs[i]))
  }

  /** All values at a place: the first is the one that is read, the others are hidden behind it. */
  function ReadAll(d: Draft, p: Place): seq<Value> {
    match p
    case InList(list, id) => Plains(All(ListOf(d, list), id))
    case InRecord(record, key) => Plains(Lead(Own(RecordOf(d, record), key)))
    case SlotAt(slot) => Bodies(All(d.assets, slot))
    case VariantAt(slot, variant) =>
      var body := Find(d.assets, slot);
      if body.Some? then Plains(All(body.value.variants, variant)) else []
  }

  /** What removing the value at a place would uncover. */
  function Uncovered(d: Draft, p: Place): Option<Value> {
    First(Others(ReadAll(d, p)))
  }

  lemma ReadIsFirst(d: Draft, p: Place)
    ensures Read(d, p) == First(ReadAll(d, p))
  {
    match p {
      case InList(list, id) => FindIsFirst(ListOf(d, list), id);
      case SlotAt(slot) => FindIsFirst(d.assets, slot);
      case VariantAt(slot, variant) =>
        var body := Find(d.assets, slot);
        if body.Some? { FindIsFirst(body.value.variants, variant); }
      case _ =>
    }
  }

  predicate InStory(p: Place) {
    (p.InList? && p.list.StoryList?) || (p.InRecord? && p.record in {Vars, KnowingMap})
  }

  /** Collections that are dropped from the draft when they become empty. */
  predicate Droppable(list: ListName) {
    list !in {Fragments, Edges, StoryList(Scene)}
  }

  function WithList(d: Draft, list: ListName, s: seq<Entry<Json>>): Draft {
    d.(lists := if s == [] && Droppable(list) then d.lists - {list} else d.lists[list := s])
  }

  function WithRecord(d: Draft, record: RecordName, m: map<string, Json>): Draft {
    d.(records := if m == map[] && record in {Vars, KnowingMap} then d.records - {record} else d.records[record := m])
  }

  function WithStory(d: Draft): Draft {
    if d.story.NoStory? then d.(story := Story(None), lists := d.lists[StoryList(Scene) := []]) else d
  }

  function Write(d: Draft, p: Place, v: Option<Value>): Draft {
    if InStory(p) && d.story.NoStory? && v.None? then d
    else
      var d := if InStory(p) then WithStory(d) else d;
      match p
      case InList(list, id) => WithList(d, list, Upsert(ListOf(d, list), id, AsJson(v)))
      case InRecord(record, key) =>
        WithRecord(d, record,
                   if v.None? then RecordOf(d, record) - {key}
                   else if v.value.Plain? then RecordOf(d, record)[key := v.value.json]
                   else RecordOf(d, record))
      case SlotAt(slot) => d.(assets := Upsert(d.assets, slot, AsBody(v)))
      case VariantAt(slot, variant) =>
        var body := Find(d.assets, slot);
        if body.None? then d
        else
          var variants := Upsert(body.value.variants, variant, AsJson(v));
          d.(assets := Upsert(d.assets, slot, Some(body.value.(variants := variants))))
  }

  /** A draft as canonicalisation leaves it; it may name one identity twice. */
  ghost predicate WellFormed(d: Draft) {
    && {Fragments, Edges} <= d.lists.Keys && {Top, Meta} <= d.records.Keys
    && (d.story.NoStory? ==>
          Vars !in d.records && KnowingMap !in d.records && forall k: ListKind :: StoryList(k) !in d.lists)
    && (d.story.Story? ==> StoryList(Scene) in d.lists)
  }

  /** The value has the form the place holds. */
  ghost predicate Fits(p: Place, v: Option<Value>) {
    v.Some? ==> (if p.SlotAt? then v.value.SlotValue? else v.value.Plain?)
  }

  /** A variant can only be written into a slot that exists. */
  ghost predicate Writable(d: Draft, p: Place) {
    p.VariantAt? ==> Find(d.assets, p.slot).Some?
  }

  /** Equal places, or a slot and one of its variants. */
  ghost predicate Overlaps(p: Place, q: Place) {
    || p == q
    || (p.SlotAt? && q.VariantAt? && p.slot == q.slot)
    || (p.VariantAt? && q.SlotAt? && p.slot == q.slot)
  }

  lemma WriteWellFormed(d: Draft, p: Place, v: Option<Value>)
    requires WellFormed(d)
    ensures WellFormed(Write(d, p, v))
  {
  }

  /** What a variant of a slot cannot change: the rest of the slot, and the slots hidden behind it. */
  ghost function SlotFrame(d: Draft, slot: string): (Option<Json>, seq<SlotBody>) {
    var bodies := All(d.assets, slot);
    (if bodies == [] then None else Some(bodies[0].rest), Others(bodies))
  }

  lemma SlotPresent(d: Draft, slot: string)
    ensures SlotFrame(d, slot).0.Some? <==> Find(d.assets, slot).Some?
  {
    FindIsFirst(d.assets, slot);
  }

  /** Only a change of the whole slot can take it away or touch more than its variants. */
  lemma WriteKeepsSlot(d: Draft, p: Place, v: Option<Value>, slot: string)
    requires p != SlotAt(slot)
    ensures SlotFrame(Write(d, p, v), slot) == SlotFrame(d, slot)
  {
    match p {
      case SlotAt(other) => AllUpsert(d.assets, other, AsBody(v), slot);
      case VariantAt(other, variant) =>
        var body := Find(d.assets, other);
        if body.Some? {
          var body' := body.value.(variants := Upsert(body.value.variants, variant, AsJson(v)));
          AllUpsert(d.assets, other, Some(body'), slot);
          FindIsFirst(d.assets, other);
        }
      case _ =>
    }
  }

  lemma LeadPlains(v: Option<Value>, vs: seq<Json>)
    requires v.Some? ==> v.value.Plain?
    ensures Plains(Lead(AsJson(v)) + Others(vs)) == Lead(v) + Others(Plains(vs))
  {
  }

  lemma LeadBodies(v: Option<Value>, vs: seq<SlotBody>)
    requires v.Some? ==> v.value.SlotValue?
    ensures Bodies(Lead(AsBody(v)) + Others(vs)) == Lead(v) + Others(Bodies(vs))
  {
  }

  lemma SlotWrite(d: Draft, slot: string, v: Option<Value>, q: Place)
    requires Fits(SlotAt(slot), v) && (q.SlotAt? || q.VariantAt?)
    ensures var d' := Write(d, SlotAt(slot), v);
            && (q == SlotAt(slot) ==> ReadAll(d', q) == Lead(v) + Others(ReadAll(d, q)))
            && (q.slot != slot ==> ReadAll(d', q) == ReadAll(d, q))
  {
    var d' := Write(d, SlotAt(slot), v);
    AllUpsert(d.assets, slot, AsBody(v), q.slot);
    FindIsFirst(d.assets, q.slot);
    FindIsFirst(d'.assets, q.slot);
    LeadBodies(v, All(d.assets, slot));
  }

  lemma VariantWrite(d: Draft, slot: string, variant: string, v: Option<Value>, q: Place)
    requires Fits(VariantAt(slot, variant), v) && Find(d.assets, slot).Some? && (q.SlotAt? || q.VariantAt?)
    ensures var d' := Write(d, VariantAt(slot, variant), v);
            && (q == VariantAt(slot, variant) ==> ReadAll(d', q) == Lead(v) + Others(ReadAll(d, q)))
            && (q != VariantAt(slot, variant) && q != SlotAt(slot) ==> ReadAll(d', q) == ReadAll(d, q))
  {
    var body := Find(d.assets, slot).value;
    var body' := body.(variants := Upsert(body.variants, variant, AsJson(v)));
    var d' := d.(assets := Upsert(d.assets, slot, Some(body')));
    assert Write(d, VariantAt(slot, variant), v) == d';
    AllUpsert(d.assets, slot, Some(body'), q.slot);
    FindIsFirst(d.assets, q.slot);
    FindIsFirst(d'.assets, q.slot);
    if q.VariantAt? && q.slot == slot {
      assert Find(d'.assets, slot) == Some(body');
      AllUpsert(body.variants, variant, AsJson(v), q.variant);
      LeadPlains(v, All(body.variants, variant));
    }
  }

  lemma ListWrite(d: Draft, list: ListName, id: string, v: Option<Value>, q: Place)
    requires Fits(InList(list, id), v)
    ensures var d' := WithList(d, list, Upsert(ListOf(d, list), id, AsJson(v)));
            && (q == InList(list, id) ==> ReadAll(d', q) == Lead(v) + Others(ReadAll(d, q)))
            && (q != InList(list, id) ==> ReadAll(d', q) == ReadAll(d, q))
  {
    var s := ListOf(d, list);
    if q.InList? && q.list == list {
      AllUpsert(s, id, AsJson(v), q.id);
      LeadPlains(v, All(s, id));
      assert ListOf(WithList(d, list, Upsert(s, id, AsJson(v))), list) == Upsert(s, id, AsJson(v));
    }
  }

  lemma RecordWrite(d: Draft, record: RecordName, key: string, v: Option<Value>, q: Place)
    requires WellFormed(d) && Fits(InRecord(record, key), v)
    requires record in {Vars, KnowingMap} ==> d.story.Story?
    ensures var d' := Write(d, InRecord(record, key), v);
            && (q == InRecord(record, key) ==> ReadAll(d', q) == Lead(v) + Others(ReadAll(d, q)))
            && (q != InRecord(record, key) ==> ReadAll(d', q) == ReadAll(d, q))
  {
  }

  lemma StoryStartsEmpty(d: Draft, p: Place, q: Place)
    requires WellFormed(d)
    ensures InStory(p) ==> WellFormed(WithStory(d)) && ReadAll(WithStory(d), q) == ReadAll(d, q)
    ensures InStory(p) && d.story.NoStory? ==> ReadAll(d, p) == []
  {
  }

  /** A write replaces the value that is read, and nothing that does not overlap it is disturbed. */
  lemma ReadWrite(d: Draft, p: Place, v: Option<Value>, q: Place)
    requires WellFormed(d) && Fits(p, v) && Writable(d, p)
    ensures p == q ==> ReadAll(Write(d, p, v), q) == Lead(v) + Others(ReadAll(d, q))
    ensures !Overlaps(p, q) ==> ReadAll(Write(d, p, v), q) == ReadAll(d, q)
  {
    StoryStartsEmpty(d, p, q);
    if InStory(p) && d.story.NoStory? && v.None? { return; }
    match p {
      case InList(list, id) => ListWrite(if InStory(p) then WithStory(d) else d, list, id, v, q);
      case InRecord(record, key) => RecordWrite(if InStory(p) then WithStory(d) else d, record, key, v, q);
      case SlotAt(slot) =>
        if q.SlotAt? || q.VariantAt? { SlotWrite(d, slot, v, q); }
      case VariantAt(slot, variant) =>
        if q.SlotAt? || q.VariantAt? { VariantWrite(d, slot, variant, v, q); }
    }
  }

  // ---------------------------------------------------------------------------
  // Drafts without repeated identities
  // ---------------------------------------------------------------------------

  /** No identity is named twice, in no list, among no slots and in no slot's variants. */
  ghost predicate Unique(d: Draft) {
    forall q: Place :: |ReadAll(d, q)| <= 1
  }

  lemma SlotsListed(d: Draft, slot: string)
    ensures var frame := SlotFrame(d, slot);
            |ReadAll(d, SlotAt(slot))| == (if frame.0.Some? then 1 else 0) + |frame.1|
  {
  }

  lemma NoDupAll<V>(s: seq<Entry<V>>, id: string)
    requires NoDup(IdsOf(s))
    ensures |All(s, id)| <= 1
  {
    AllListed(s, id);
    if multiset(IdsOf(s))[id] > 1 { RepeatedIn(IdsOf(s), id); }
  }

  lemma {:induction false} RepeatedIn(s: seq<string>, x: string)
    requires multiset(s)[x] > 1
    ensures !NoDup(s)
  {
    if s != [] {
      assert s == [s[0]] + s[1..];
      if s[0] == x {
        assert x in multiset(s[1..]);
        var i :| 0 <= i < |s| - 1 && s[1..][i] == x;
        assert s[i + 1] == s[0];
      } else {
        RepeatedIn(s[1..], x);
        var i, j :| 0 <= i < j < |s| - 1 && s[1..][i] == s[1..][j];
        assert s[i + 1] == s[j + 1];
      }
    }
  }

  /** A write names no identity twice, unless the slot it writes does, and keeps no empty collection. */
  lemma WriteKeepsUnique(d: Draft, p: Place, v: Option<Value>)
    requires WellFormed(d) && Unique(d) && Fits(p, v) && Writable(d, p)
    requires p.SlotAt? && v.Some? ==> NoDup(IdsOf(v.value.body.variants))
    ensures WellFormed(Write(d, p, v)) && Unique(Write(d, p, v)) && (Compact(d) ==> Compact(Write(d, p, v)))
  {
    var d' := Write(d, p, v);
    if Compact(d) { WriteKeepsCompact(d, p, v); }
    forall q: Place ensures |ReadAll(d', q)| <= 1 {
      ReadWrite(d, p, v, q);
      assert |ReadAll(d, q)| <= 1;
      if p.VariantAt? && q == SlotAt(p.slot) {
        WriteKeepsSlot(d, p, v, p.slot);
        SlotsListed(d, p.slot);
        SlotsListed(d', p.slot);
      } else if p.SlotAt? && q.VariantAt? && q.slot == p.slot {
        ReadWrite(d, p, v, p);
        ReadIsFirst(d', p);
        assert |ReadAll(d, p)| <= 1;
        if v.Some? { NoDupAll(v.value.body.variants, q.variant); }
      }
    }
  }

  /** No collection is kept that is empty and could be dropped. */
  ghost predicate Compact(d: Draft) {
    && (forall list | list in d.lists && Droppable(list) :: d.lists[list] != [])
    && (forall record | record in d.records && record in {Vars, KnowingMap} :: d.records[record] != map[])
  }

  lemma WriteKeepsCompact(d: Draft, p: Place, v: Option<Value>)
    requires Compact(d)
    ensures Compact(Write(d, p, v))
  {
  }

  // ---------------------------------------------------------------------------
  // Story order and empty stories
  // ---------------------------------------------------------------------------

  function ListIds(d: Draft, kind: ListKind): seq<string> {
    IdsOf(ListOf(d, StoryList(kind)))
  }

  function ApplyOrder(d: Draft, kind: ListKind, ids: seq<string>): Draft {
    var list := StoryList(kind);
    if d.story.NoStory? then d
    else if ids == [] && Droppable(list) then d.(lists := d.lists - {list})
    else d.(lists := d.lists[list := Pick(ListOf(d, list), ids)])
  }

  /** Nothing is left of the story but its version. */
  predicate StoryIsEmpty(d: Draft) {
    && d.story == Story(None)
    && (forall list | list in d.lists :: list.StoryList? ==> d.lists[list] == [])
    && RecordOf(d, Vars) == map[] && RecordOf(d, KnowingMap) == map[]
  }

  function RemoveEmptyStory(d: Draft): Draft {
    if StoryIsEmpty(d) then
      d.(story := NoStory,
         lists := map list | list in d.lists && !list.StoryList? :: d.lists[list],
         records := d.records - {Vars, KnowingMap})
    else d
  }

  lemma OrderWellFormed(d: Draft, kind: ListKind, ids: seq<string>)
    requires WellFormed(d) && NoDup(ids) && Elems(ids) == Elems(ListIds(d, kind))
    ensures WellFormed(ApplyOrder(d, kind, ids))
    ensures d.story.Story? ==> ListIds(ApplyOrder(d, kind, ids), kind) == ids
  {
    var s := ListOf(d, StoryList(kind));
    PickIds(s, ids);
    KeepAll(ids, Elems(IdsOf(s)));
  }

  /** Reordering a list by its identities, each once, keeps what is read and drops what was hidden. */
  lemma OrderReads(d: Draft, kind: ListKind, ids: seq<string>, q: Place)
    requires WellFormed(d) && NoDup(ids) && Elems(ids) == Elems(ListIds(d, kind))
    ensures ReadAll(ApplyOrder(d, kind, ids), q)
         == if q.InList? && q.list == StoryList(kind) then Lead(Read(d, q)) else ReadAll(d, q)
    ensures Read(ApplyOrder(d, kind, ids), q) == Read(d, q)
  {
    ReadIsFirst(d, q);
    ReadIsFirst(ApplyOrder(d, kind, ids), q);
    var s := ListOf(d, StoryList(kind));
    if q.InList? && q.list == StoryList(kind) {
      AllPick(s, ids, q.id);
      FindIffListed(s, q.id);
      assert q.id in ids <==> q.id in Elems(ids);
      assert q.id in IdsOf(s) <==> q.id in Elems(IdsOf(s));
    }
  }

  /** A list already in the given order stays exactly as it is. */
  lemma OrderSettled(d: Draft, kind: ListKind)
    requires WellFormed(d) && NoDup(ListIds(d, kind))
    requires Droppable(StoryList(kind)) && StoryList(kind) in d.lists ==> d.lists[StoryList(kind)] != []
    ensures ApplyOrder(d, kind, ListIds(d, kind)) == d
  {
    var list := StoryList(kind);
    var s := ListOf(d, list);
    if d.story.Story? {
      if ListIds(d, kind) == [] && Droppable(list) {
        assert |s| == |ListIds(d, kind)|;
        assert d.lists - {list} == d.lists;
      } else {
        PickIds(s, IdsOf(s));
        KeepAll(IdsOf(s), Elems(IdsOf(s)));
        forall id | id in IdsOf(s) ensures Find(s, id) == Find(Pick(s, IdsOf(s)), id) {
          FindPick(s, IdsOf(s), id);
        }
        SameByFind(s, Pick(s, IdsOf(s)));
        assert d.lists[list := s] == d.lists;
      }
    }
  }

  /** Dropping a story that is empty changes no value. */
  lemma RemoveEmptyReads(d: Draft, q: Place)
    requires WellFormed(d)
    ensures WellFormed(RemoveEmptyStory(d)) && ReadAll(RemoveEmptyStory(d), q) == ReadAll(d, q)
    ensures Read(RemoveEmptyStory(d), q) == Read(d, q)
    ensures RemoveEmptyStory(RemoveEmptyStory(d)) == RemoveEmptyStory(d)
  {
    ReadIsFirst(d, q);
    ReadIsFirst(RemoveEmptyStory(d), q);
  }
}
