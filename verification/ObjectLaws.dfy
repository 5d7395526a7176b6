/** What merging an object field by field guarantees, leaf by leaf. */
module ObjectLaws {
  import opened Common
  import opened StoryMerge
  import opened ObjectMerge

  // ---------------------------------------------------------------------------
  // Leaves of a rule
  // ---------------------------------------------------------------------------

  ghost predicate IsLeaf(rule: Rule, keys: seq<string>)
    decreases rule
  {
    if rule.MapRule? then keys != [] && IsLeaf(RuleAt(rule, keys[0]), keys[1..]) else keys == []
  }

  ghost function LeafRule(rule: Rule, keys: seq<string>): (r: Rule)
    requires IsLeaf(rule, keys)
    ensures !r.MapRule?
    decreases rule
  {
    if rule.MapRule? then LeafRule(RuleAt(rule, keys[0]), keys[1..]) else rule
  }

  /** The part of a value below a path of field names. */
  ghost function At(v: Option<Json>, keys: seq<string>): Option<Json>
    decreases |keys|
  {
    if keys == [] then v else At(Own(Record(v), keys[0]), keys[1..])
  }

  ghost function PathOf(path: string, keys: seq<string>): string
    decreases |keys|
  {
    if keys == [] then path else PathOf(PathJoin(path, keys[0]), keys[1..])
  }

  ghost function Dotted(keys: seq<string>): string {
    if keys == [] then "" else "." + keys[0] + Dotted(keys[1..])
  }

  /** Paths are field names with dots between them. */
  lemma {:induction false} PathsAreDotted(path: string, keys: seq<string>)
    ensures path != "" ==> PathOf(path, keys) == path + Dotted(keys)
    ensures path == "" && keys != [] && keys[0] != "" ==> PathOf(path, keys) == keys[0] + Dotted(keys[1..])
    decreases |keys|
  {
    if keys == [] {
      assert path + "" == path;
    } else {
      PathsAreDotted(PathJoin(path, keys[0]), keys[1..]);
      if path != "" { Regroup(path, "." + keys[0], Dotted(keys[1..])); }
    }
  }

  lemma {:induction false} AtNone(keys: seq<string>)
    ensures At(None, keys) == None
  {
    if keys != [] { AtNone(keys[1..]); }
  }

  /** Both sides left the base, and differently. */
  ghost predicate Diverged(base: Option<Json>, current: Option<Json>, after: Option<Json>) {
    current != base && after != base && current != after
  }

  /** When a leaf cannot be merged: diverged values, or shared members moved in two different ways. */
  ghost predicate LeafConflicts(rule: Rule, base: Option<Json>, current: Option<Json>, after: Option<Json>)
    requires !rule.MapRule?
  {
    && Diverged(base, current, after)
    && (rule.ReferenceRule? && !MergesWhole(base, current, after, rule.absenceIsAll)
        ==> CommonOrderOf(Ids(base), Ids(current), Ids(after)).Conflict())
  }

  /** Conflicts over order are told apart from conflicts over the value. */
  ghost function ConflictPath(rule: Rule, base: Option<Json>, current: Option<Json>, after: Option<Json>,
                              path: string): string
  {
    if rule.ReferenceRule? && !MergesWhole(base, current, after, rule.absenceIsAll) then path + "@order" else path
  }

  ghost predicate ConflictAt(rule: Rule, base: Option<Json>, current: Option<Json>, after: Option<Json>,
                             path: string, keys: seq<string>, p: string)
  {
    && IsLeaf(rule, keys)
    && LeafConflicts(LeafRule(rule, keys), At(base, keys), At(current, keys), At(after, keys))
    && p == ConflictPath(LeafRule(rule, keys), At(base, keys), At(current, keys), At(after, keys), PathOf(path, keys))
  }

  // ---------------------------------------------------------------------------
  // Values and conflicts, leaf by leaf
  // ---------------------------------------------------------------------------

  lemma LeafMergeConflicts(rule: Rule, base: Option<Json>, current: Option<Json>, after: Option<Json>, path: string)
    requires !rule.MapRule?
    ensures Merge(rule, base, current, after, path).conflicts
         == if LeafConflicts(rule, base, current, after) then {ConflictPath(rule, base, current, after, path)} else {}
  {
  }

  /** Every leaf of the merged object is the three-way merge of that leaf alone. */
  lemma {:induction false} LeafValue(rule: Rule, base: Option<Json>, current: Option<Json>, after: Option<Json>,
                                     path: string, keys: seq<string>)
    requires IsLeaf(rule, keys)
    ensures At(Merge(rule, base, current, after, path).value, keys)
         == Merge(LeafRule(rule, keys), At(base, keys), At(current, keys), At(after, keys), PathOf(path, keys)).value
    decreases rule
  {
    if rule.MapRule? {
      var k := keys[0];
      var v := Merge(rule, base, current, after, path).value;
      LeafValue(RuleAt(rule, k), Own(Record(base), k), Own(Record(current), k), Own(Record(after), k),
                PathJoin(path, k), keys[1..]);
      if current == after || after == base {
        AtNone(keys[1..]);
        assert At(v, keys) == At(current, keys);
      } else {
        FieldOf(rule, base, current, after, path, k);
      }
    }
  }

  /** One field of a merged object, also when the field occurs on no side. */
  lemma FieldOf(rule: Rule, base: Option<Json>, current: Option<Json>, after: Option<Json>, path: string, k: string)
    requires rule.MapRule? && current != after && after != base
    ensures Own(Record(Merge(rule, base, current, after, path).value), k)
         == UnlessEmpty(rule, base, current, after, k, MergeField(rule, base, current, after, path, k).value)
  {
  }

  /** A field that occurs nowhere is not created, whatever its rule. */
  ghost function UnlessEmpty(rule: Rule, base: Option<Json>, current: Option<Json>, after: Option<Json>, k: string,
                             v: Option<Json>): Option<Json>
  {
    if k in Record(base) || k in Record(current) || k in Record(after) then v else None
  }

  /** The reported conflicts are exactly the leaves that cannot be merged. */
  lemma ConflictsExactly(rule: Rule, base: Option<Json>, current: Option<Json>, after: Option<Json>, path: string)
    ensures forall p :: p in Merge(rule, base, current, after, path).conflicts
                   <==> exists keys :: ConflictAt(rule, base, current, after, path, keys, p)
  {
    forall p
      ensures p in Merge(rule, base, current, after, path).conflicts
         <==> exists keys :: ConflictAt(rule, base, current, after, path, keys, p)
    {
      if p in Merge(rule, base, current, after, path).conflicts {
        var keys := ConflictingLeaf(rule, base, current, after, path, p);
      }
      forall keys | ConflictAt(rule, base, current, after, path, keys, p)
        ensures p in Merge(rule, base, current, after, path).conflicts
      {
        LeafIsReported(rule, base, current, after, path, keys, p);
      }
    }
  }

  lemma {:induction false} ConflictingLeaf(rule: Rule, base: Option<Json>, current: Option<Json>,
                                           after: Option<Json>, path: string, p: string)
    returns (keys: seq<string>)
    requires p in Merge(rule, base, current, after, path).conflicts
    ensures ConflictAt(rule, base, current, after, path, keys, p)
    decreases rule
  {
    if rule.MapRule? {
      var all := Record(base).Keys + Record(current).Keys + Record(after).Keys;
      var k :| k in all && p in MergeField(rule, base, current, after, path, k).conflicts;
      var rest := ConflictingLeaf(RuleAt(rule, k), Own(Record(base), k), Own(Record(current), k),
                                  Own(Record(after), k), PathJoin(path, k), p);
      keys := [k] + rest;
      assert keys[1..] == rest;
    } else {
      keys := [];
      LeafMergeConflicts(rule, base, current, after, path);
    }
  }

  lemma {:induction false} LeafIsReported(rule: Rule, base: Option<Json>, current: Option<Json>,
                                          after: Option<Json>, path: string, keys: seq<string>, p: string)
    requires ConflictAt(rule, base, current, after, path, keys, p)
    ensures p in Merge(rule, base, current, after, path).conflicts
    decreases rule
  {
    if rule.MapRule? {
      var k := keys[0];
      LeafIsReported(RuleAt(rule, k), Own(Record(base), k), Own(Record(current), k), Own(Record(after), k),
                     PathJoin(path, k), keys[1..], p);
      assert p in MergeField(rule, base, current, after, path, k).conflicts;
      NowhereNoConflict(RuleAt(rule, k), PathJoin(path, k));
    } else {
      LeafMergeConflicts(rule, base, current, after, path);
    }
  }

  lemma NowhereNoConflict(rule: Rule, path: string)
    ensures Merge(rule, None, None, None, path).conflicts == {}
  {
  }

  /** Edits of different leaves never conflict. */
  lemma DisjointEditsMerge(rule: Rule, base: Option<Json>, current: Option<Json>, after: Option<Json>, path: string)
    requires forall keys | IsLeaf(rule, keys) ::
               At(current, keys) == At(base, keys) || At(after, keys) == At(base, keys)
    ensures Merge(rule, base, current, after, path).conflicts == {}
    ensures forall keys | IsLeaf(rule, keys) && LeafRule(rule, keys).ScalarRule? ::
              At(Merge(rule, base, current, after, path).value, keys)
              == if At(after, keys) == At(base, keys) then At(current, keys) else At(after, keys)
  {
    ConflictsExactly(rule, base, current, after, path);
    forall keys | IsLeaf(rule, keys) && LeafRule(rule, keys).ScalarRule?
      ensures At(Merge(rule, base, current, after, path).value, keys)
           == if At(after, keys) == At(base, keys) then At(current, keys) else At(after, keys)
    {
      LeafValue(rule, base, current, after, path, keys);
    }
  }

  // ---------------------------------------------------------------------------
  // Which fields merge how
  // ---------------------------------------------------------------------------

  /** The paths of the fields that are lists of references. */
  ghost predicate ReferenceField(kind: ObjectKind, keys: seq<string>) {
    match kind
    case CastMember => false
    case KnowledgeSource => false
    case ContentGroup => keys == ["entries"] || keys == ["groups"]
    case StoryObject(Var) => false
    case StoryObject(Knowing) => (|keys| == 2 && keys[0] == "start") || (|keys| == 3 && keys[0] == "enter")
    case StoryObject(Listed(list)) =>
      match list
      case Scene => |keys| == 1 && keys[0] in {"cast", "beats", "choices", "lore", "items", "events"}
      case Plotline => keys == ["scenes"] || keys == ["beats"]
      case Item => keys == ["lore"]
      case Event => keys == ["cast"] || keys == ["lore"]
      case _ => false
  }

  /** The fields that are maps, whose own fields merge one by one. */
  ghost predicate MapField(kind: ObjectKind, field: string) {
    (kind == StoryObject(Listed(Scene)) && field == "goals")
    || (kind == StoryObject(Knowing) && (field == "start" || field == "enter"))
  }

  /** Every other field is one value, and so is each of a scene's goals. */
  ghost predicate ValueField(kind: ObjectKind, keys: seq<string>) {
    (|keys| == 1 && !ReferenceField(kind, keys) && !MapField(kind, keys[0]))
    || (kind == StoryObject(Listed(Scene)) && |keys| == 2 && keys[0] == "goals")
  }

  lemma LeafOfField(rule: Rule, keys: seq<string>)
    requires rule.MapRule?
    ensures IsLeaf(rule, keys) <==> keys != [] && IsLeaf(RuleAt(rule, keys[0]), keys[1..])
    ensures IsLeaf(rule, keys) ==> LeafRule(rule, keys) == LeafRule(RuleAt(rule, keys[0]), keys[1..])
  {
  }

  lemma LeafAlone(rule: Rule, keys: seq<string>)
    requires !rule.MapRule?
    ensures IsLeaf(rule, keys) <==> keys == []
    ensures IsLeaf(rule, keys) ==> LeafRule(rule, keys) == rule
  {
  }

  /** Which fields of an object merge as values and which as lists of references, and where absence means all. */
  lemma FieldsOfObject(kind: ObjectKind, keys: seq<string>)
    ensures IsLeaf(RuleOf(kind), keys) <==> ValueField(kind, keys) || ReferenceField(kind, keys)
    ensures ValueField(kind, keys) ==> LeafRule(RuleOf(kind), keys) == ScalarRule
    ensures ReferenceField(kind, keys) ==>
              LeafRule(RuleOf(kind), keys)
              == ReferenceRule(kind == StoryObject(Listed(Scene)) && keys == ["cast"])
  {
    var rule := RuleOf(kind);
    LeafOfField(rule, keys);
    if keys != [] {
      var field := RuleAt(rule, keys[0]);
      assert keys == [keys[0]] + keys[1..];
      if field.MapRule? {
        LeafOfField(field, keys[1..]);
        if |keys| > 1 {
          var inner := RuleAt(field, keys[1]);
          assert keys[1..][1..] == keys[2..];
          if inner.MapRule? {
            LeafOfField(inner, keys[2..]);
            if |keys| > 2 { LeafAlone(RuleAt(inner, keys[2]), keys[2..][1..]); }
          } else {
            LeafAlone(inner, keys[2..]);
          }
        }
      } else {
        LeafAlone(field, keys[1..]);
      }
    }
  }

  lemma MapFieldRule(kind: ObjectKind, field: string)
    requires MapField(kind, field)
    ensures RuleAt(RuleOf(kind), field).MapRule?
    ensures RuleAt(RuleOf(kind), field).keepEmpty <==> kind == StoryObject(Knowing) && field == "start"
  {
  }

  /** No field of the map has a merged value. */
  ghost predicate NothingLeft(rule: Rule, base: Option<Json>, current: Option<Json>, after: Option<Json>, path: string)
    requires rule.MapRule?
  {
    forall k | k in Record(base) || k in Record(current) || k in Record(after) ::
      MergeField(rule, base, current, after, path, k).value.None?
  }

  lemma EmptiedMap(rule: Rule, base: Option<Json>, current: Option<Json>, after: Option<Json>, path: string)
    requires rule.MapRule? && current != after && after != base
    ensures var v := Merge(rule, base, current, after, path).value;
            if NothingLeft(rule, base, current, after, path) then v == if rule.keepEmpty then Some(Obj(map[])) else None
            else v.Some? && v.value.Obj? && v.value.fields != map[]
  {
    var keys := Record(base).Keys + Record(current).Keys + Record(after).Keys;
    var out := FieldValues(rule, base, current, after, path, keys);
    if k :| k in keys && MergeField(rule, base, current, after, path, k).value.Some? {
      assert k in out;
    } else {
      assert out == map[];
    }
  }

  /** A map whose fields are all gone is gone itself, but for what a participant knows at the start. */
  lemma EmptyMapsCollapse(kind: ObjectKind, field: string, base: Option<Json>, current: Option<Json>,
                          after: Option<Json>, path: string)
    requires MapField(kind, field) && current != after && after != base
    ensures RuleAt(RuleOf(kind), field).MapRule?
    ensures var rule := RuleAt(RuleOf(kind), field);
            var v := Merge(rule, base, current, after, path).value;
            if NothingLeft(rule, base, current, after, path)
            then v == if kind == StoryObject(Knowing) && field == "start" then Some(Obj(map[])) else None
            else v.Some? && v.value.Obj? && v.value.fields != map[]
  {
    MapFieldRule(kind, field);
    EmptiedMap(RuleAt(RuleOf(kind), field), base, current, after, path);
  }

  /** What the code takes for no object at all. */
  ghost predicate NoObject(v: Option<Json>) {
    v in {None, Some(Null), Some(Bool(false)), Some(Num(0.0)), Some(Str(""))}
  }

  /**
   * Anything but a modification, and an object that is missing on a side, is not merged field by
   * field: one side's value stands, or the whole object is a conflict. All else is merged by its
   * fields, what is no object having none.
   */
  lemma MissingObject(kind: ObjectKind, op: Op, base: Option<Json>, current: Option<Json>, after: Option<Json>)
    ensures op != Modify || NoObject(base) || NoObject(current) || NoObject(after) ==>
              MergeObject(kind, op, base, current, after)
              == if current == after || after == base then Merged(current, {})
                 else if current == base then Merged(after, {})
                 else Merged(current, {"$object"})
    ensures op == Modify && !NoObject(base) && !NoObject(current) && !NoObject(after) ==>
              MergeObject(kind, op, base, current, after)
              == Merge(RuleOf(kind), Fielded(base), Fielded(current), Fielded(after), "")
  {
  }

  ghost function Fielded(v: Option<Json>): Option<Json> {
    match v case Some(Obj(_)) => v case _ => None
  }

  // ---------------------------------------------------------------------------
  // Merging the result again
  // ---------------------------------------------------------------------------

  /** Merging a leaf again finds nothing to do: only the order of a reference list can fail to settle. */
  ghost predicate LeafSettles(rule: Rule, base: Option<Json>, current: Option<Json>, after: Option<Json>)
    requires !rule.MapRule?
  {
    rule.ReferenceRule? && current != after && after != base && !MergesWhole(base, current, after, rule.absenceIsAll)
    ==> StaysMerged(Ids(base), Ids(current), Ids(after))
  }

  /** Every leaf settles. */
  ghost predicate Settles(rule: Rule, base: Option<Json>, current: Option<Json>, after: Option<Json>) {
    forall keys: seq<string> | IsLeaf(rule, keys) ::
      LeafSettles(LeafRule(rule, keys), At(base, keys), At(current, keys), At(after, keys))
  }

  /** No reference list in the proposed value names a member twice. */
  ghost predicate DistinctReferences(rule: Rule, after: Option<Json>) {
    forall keys: seq<string> | IsLeaf(rule, keys) && LeafRule(rule, keys).ReferenceRule? :: NoDup(Ids(At(after, keys)))
  }

  lemma DistinctReferencesSettle(rule: Rule, base: Option<Json>, current: Option<Json>, after: Option<Json>)
    requires DistinctReferences(rule, after)
    ensures Settles(rule, base, current, after)
  {
    forall keys: seq<string> | IsLeaf(rule, keys)
      ensures LeafSettles(LeafRule(rule, keys), At(base, keys), At(current, keys), At(after, keys))
    {
      if LeafRule(rule, keys).ReferenceRule? {
        DistinctStaysMerged(Ids(At(base, keys)), Ids(At(current, keys)), Ids(At(after, keys)));
      }
    }
  }

  /** A merged leaf, merged again, is unchanged exactly when it settles. */
  lemma LeafFixpoint(rule: Rule, base: Option<Json>, current: Option<Json>, after: Option<Json>, path: string)
    requires !rule.MapRule? && Merge(rule, base, current, after, path).conflicts == {}
    ensures var v := Merge(rule, base, current, after, path).value;
            Merge(rule, base, v, after, path) == Merged(v, {}) <==> LeafSettles(rule, base, current, after)
  {
    if rule.ReferenceRule? && current != after && after != base
        && !MergesWhole(base, current, after, rule.absenceIsAll) {
      var b, c, a := Ids(base), Ids(current), Ids(after);
      ListFixpointExactly(b, c, a);
      var r := MergeIds(b, c, a);
      IdsFromIds(r);
      if CommonOrderOf(b, r, a).Conflict() || MergeIds(b, r, a) != r { IdsFromIds(MergeIds(b, r, a)); }
    }
  }

  /** The fields of a value that settles settle. */
  lemma FieldSettles(rule: Rule, base: Option<Json>, current: Option<Json>, after: Option<Json>, k: string)
    requires rule.MapRule? && Settles(rule, base, current, after)
    ensures Settles(RuleAt(rule, k), Own(Record(base), k), Own(Record(current), k), Own(Record(after), k))
  {
    var field := RuleAt(rule, k);
    forall keys: seq<string> | IsLeaf(field, keys)
      ensures LeafSettles(LeafRule(field, keys), At(Own(Record(base), k), keys), At(Own(Record(current), k), keys),
                          At(Own(Record(after), k), keys))
    {
      var all := [k] + keys;
      assert all[0] == k && all[1..] == keys && IsLeaf(rule, all);
      assert LeafSettles(LeafRule(rule, all), At(base, all), At(current, all), At(after, all));
    }
  }

  /** Inside a map that survives without fields there is no other such map. */
  ghost predicate WellNested(rule: Rule)
    decreases rule
  {
    rule.MapRule? ==> forall k: string ::
      WellNested(RuleAt(rule, k)) && !(rule.keepEmpty && RuleAt(rule, k).MapRule? && RuleAt(rule, k).keepEmpty)
  }

  lemma RulesWellNested(kind: ObjectKind)
    ensures WellNested(RuleOf(kind))
  {
    var refs := ReferenceRule(false);
    assert WellNested(refs) && WellNested(ScalarRule) && WellNested(ReferenceRule(true));
    assert WellNested(MapRule(map[], refs, false)) && WellNested(MapRule(map[], refs, true));
    assert WellNested(MapRule(map[], ScalarRule, false));
    assert WellNested(MapRule(map[], MapRule(map[], refs, false), false));
    forall k: string ensures WellNested(RuleAt(RuleOf(kind), k)) {
    }
  }

  /** One field of the second merge: it comes out as the first merge left it. */
  ghost predicate FieldSettled(rule: Rule, base: Option<Json>, v: Option<Json>, after: Option<Json>, path: string,
                               k: string)
    requires rule.MapRule?
  {
    if k in Record(base) || k in Record(v) || k in Record(after)
    then MergeField(rule, base, v, after, path, k) == Merged(Own(Record(v), k), {})
    else true
  }

  /** Merging the same change into a merged value changes nothing and conflicts with nothing. */
  lemma {:induction false} MergeFixpoint(rule: Rule, base: Option<Json>, current: Option<Json>, after: Option<Json>,
                                         path: string)
    requires Merge(rule, base, current, after, path).conflicts == {}
    requires Settles(rule, base, current, after) && WellNested(rule)
    ensures var v := Merge(rule, base, current, after, path).value;
            Merge(rule, base, v, after, path) == Merged(v, {})
    decreases rule
  {
    var v := Merge(rule, base, current, after, path).value;
    match rule {
      case MapRule(_, _, _) =>
        if v != after && after != base {
          forall k: string ensures FieldSettled(rule, base, v, after, path, k) {
            FieldFixpoint(rule, base, current, after, path, k);
          }
          AllFieldsSettled(rule, base, v, after, path);
        }
      case _ =>
        assert IsLeaf(rule, []) && LeafRule(rule, []) == rule && At(after, []) == after;
        LeafFixpoint(rule, base, current, after, path);
    }
  }

  lemma {:induction false} FieldFixpoint(rule: Rule, base: Option<Json>, current: Option<Json>, after: Option<Json>,
                                         path: string, k: string)
    requires rule.MapRule? && Merge(rule, base, current, after, path).conflicts == {}
    requires Settles(rule, base, current, after) && WellNested(rule) && after != base
    requires Merge(rule, base, current, after, path).value != after
    ensures FieldSettled(rule, base, Merge(rule, base, current, after, path).value, after, path, k)
    decreases rule, 0
  {
    FieldSettles(rule, base, current, after, k);
    assert WellNested(RuleAt(rule, k));
    if current != after {
      FieldOf(rule, base, current, after, path, k);
      if k in Record(base).Keys + Record(current).Keys + Record(after).Keys {
        NoFieldConflicts(rule, base, current, after, path, k);
        MergeFixpoint(RuleAt(rule, k), Own(Record(base), k), Own(Record(current), k), Own(Record(after), k),
                      PathJoin(path, k));
      }
    }
  }

  lemma NoFieldConflicts(rule: Rule, base: Option<Json>, current: Option<Json>, after: Option<Json>, path: string,
                         k: string)
    requires rule.MapRule? && Merge(rule, base, current, after, path).conflicts == {}
    requires current != after && after != base
    requires k in Record(base).Keys + Record(current).Keys + Record(after).Keys
    ensures MergeField(rule, base, current, after, path, k).conflicts == {}
  {
    assert MergeField(rule, base, current, after, path, k).conflicts
        <= Merge(rule, base, current, after, path).conflicts;
  }

  lemma AllFieldsSettled(rule: Rule, base: Option<Json>, v: Option<Json>, after: Option<Json>, path: string)
    requires rule.MapRule? && v != after && after != base
    requires forall k: string :: FieldSettled(rule, base, v, after, path, k)
    requires v == Emptied(rule) || (v.Some? && v.value.Obj? && v.value.fields != map[])
    ensures Merge(rule, base, v, after, path) == Merged(v, {})
  {
    var keys := Record(base).Keys + Record(v).Keys + Record(after).Keys;
    forall k | k in keys ensures MergeField(rule, base, v, after, path, k) == Merged(Own(Record(v), k), {}) {
      assert FieldSettled(rule, base, v, after, path, k);
    }
    assert FieldValues(rule, base, v, after, path, keys) == Record(v);
  }

  /** A value that is merged again unchanged has only leaves that settle. */
  lemma FixedSettles(rule: Rule, base: Option<Json>, current: Option<Json>, after: Option<Json>, path: string)
    requires Merge(rule, base, current, after, path).conflicts == {}
    requires var v := Merge(rule, base, current, after, path).value; Merge(rule, base, v, after, path) == Merged(v, {})
    ensures Settles(rule, base, current, after)
  {
    var v := Merge(rule, base, current, after, path).value;
    forall keys: seq<string> | IsLeaf(rule, keys)
      ensures LeafSettles(LeafRule(rule, keys), At(base, keys), At(current, keys), At(after, keys))
    {
      var leaf, at := LeafRule(rule, keys), PathOf(path, keys);
      var b, c, a := At(base, keys), At(current, keys), At(after, keys);
      LeafValue(rule, base, current, after, path, keys);
      LeafValue(rule, base, v, after, path, keys);
      LeafIsClean(rule, base, current, after, path, keys);
      LeafIsClean(rule, base, v, after, path, keys);
      LeafFixpoint(leaf, b, c, a, at);
    }
  }

  lemma LeafIsClean(rule: Rule, base: Option<Json>, current: Option<Json>, after: Option<Json>, path: string,
                    keys: seq<string>)
    requires IsLeaf(rule, keys) && Merge(rule, base, current, after, path).conflicts == {}
    ensures Merge(LeafRule(rule, keys), At(base, keys), At(current, keys), At(after, keys),
            PathOf(path, keys)).conflicts
         == {}
  {
    var leaf, at := LeafRule(rule, keys), PathOf(path, keys);
    LeafMergeConflicts(leaf, At(base, keys), At(current, keys), At(after, keys), at);
    if LeafConflicts(leaf, At(base, keys), At(current, keys), At(after, keys)) {
      LeafIsReported(rule, base, current, after, path, keys,
                     ConflictPath(leaf, At(base, keys), At(current, keys), At(after, keys), at));
    }
  }

  /** Merging the same change into a merged value changes nothing exactly when every leaf settles. */
  lemma MergeFixpointExactly(rule: Rule, base: Option<Json>, current: Option<Json>, after: Option<Json>, path: string)
    requires Merge(rule, base, current, after, path).conflicts == {} && WellNested(rule)
    ensures var v := Merge(rule, base, current, after, path).value;
            Merge(rule, base, v, after, path) == Merged(v, {}) <==> Settles(rule, base, current, after)
  {
    var v := Merge(rule, base, current, after, path).value;
    if Settles(rule, base, current, after) {
      MergeFixpoint(rule, base, current, after, path);
    } else if Merge(rule, base, v, after, path) == Merged(v, {}) {
      FixedSettles(rule, base, current, after, path);
    }
  }

  // ---------------------------------------------------------------------------
  // Whole objects
  // ---------------------------------------------------------------------------

  /** The field no object of this kind is without: its identity or type, or who knows what at the start. */
  function MandatoryField(kind: ObjectKind): string {
    match kind
    case CastMember => "key"
    case StoryObject(Var) => "type"
    case StoryObject(Knowing) => "start"
    case _ => "id"
  }

  /** An object the schema accepts has the field its kind demands; nothing else stands for an object. */
  ghost predicate Complete(kind: ObjectKind, v: Option<Json>) {
    v.Some? ==> v.value.Obj? && MandatoryField(kind) in v.value.fields
  }

  ghost predicate ObjectSettles(kind: ObjectKind, op: Op, base: Option<Json>, current: Option<Json>,
      after: Option<Json>) {
    MergesAsUnit(op, base, current, after)
    || Settles(RuleOf(kind), AsRecord(base), AsRecord(current), AsRecord(after))
  }

  /** Merging a change of an object into the object it merged to changes nothing exactly when its leaves settle. */
  lemma ObjectFixpoint(kind: ObjectKind, op: Op, base: Option<Json>, current: Option<Json>, after: Option<Json>)
    requires MergeObject(kind, op, base, current, after).conflicts == {}
    requires Complete(kind, current) && Complete(kind, after) && after != base
    ensures var v := MergeObject(kind, op, base, current, after).value;
            && (after.Some? ==> v.Some?)
            && (MergeObject(kind, op, base, v, after) == Merged(v, {})
                <==> ObjectSettles(kind, op, base, current, after))
  {
    if !MergesAsUnit(op, base, current, after) {
      RulesWellNested(kind);
      MergeFixpointExactly(RuleOf(kind), AsRecord(base), AsRecord(current), AsRecord(after), "");
      MergedIsRecord(RuleOf(kind), AsRecord(base), AsRecord(current), AsRecord(after), "");
      MergedStays(kind, op, base, current, after);
    }
  }

  /** An object both sides have is never lost field by field. */
  lemma MergedStays(kind: ObjectKind, op: Op, base: Option<Json>, current: Option<Json>, after: Option<Json>)
    requires !MergesAsUnit(op, base, current, after) && Complete(kind, current) && Complete(kind, after)
    ensures MergeObject(kind, op, base, current, after).value.Some?
  {
    if kind == StoryObject(Knowing) {
      KnowingKeepsStart(op, base, current, after);
    } else {
      RequiredFieldKeepsObject(kind, op, base, current, after, MandatoryField(kind));
    }
  }

  lemma MergedIsRecord(rule: Rule, base: Option<Json>, current: Option<Json>, after: Option<Json>, path: string)
    requires rule.MapRule? && AsRecord(current) == current
    ensures var v := Merge(rule, base, current, after, path).value;
            v.Some? ==> v.value.Obj?
  {
  }

  /** A scalar field both sides have, such as an identity or a type, keeps the object alive. */
  lemma RequiredFieldKeepsObject(kind: ObjectKind, op: Op, base: Option<Json>, current: Option<Json>,
                                 after: Option<Json>, field: string)
    requires !MergesAsUnit(op, base, current, after)
    requires RuleAt(RuleOf(kind), field).ScalarRule?
    requires field in Record(current) && field in Record(after)
    ensures var v := MergeObject(kind, op, base, current, after).value;
            v.Some? && v.value.Obj? && field in v.value.fields
  {
    var b, c, a := AsRecord(base), AsRecord(current), AsRecord(after);
    assert Record(b) == Record(base) && Record(c) == Record(current) && Record(a) == Record(after);
    if c != a && a != b {
      FieldOf(RuleOf(kind), b, c, a, "", field);
    }
  }

  /** The field that lists who knows what at the start survives even when it lists nobody. */
  lemma KnowingKeepsStart(op: Op, base: Option<Json>, current: Option<Json>, after: Option<Json>)
    requires !MergesAsUnit(op, base, current, after)
    requires "start" in Record(current) && "start" in Record(after)
    ensures var v := MergeObject(StoryObject(Knowing), op, base, current, after).value;
            v.Some? && v.value.Obj? && "start" in v.value.fields
  {
    var b, c, a := AsRecord(base), AsRecord(current), AsRecord(after);
    var rule := RuleOf(StoryObject(Knowing));
    assert Record(b) == Record(base) && Record(c) == Record(current) && Record(a) == Record(after);
    if c != a && a != b {
      FieldOf(rule, b, c, a, "", "start");
      assert MergeField(rule, b, c, a, "", "start").value.Some?;
    }
  }
}
