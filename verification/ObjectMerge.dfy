/**
 * Merging whole composition objects: nested maps of scalar and reference-list leaves.
 * `Rule` says how each field of an object merges; `Merge` is the recursive `mergeMap`.
 */
module ObjectMerge {
  import opened Common
  import opened StoryMerge

  datatype ListKind = Scene | Beat | Plotline | Ending | Start | Choice | Item | Event | Timeline

  datatype StoryKind = Listed(kind: ListKind) | Var | Knowing

  /** The kinds of object whose fields merge independently. */
  datatype ObjectKind = StoryObject(kind: StoryKind) | CastMember | ContentGroup | KnowledgeSource

  datatype Op = Add | Modify | Remove | Set | Unset

  datatype Rule =
    | ScalarRule
    | ReferenceRule(absenceIsAll: bool)
      /** One rule per key; `keepEmpty` keeps an object that lost all its fields. */
    | MapRule(named: map<string, Rule>, otherwise: Rule, keepEmpty: bool)

  function RuleAt(rule: Rule, key: string): (r: Rule)
    requires rule.MapRule?
    ensures r < rule
  {
    if key in rule.named then rule.named[key] else rule.otherwise
  }

  function FieldRules(keys: set<string>, rule: Rule): map<string, Rule> {
    map k | k in keys :: rule
  }

  /** The merge rule of every field of an object. */
  function RuleOf(kind: ObjectKind): Rule {
    var refs := ReferenceRule(false);
    var byKey := MapRule(map[], refs, false);
    var named := match kind
      case ContentGroup => FieldRules({"entries", "groups"}, refs)
      case StoryObject(Listed(Scene)) =>
        FieldRules({"beats", "choices", "lore", "items", "events"}, refs)
        ["cast" := ReferenceRule(true)]["goals" := MapRule(map[], ScalarRule, false)]
      case StoryObject(Listed(Plotline)) => FieldRules({"scenes", "beats"}, refs)
      case StoryObject(Listed(Item)) => FieldRules({"lore"}, refs)
      case StoryObject(Listed(Event)) => FieldRules({"cast", "lore"}, refs)
      case StoryObject(Knowing) =>
        map["start" := MapRule(map[], refs, true), "enter" := MapRule(map[], byKey, false)]
      case _ => map[];
    MapRule(named, ScalarRule, false)
  }

  /** What an object with no fields left becomes. */
  function Emptied(rule: Rule): Option<Json>
    requires rule.MapRule?
  {
    if rule.keepEmpty then Some(Obj(map[])) else None
  }

  function OrEmptied(v: Option<Json>, rule: Rule): Option<Json>
    requires rule.MapRule?
  {
    if v.None? then Emptied(rule) else v
  }

  function Merge(rule: Rule, base: Option<Json>, current: Option<Json>, after: Option<Json>, path: string): Merged
    decreases rule
  {
    match rule
    case ScalarRule => Scalar(base, current, after, path)
    case ReferenceRule(absenceIsAll) => References(base, current, after, path, absenceIsAll)
    case MapRule(_, _, _) =>
      if current == after || after == base then Merged(OrEmptied(current, rule), {})
      else
        var keys := Record(base).Keys + Record(current).Keys + Record(after).Keys;
        var out := FieldValues(rule, base, current, after, path, keys);
        Merged(if out == map[] then Emptied(rule) else Some(Obj(out)),
               FieldConflicts(rule, base, current, after, path, keys))
  }

  /** The merged values of the given fields; a field without a value is left out. */
  function FieldValues(rule: Rule, base: Option<Json>, current: Option<Json>, after: Option<Json>,
                       path: string, keys: set<string>): map<string, Json>
    requires rule.MapRule?
    decreases rule, 1
  {
    map k | k in keys && MergeField(rule, base, current, after, path, k).value.Some?
      :: MergeField(rule, base, current, after, path, k).value.value
  }

  /** The conflicts of the given fields together. */
  function FieldConflicts(rule: Rule, base: Option<Json>, current: Option<Json>, after: Option<Json>,
                          path: string, keys: set<string>): set<string>
    requires rule.MapRule?
    decreases rule, 1
  {
    set k, p | k in keys && p in MergeField(rule, base, current, after, path, k).conflicts :: p
  }

  function MergeField(rule: Rule, base: Option<Json>, current: Option<Json>, after: Option<Json>,
                      path: string, key: string): Merged
    requires rule.MapRule?
    decreases rule, 0
  {
    Merge(RuleAt(rule, key), Own(Record(base), key), Own(Record(current), key), Own(Record(after), key),
          PathJoin(path, key))
  }

  lemma OneMoreField(rule: Rule, base: Option<Json>, current: Option<Json>, after: Option<Json>,
                     path: string, keys: set<string>, key: string)
    requires rule.MapRule? && key !in keys
    ensures var field := MergeField(rule, base, current, after, path, key);
            var values := FieldValues(rule, base, current, after, path, keys);
            && FieldValues(rule, base, current, after, path, keys + {key})
               == (if field.value.Some? then values[key := field.value.value] else values)
            && FieldConflicts(rule, base, current, after, path, keys + {key})
               == FieldConflicts(rule, base, current, after, path, keys) + field.conflicts
  {
  }

  /** `Merge` as the loop over field names that fills the merged object. */
  method MergeByLoop(rule: Rule, base: Option<Json>, current: Option<Json>, after: Option<Json>, path: string)
    returns (m: Merged)
    ensures m == Merge(rule, base, current, after, path)
    decreases rule
  {
    match rule {
      case ScalarRule => m := Scalar(base, current, after, path);
      case ReferenceRule(absenceIsAll) => m := ReferencesByLoop(base, current, after, path, absenceIsAll);
      case MapRule(_, _, _) =>
        if current == after || after == base { return Merged(OrEmptied(current, rule), {}); }
        var keys := Record(base).Keys + Record(current).Keys + Record(after).Keys;
        var out: map<string, Json>, conflicts: set<string> := map[], {};
        var todo := keys;
        while todo != {}
          invariant todo <= keys
          invariant out == FieldValues(rule, base, current, after, path, keys - todo)
          invariant conflicts == FieldConflicts(rule, base, current, after, path, keys - todo)
        {
          var key :| key in todo;
          var field := MergeByLoop(RuleAt(rule, key), Own(Record(base), key), Own(Record(current), key),
                                   Own(Record(after), key), PathJoin(path, key));
          if field.value.Some? { out := out[key := field.value.value]; }
          conflicts := conflicts + field.conflicts;
          OneMoreField(rule, base, current, after, path, keys - todo, key);
          assert keys - (todo - {key}) == (keys - todo) + {key};
          todo := todo - {key};
        }
        assert keys - todo == keys;
        m := Merged(if out == map[] then Emptied(rule) else Some(Obj(out)), conflicts);
    }
  }

  /** `References`, with the shared slots of the result refilled in place. */
  method ReferencesByLoop(base: Option<Json>, current: Option<Json>, after: Option<Json>, path: string,
                          absenceIsAll: bool) returns (m: Merged)
    ensures m == References(base, current, after, path, absenceIsAll)
  {
    if current == after || after == base { return Merged(current, {}); }
    if MergesWhole(base, current, after, absenceIsAll) { return Scalar(base, current, after, path); }
    var b, c, a := Ids(base), Ids(current), Ids(after);
    var order := CommonOrderOf(b, c, a);
    if order.Conflict() { return Merged(current, {path + "@order"}); }
    var survivors := Survivors(b, c, a);
    var result := new string[|survivors|](i requires 0 <= i < |survivors| => survivors[i]);
    assert result[..] == survivors;
    if order.TakesAfter() {
      SlotsCovered(b, c, a);
      RefillInPlace(result, order.common, order.a);
    }
    m := Merged(Some(FromIds(result[..])), {});
  }

  /** One slot refilled, or one other member passed over. */
  lemma RefillOne(tail: seq<string>, common: set<string>, order: seq<string>, done: seq<string>)
    requires tail != [] && |Keep(tail, common)| <= |order|
    ensures tail[0] in common ==>
              && order != [] && |Keep(tail[1..], common)| <= |order[1..]|
              && done + Refill(tail, common, order) == done + [order[0]] + Refill(tail[1..], common, order[1..])
    ensures tail[0] !in common ==>
              && |Keep(tail[1..], common)| <= |order|
              && done + Refill(tail, common, order) == done + [tail[0]] + Refill(tail[1..], common, order)
  {
    if tail[0] in common {
      var rest := Refill(tail[1..], common, order[1..]);
      assert done + ([order[0]] + rest) == done + [order[0]] + rest;
    } else {
      var rest := Refill(tail[1..], common, order);
      assert done + ([tail[0]] + rest) == done + [tail[0]] + rest;
    }
  }

  method RefillInPlace(result: array<string>, common: set<string>, order: seq<string>)
    requires |Keep(result[..], common)| <= |order|
    modifies result
    ensures result[..] == Refill(old(result[..]), common, order)
  {
    var i := 0;
    ghost var goal := Refill(result[..], common, order);
    for j := 0 to result.Length
      invariant i <= |order| && |Keep(result[j..], common)| <= |order[i..]|
      invariant goal == result[..j] + Refill(result[j..], common, order[i..])
    {
      ghost var tail, done := result[j..], result[..j];
      RefillOne(tail, common, order[i..], done);
      assert tail[0] == result[j] && tail[1..] == result[j + 1..];
      if result[j] in common {
        assert order[i..][0] == order[i] && order[i..][1..] == order[i + 1..];
        result[j] := order[i];
        i := i + 1;
        assert result[j + 1..] == tail[1..] && result[..j + 1] == done + [order[i - 1]];
      } else {
        assert result[..j + 1] == done + [tail[0]];
      }
    }
    assert result[..result.Length] == result[..] && result[result.Length..] == [];
  }

  // ---------------------------------------------------------------------------
  // Whole objects
  // ---------------------------------------------------------------------------

  /** JavaScript truth: an absent, null, false, zero or empty value is not an object to merge into. */
  predicate Truthy(v: Option<Json>) {
    v.Some? && v.value !in {Null, Bool(false), Num(0.0), Str("")}
  }

  function AsRecord(v: Option<Json>): Option<Json> {
    if v.Some? && v.value.Obj? then v else None
  }

  /** Additions and removals, and objects missing on some side, merge as one value. */
  predicate MergesAsUnit(op: Op, base: Option<Json>, current: Option<Json>, after: Option<Json>) {
    op != Modify || !Truthy(base) || !Truthy(current) || !Truthy(after)
  }

  function MergeObject(kind: ObjectKind, op: Op, base: Option<Json>, current: Option<Json>,
      after: Option<Json>): Merged {
    if MergesAsUnit(op, base, current, after) then Scalar(base, current, after, "$object")
    else Merge(RuleOf(kind), AsRecord(base), AsRecord(current), AsRecord(after), "")
  }
}
