/** Comparison keys are strings; equal keys mean the same value is being changed. */
module ContributionKeys {
  import opened Common
  import opened ObjectMerge
  import opened Contribution

  /** The syntax of identities that keys rely on: slot names hold no slash. */
  predicate KeyedByName(a: Address) {
    match a
    case SlotAddress(slot) => '/' !in slot
    case VariantAddress(slot, _) => '/' !in slot
    case _ => true
  }

  /** Two strings that agree are split by their first separator in the same place. */
  lemma {:induction false} SplitOnce(a: string, x: string, b: string, y: string, sep: char)
    requires a + [sep] + x == b + [sep] + y && sep !in a && sep !in b
    ensures a == b && x == y
  {
    var s := a + [sep] + x;
    assert s[|a|] == sep && s[|b|] == sep;
    assert a == s[..|a|] && x == s[|a| + 1..];
    assert b == s[..|b|] && y == s[|b| + 1..];
  }

  /** The word before the first colon of a key, and what follows it. */
  function KeyParts(c: Change): (string, string) {
    match c
    case Reorder(list, _, _) => ("story-order", ListLabel(list))
    case Keyed(target, _, _, _) =>
      match target
      case StoryAddress(kind, id) => ("story", KindLabel(kind) + ":" + id)
      case CastAddress(key) => ("cast", key)
      case GroupAddress(id) => ("group", id)
      case SourceAddress(id) => ("source", id)
      case FragmentAddress(id) => ("fragment", id)
      case EdgeAddress(id) => ("edge", id)
      case SlotAddress(slot) => ("asset", slot)
      case VariantAddress(slot, variant) => ("asset", slot + "/" + variant)
      case Metadata(field) =>
        ("metadata", (if MetadataRecord(field).Meta? then "meta." else "") + MetadataName(field))
      case Configuration(field) => ("configuration", ConfigurationName(field))
  }

  lemma KeyIsParts(c: Change)
    ensures ChangeKey(c) == KeyParts(c).0 + ":" + KeyParts(c).1
    ensures ':' !in KeyParts(c).0
  {
    match c {
      case Reorder(list, _, _) =>
      case Keyed(target, _, _, _) =>
        match target {
          case StoryAddress(kind, id) =>
            assert "story:" + KindLabel(kind) + ":" + id == "story" + ":" + (KindLabel(kind) + ":" + id);
          case VariantAddress(slot, variant) =>
            assert "asset:" + slot + "/" + variant == "asset" + ":" + (slot + "/" + variant);
          case _ =>
        }
    }
  }

  /** Kinds without a colon in their names, all different. */
  lemma KindLabels(x: StoryKind, y: StoryKind)
    ensures ':' !in KindLabel(x)
    ensures KindLabel(x) == KindLabel(y) ==> x == y
  {
    var a, b := KindLabel(x), KindLabel(y);
    assert a == b ==> (|a| == |b| && a[0] == b[0] && a[1] == b[1]);
  }

  lemma FieldNames(x: MetadataField, y: MetadataField)
    requires (if MetadataRecord(x).Meta? then "meta." else "") + MetadataName(x)
          == (if MetadataRecord(y).Meta? then "meta." else "") + MetadataName(y)
    ensures x == y
  {
    var a := (if MetadataRecord(x).Meta? then "meta." else "") + MetadataName(x);
    var b := (if MetadataRecord(y).Meta? then "meta." else "") + MetadataName(y);
    assert |a| == |b| && a[0] == b[0] && a[|a| - 1] == b[|b| - 1] && a[|a| - 2] == b[|b| - 2];
  }

  lemma OnlyVariantKeysHaveSlash(c: Change)
    requires c.Keyed? ==> KeyedByName(c.target)
    ensures c.Keyed? && c.target.SlotAddress? ==> '/' !in KeyParts(c).1
    ensures c.Keyed? && c.target.VariantAddress? ==> '/' in KeyParts(c).1
  {
    if c.Keyed? && c.target.VariantAddress? {
      assert KeyParts(c).1[|c.target.slot|] == '/';
    }
  }

  /** Equal keys name the same target, so a repeated key is a repeated target and nothing else. */
  lemma KeysIdentifyTargets(x: Change, y: Change)
    requires ChangeKey(x) == ChangeKey(y)
    requires (x.Keyed? ==> KeyedByName(x.target)) && (y.Keyed? ==> KeyedByName(y.target))
    ensures x.Keyed? <==> y.Keyed?
    ensures if x.Keyed? then x.target == y.target else x.list == y.list
  {
    KeyIsParts(x);
    KeyIsParts(y);
    SplitOnce(KeyParts(x).0, KeyParts(x).1, KeyParts(y).0, KeyParts(y).1, ':');
    SameWordSameForm(x, y);
    OnlyVariantKeysHaveSlash(x);
    OnlyVariantKeysHaveSlash(y);
    if x.Reorder? {
      assert ListLabel(x.list)[0] == ListLabel(y.list)[0] && |ListLabel(x.list)| == |ListLabel(y.list)|
        && ListLabel(x.list)[1] == ListLabel(y.list)[1];
    } else {
      match x.target {
        case StoryAddress(kind, id) =>
          KindLabels(kind, y.target.kind);
          KindLabels(y.target.kind, kind);
          SplitOnce(KindLabel(kind), id, KindLabel(y.target.kind), y.target.id, ':');
        case VariantAddress(slot, variant) =>
          SplitOnce(slot, variant, y.target.slot, y.target.variant, '/');
        case Metadata(field) => FieldNames(field, y.target.metadata);
        case Configuration(field) =>
          assert |ConfigurationName(field)| == |ConfigurationName(y.target.configuration)|;
        case _ =>
      }
    }
  }

  /** The word before the colon tells the form of the change, slots and variants apart. */
  lemma SameWordSameForm(x: Change, y: Change)
    requires KeyParts(x).0 == KeyParts(y).0
    ensures x.Keyed? <==> y.Keyed?
    ensures x.Keyed? ==> WordIndex(x.target) == WordIndex(y.target)
  {
    var a, b := KeyParts(x).0, KeyParts(y).0;
    assert |a| == |b| && a[0] == b[0] && a[1] == b[1];
  }

  function WordIndex(a: Address): nat {
    match a
    case StoryAddress(_, _) => 0
    case CastAddress(_) => 1
    case GroupAddress(_) => 2
    case SourceAddress(_) => 3
    case FragmentAddress(_) => 4
    case EdgeAddress(_) => 5
    case SlotAddress(_) => 6
    case VariantAddress(_, _) => 6
    case Metadata(_) => 7
    case Configuration(_) => 8
  }
}
