/**
 * The selector for exact references: it expands what leads to them and nothing else, and its plan
 * replays.
 */
module FixedSelection {
  import opened Common
  import opened Selection
  import opened SelectionLaws

  type Paths = map<string, seq<Ref>>

  // ---------------------------------------------------------------------------
  // The way to every node
  // ---------------------------------------------------------------------------

  function Walk(n: Node, path: seq<Ref>, m: Paths): Paths
    decreases n
  {
    var found := m[n.Key() := path];
    if n.Branch? then WalkAll(n.children, path + [n.ref], found) else found
  }

  function WalkAll(ns: seq<Node>, path: seq<Ref>, m: Paths): Paths
    decreases ns
  {
    if ns == [] then m else WalkAll(ns[1..], path, Walk(ns[0], path, m))
  }

  /** The whole trees behind the directory. */
  function Roots(b: Build, cs: seq<Node>): seq<Node> {
    if cs == [] then []
    else if cs[0].Key() in b.nodes then [b.nodes[cs[0].Key()]] + Roots(b, cs[1..])
    else Roots(b, cs[1..])
  }

  function Ancestors(b: Build): Paths {
    WalkAll(Roots(b, b.candidates), [], map[])
  }

  // ---------------------------------------------------------------------------
  // Going down to a reference
  // ---------------------------------------------------------------------------

  predicate AllShown(ns: seq<Node>, e: Exposed) {
    forall n <- ns :: n.Key() in e
  }

  /** All children of a node are visible already. */
  predicate Visible(b: Build, e: Exposed, key: string) {
    key in b.nodes && b.nodes[key].Branch? && AllShown(b.nodes[key].children, e)
  }

  /** Expands what is needed of `path` to show `key`; the result is what is shown, and the expansions. */
  function Descend(b: Build, path: seq<Ref>, key: string, e: Exposed): Result<(Exposed, seq<Decision>), SelectionError>
    decreases |path|
  {
    if path == [] || key in e then Ok((e, []))
    else if Visible(b, e, CatalogKey(path[0])) then Descend(b, path[1..], key, e)
    else
      match Expansion(b, e, path[0])
      case Err(x) => Err(x)
      case Ok(e') =>
        match Descend(b, path[1..], key, e')
        case Err(x) => Err(x)
        case Ok((e'', ds)) => Ok((e'', [Decision(Expand, path[0])] + ds))
  }

  function DecideAll(b: Build, paths: Paths, refs: seq<Ref>, e: Exposed): Result<seq<Decision>, SelectionError>
    decreases |refs|
  {
    if refs == [] then Ok([])
    else
      var key := CatalogKey(refs[0]);
      if key !in paths then Err(InvalidReference)
      else
        match Descend(b, paths[key], key, e)
        case Err(x) => Err(x)
        case Ok((e', ds)) =>
          match DecideAll(b, paths, refs[1..], e')
          case Err(x) => Err(x)
          case Ok(more) => Ok(ds + [Decision(Select, refs[0])] + more)
  }

  function FormOf(ref: Ref): Form {
    if ref.Source? && ref.section.Some? then Section else Body
  }

  function ItemsOf(refs: seq<Ref>): (items: seq<Item>)
    ensures |items| == |refs| && forall i | 0 <= i < |refs| :: items[i] == Item(refs[i], FormOf(refs[i]))
  {
    if refs == [] then [] else [Item(refs[0], FormOf(refs[0]))] + ItemsOf(refs[1..])
  }

  function PlanFor(b: Build, refs: seq<Ref>, ds: seq<Decision>): Plan {
    Plan(b.discovery, b.input, ds, ItemsOf(refs), false)
  }

  function FixedPlan(b: Build, refs: seq<Ref>): Result<Plan, SelectionError> {
    match DecideAll(b, Ancestors(b), refs, Initial(b))
    case Err(x) => Err(x)
    case Ok(ds) => Validate(b, PlanFor(b, refs, ds))
  }

  /** With nothing to select, a plan without decisions. */
  function NonePlan(b: Build): Result<Plan, SelectionError> {
    Validate(b, Plan(b.discovery, b.input, [], [], false))
  }

  // ---------------------------------------------------------------------------
  // A catalog in order
  // ---------------------------------------------------------------------------

  /** A tree as the catalog keeps it, each node under its key. */
  ghost predicate Kept(b: Build, n: Node)
    decreases n
  {
    n.Key() in b.nodes && b.nodes[n.Key()] == n && (n.Branch? ==> forall c <- n.children :: Kept(b, c))
  }

  /** The node has children to show. */
  predicate Opens(b: Build, key: string) {
    key in b.nodes && b.nodes[key].Branch?
  }

  /**
   * Every node that has children has one level: the directory starts at the top, and what has
   * children itself stands one below what it is a child of. What has none may be listed anywhere.
   */
  ghost predicate Levelled(b: Build, level: map<string, nat>) {
    && (forall c <- b.candidates :: c.Key() in b.nodes && Kept(b, b.nodes[c.Key()])
          && b.nodes[c.Key()].Key() == c.Key())
    && (forall k <- b.nodes | Opens(b, k) ::
          k in level && forall c <- b.nodes[k].children | Opens(b, c.Key()) ::
            c.Key() in level && level[c.Key()] == level[k] + 1)
    && (forall c <- b.candidates | Opens(b, c.Key()) :: level[c.Key()] == 0)
    && AtLevel(b, level, Initial(b))
  }

  /** What is shown stands at its level. */
  ghost predicate AtLevel(b: Build, level: map<string, nat>, e: Exposed) {
    forall k <- e | Opens(b, k) :: k in level && e[k] == level[k]
  }

  /** A path from the directory down to `key`, each node a child of the one before. */
  ghost predicate Leads(b: Build, path: seq<Ref>, key: string) {
    && (path == [] ==> exists c :: c in b.candidates && c.Key() == key)
    && (path != [] ==> exists c :: c in b.candidates && c.Key() == CatalogKey(path[0]))
    && (forall i | 0 <= i < |path| :: ChildAt(b, path, key, i))
  }

  ghost predicate ChildAt(b: Build, path: seq<Ref>, key: string, i: nat)
    requires i < |path|
  {
    var k := CatalogKey(path[i]);
    k in b.nodes && b.nodes[k].Branch?
    && (if i + 1 < |path| then CatalogKey(path[i + 1]) else key) in Keys(b.nodes[k].children)
  }

  lemma LeadsDown(b: Build, path: seq<Ref>, n: Node, c: Node)
    requires Leads(b, path, n.Key()) && Kept(b, n) && n.Branch? && c in n.children
    ensures Leads(b, path + [n.ref], c.Key())
  {
    var q := path + [n.ref];
    forall i | 0 <= i < |q| ensures ChildAt(b, q, c.Key(), i) {
      if i < |path| { assert ChildAt(b, path, n.Key(), i); }
    }
  }

  ghost predicate AllLead(b: Build, m: Paths) {
    forall k <- m :: Leads(b, m[k], k)
  }

  lemma {:induction false} WalkLeads(b: Build, n: Node, path: seq<Ref>, m: Paths)
    requires Kept(b, n) && Leads(b, path, n.Key()) && AllLead(b, m)
    ensures AllLead(b, Walk(n, path, m))
    decreases n
  {
    var found := m[n.Key() := path];
    assert AllLead(b, found);
    if n.Branch? {
      forall c <- n.children ensures Kept(b, c) && Leads(b, path + [n.ref], c.Key()) {
        LeadsDown(b, path, n, c);
      }
      WalkAllLeads(b, n.children, path + [n.ref], found);
    }
  }

  lemma {:induction false} WalkAllLeads(b: Build, ns: seq<Node>, path: seq<Ref>, m: Paths)
    requires AllLead(b, m) && forall n <- ns :: Kept(b, n) && Leads(b, path, n.Key())
    ensures AllLead(b, WalkAll(ns, path, m))
    decreases ns
  {
    if ns != [] {
      assert ns[0] in ns && forall n <- ns[1..] :: n in ns;
      WalkLeads(b, ns[0], path, m);
      WalkAllLeads(b, ns[1..], path, Walk(ns[0], path, m));
    }
  }

  lemma {:induction false} RootsLead(b: Build, level: map<string, nat>, cs: seq<Node>)
    requires Levelled(b, level) && forall c <- cs :: c in b.candidates
    ensures forall n <- Roots(b, cs) :: Kept(b, n) && Leads(b, [], n.Key())
  {
    if cs != [] {
      assert cs[0] in cs && forall c <- cs[1..] :: c in cs;
      RootsLead(b, level, cs[1..]);
      var n := b.nodes[cs[0].Key()];
      assert Kept(b, n) && Leads(b, [], n.Key());
    }
  }

  lemma AncestorsLead(b: Build, level: map<string, nat>)
    requires Levelled(b, level)
    ensures AllLead(b, Ancestors(b))
  {
    RootsLead(b, level, b.candidates);
    WalkAllLeads(b, Roots(b, b.candidates), [], map[]);
  }

  // ---------------------------------------------------------------------------
  // When going down succeeds
  // ---------------------------------------------------------------------------

  function KeyAt(path: seq<Ref>, key: string, i: nat): string
    requires i <= |path|
  {
    if i < |path| then CatalogKey(path[i]) else key
  }

  /** What a node lists. */
  function Listed(b: Build, ref: Ref): set<string> {
    if Opens(b, CatalogKey(ref)) then Keys(b.nodes[CatalogKey(ref)].children) else {}
  }

  /** How many nodes of the path come before the first one that lists `key`. */
  function FirstListing(b: Build, path: seq<Ref>, key: string): (n: nat)
    ensures n <= |path|
  {
    if path == [] || key in Listed(b, path[0]) then 0 else 1 + FirstListing(b, path[1..], key)
  }

  lemma {:induction false} FirstListed(b: Build, path: seq<Ref>, key: string, i: nat)
    requires i < |path| && key in Listed(b, path[i])
    ensures FirstListing(b, path, key) <= i
  {
    if key !in Listed(b, path[0]) { FirstListed(b, path[1..], key, i - 1); }
  }

  /** What the first `n` nodes of a path list. */
  function ListedBy(b: Build, path: seq<Ref>, n: nat): set<string>
    requires n <= |path|
  {
    if n == 0 then {} else Listed(b, path[0]) + ListedBy(b, path[1..], n - 1)
  }

  lemma StepDown(b: Build, level: map<string, nat>, path: seq<Ref>, key: string, i: nat)
    requires Levelled(b, level) && Leads(b, path, key) && i < |path|
    ensures var k := KeyAt(path, key, i);
            && Opens(b, k) && k in level && KeyAt(path, key, i + 1) in Listed(b, path[i])
            && (i + 1 < |path| ==> CatalogKey(path[i + 1]) in level && level[CatalogKey(path[i + 1])] == level[k] + 1)
  {
    assert ChildAt(b, path, key, i);
    if i + 1 < |path| {
      assert ChildAt(b, path, key, i + 1);
      var c :| c in b.nodes[KeyAt(path, key, i)].children && c.Key() == CatalogKey(path[i + 1]);
    }
  }

  lemma {:induction false} LevelOnPath(b: Build, level: map<string, nat>, path: seq<Ref>, key: string, i: nat)
    requires Levelled(b, level) && Leads(b, path, key) && i < |path|
    ensures CatalogKey(path[i]) in level && level[CatalogKey(path[i])] == i
  {
    if i > 0 {
      LevelOnPath(b, level, path, key, i - 1);
      StepDown(b, level, path, key, i - 1);
    } else {
      StepDown(b, level, path, key, 0);
    }
  }

  /** The last node of a path lists where it leads. */
  lemma ListedOnPath(b: Build, level: map<string, nat>, path: seq<Ref>, key: string, i: nat)
    requires Levelled(b, level) && Leads(b, path, key) && i < |path|
    ensures FirstListing(b, path[i..], key) < |path| - i
  {
    StepDown(b, level, path, key, |path| - 1);
    var rest := path[i..];
    assert rest[|rest| - 1] == path[|path| - 1];
    FirstListed(b, rest, key, |rest| - 1);
  }

  lemma ExpandAtLevel(b: Build, level: map<string, nat>, e: Exposed, key: string)
    requires Levelled(b, level) && AtLevel(b, level, e) && Expandable(b, e, key)
    ensures var r := ShowShallow(b.nodes[key].children, e[key] + 1, e);
            AtLevel(b, level, r) && r.Keys == e.Keys + Keys(b.nodes[key].children)
  {
    var cs := b.nodes[key].children;
    ShallowShows(cs, e[key] + 1, e);
    var r := ShowShallow(cs, e[key] + 1, e);
    forall k <- r | Opens(b, k) ensures k in level && r[k] == level[k] {
      if k in Keys(cs) {
        var c :| c in cs && c.Key() == k;
      }
    }
  }

  ghost predicate OnlyExpands(ds: seq<Decision>) {
    forall i | 0 <= i < |ds| :: ds[i].action == Expand
  }

  /** A descent that shows `shown` more, its goal among it, keeps levels, and replays. */
  ghost predicate Arrives(b: Build, level: map<string, nat>, e: Exposed, key: string, shown: set<string>,
                          r: Result<(Exposed, seq<Decision>), SelectionError>)
  {
    && r.Ok? && key in r.value.0 && r.value.0.Keys == e.Keys + shown && AtLevel(b, level, r.value.0)
    && Free(b, r.value.1, e) == Ok(r.value.0) && OnlyExpands(r.value.1)
  }

  /**
   * Going down to what is not shown yet succeeds exactly when the first node of the path that
   * lists it is within the depth; then it shows what that node and those before it list.
   */
  ghost predicate GoesDown(b: Build, level: map<string, nat>, rest: seq<Ref>, key: string, depth: nat, e: Exposed) {
    var n := FirstListing(b, rest, key);
    n < |rest|
    && (if depth + n < b.maxDepth then Arrives(b, level, e, key, ListedBy(b, rest, n + 1), Descend(b, rest, key, e))
        else Descend(b, rest, key, e).Err?)
  }

  lemma VisibleStep(b: Build, level: map<string, nat>, rest: seq<Ref>, key: string, depth: nat, e: Exposed)
    requires rest != [] && key !in e && Visible(b, e, CatalogKey(rest[0]))
    requires GoesDown(b, level, rest[1..], key, depth + 1, e)
    ensures GoesDown(b, level, rest, key, depth, e)
  {
    ShownAlready(b, e, rest[0]);
    var n := FirstListing(b, rest[1..], key);
    assert e.Keys + ListedBy(b, rest, n + 2) == e.Keys + ListedBy(b, rest[1..], n + 1);
  }

  lemma LastStep(b: Build, level: map<string, nat>, rest: seq<Ref>, key: string, depth: nat, e: Exposed, e': Exposed)
    requires rest != [] && key !in e && !Visible(b, e, CatalogKey(rest[0])) && key in Listed(b, rest[0])
    requires Expansion(b, e, rest[0]) == Ok(e') && e'.Keys == e.Keys + Listed(b, rest[0]) && AtLevel(b, level, e')
    requires depth < b.maxDepth
    ensures GoesDown(b, level, rest, key, depth, e)
  {
    assert Descend(b, rest[1..], key, e') == Ok((e', []));
    Stays(b, level, e', key, {});
    assert ListedBy(b, rest, 1) == Listed(b, rest[0]) + {};
    DescendExpands(b, rest, key, e, e', level, {}, ListedBy(b, rest, 1));
  }

  lemma ExpandStep(b: Build, level: map<string, nat>, rest: seq<Ref>, key: string, depth: nat, e: Exposed, e': Exposed)
    requires rest != [] && key !in e && !Visible(b, e, CatalogKey(rest[0])) && key !in Listed(b, rest[0])
    requires Expansion(b, e, rest[0]) == Ok(e') && e'.Keys == e.Keys + Listed(b, rest[0])
    requires GoesDown(b, level, rest[1..], key, depth + 1, e')
    ensures GoesDown(b, level, rest, key, depth, e)
  {
    var n := FirstListing(b, rest[1..], key);
    if depth + 1 + n < b.maxDepth {
      assert e'.Keys + ListedBy(b, rest[1..], n + 1) == e.Keys + ListedBy(b, rest, n + 2);
      DescendExpands(b, rest, key, e, e', level, ListedBy(b, rest[1..], n + 1), ListedBy(b, rest, n + 2));
    }
  }

  lemma {:induction false} DescendExactly(b: Build, level: map<string, nat>, path: seq<Ref>, key: string, i: nat,
                                          e: Exposed)
    requires Levelled(b, level) && Leads(b, path, key) && i < |path|
    requires AtLevel(b, level, e) && CatalogKey(path[i]) in e && key !in e
    ensures GoesDown(b, level, path[i..], key, i, e)
    decreases |path| - i
  {
    var k, rest := CatalogKey(path[i]), path[i..];
    LevelOnPath(b, level, path, key, i);
    StepDown(b, level, path, key, i);
    ListedOnPath(b, level, path, key, i);
    assert rest[0] == path[i] && rest[1..] == path[i + 1..];
    if Visible(b, e, k) {
      ShownAlready(b, e, path[i]);
      DescendExactly(b, level, path, key, i + 1, e);
      VisibleStep(b, level, rest, key, i, e);
    } else if i < b.maxDepth {
      ExpandAtLevel(b, level, e, k);
      var e' := ShowShallow(b.nodes[k].children, e[k] + 1, e);
      if key in Listed(b, path[i]) {
        LastStep(b, level, rest, key, i, e, e');
      } else {
        DescendExactly(b, level, path, key, i + 1, e');
        ExpandStep(b, level, rest, key, i, e, e');
      }
    }
  }

  lemma ShownAlready(b: Build, e: Exposed, ref: Ref)
    requires Visible(b, e, CatalogKey(ref))
    ensures Listed(b, ref) <= e.Keys
  {
    var cs := b.nodes[CatalogKey(ref)].children;
    forall k | k in Keys(cs) ensures k in e {
      var c :| c in cs && c.Key() == k;
    }
  }

  lemma DescendExpands(b: Build, path: seq<Ref>, key: string, e: Exposed, e': Exposed, level: map<string, nat>,
                       later: set<string>, shown: set<string>)
    requires path != [] && key !in e && !Visible(b, e, CatalogKey(path[0])) && Expansion(b, e, path[0]) == Ok(e')
    requires e'.Keys + later == e.Keys + shown && Arrives(b, level, e', key, later, Descend(b, path[1..], key, e'))
    ensures Arrives(b, level, e, key, shown, Descend(b, path, key, e))
  {
    var r := Descend(b, path[1..], key, e').value;
    var ds := [Decision(Expand, path[0])] + r.1;
    assert ds[1..] == r.1;
    assert Free(b, ds, e) == Free(b, r.1, e');
  }

  lemma {:induction false} FreeConcat(b: Build, a: seq<Decision>, c: seq<Decision>, e: Exposed)
    ensures Free(b, a, e).Ok? ==> Free(b, a + c, e) == Free(b, c, Free(b, a, e).value)
    decreases |a|
  {
    if a == [] {
      assert a + c == c;
    } else {
      assert (a + c)[1..] == a[1..] + c;
      if a[0].action == Expand {
        if Expansion(b, e, a[0].ref).Ok? { FreeConcat(b, a[1..], c, Expansion(b, e, a[0].ref).value); }
      } else {
        FreeConcat(b, a[1..], c, e);
      }
    }
  }

  ghost predicate NoReject(ds: seq<Decision>) {
    forall i | 0 <= i < |ds| :: ds[i].action != Reject
  }

  /** Decisions that replay and show every reference, rejecting none. */
  ghost predicate Decides(b: Build, e: Exposed, refs: seq<Ref>, r: Result<seq<Decision>, SelectionError>) {
    && r.Ok? && NoReject(r.value) && Free(b, r.value, e).Ok? && e.Keys <= Free(b, r.value, e).value.Keys
    && forall ref <- refs :: CatalogKey(ref) in Free(b, r.value, e).value
  }

  lemma SelectAfter(b: Build, e: Exposed, e': Exposed, ds: seq<Decision>, ref: Ref, more: seq<Decision>, refs: seq<Ref>)
    requires Free(b, ds, e) == Ok(e') && OnlyExpands(ds) && CatalogKey(ref) in e' && e.Keys <= e'.Keys
    requires Decides(b, e', refs, Ok(more))
    ensures Decides(b, e, [ref] + refs, Ok(ds + [Decision(Select, ref)] + more))
  {
    var chosen := [Decision(Select, ref)];
    assert chosen[1..] == [];
    assert Free(b, chosen, e') == Ok(e') by { assert Free(b, [], e') == Ok(e'); }
    FreeConcat(b, ds, chosen, e);
    FreeConcat(b, ds + chosen, more, e);
  }

  lemma DecideFirst(b: Build, paths: Paths, refs: seq<Ref>, e: Exposed)
    requires refs != [] && CatalogKey(refs[0]) in paths
    ensures var key := CatalogKey(refs[0]);
            var r := Descend(b, paths[key], key, e);
            if r.Ok? && DecideAll(b, paths, refs[1..], r.value.0).Ok?
            then DecideAll(b, paths, refs, e)
                 == Ok(r.value.1 + [Decision(Select, refs[0])] + DecideAll(b, paths, refs[1..], r.value.0).value)
            else DecideAll(b, paths, refs, e).Err?
  {
  }

  /** What is shown once a reference has been gone down to. */
  function SeenAfter(b: Build, paths: Paths, ref: Ref, seen: set<string>): set<string>
    requires CatalogKey(ref) in paths
  {
    var key := CatalogKey(ref);
    var n := FirstListing(b, paths[key], key);
    if key in seen || n == |paths[key]| then seen else seen + ListedBy(b, paths[key], n + 1)
  }

  /**
   * Each reference has a path, and is shown already, by what was shown for those before it, or is
   * listed within the depth by a node of its path.
   */
  predicate Findable(b: Build, paths: Paths, refs: seq<Ref>, seen: set<string>) {
    refs == []
    || (var key := CatalogKey(refs[0]);
        && key in paths && (key in seen || FirstListing(b, paths[key], key) < b.maxDepth)
        && Findable(b, paths, refs[1..], SeenAfter(b, paths, refs[0], seen)))
  }

  /** References whose paths are within the depth can always be found. */
  lemma {:induction false} WithinDepthFindable(b: Build, level: map<string, nat>, refs: seq<Ref>, seen: set<string>)
    requires Levelled(b, level) && forall c <- b.candidates :: c.Key() in seen
    requires forall ref <- refs :: CatalogKey(ref) in Ancestors(b) && |Ancestors(b)[CatalogKey(ref)]| <= b.maxDepth
    ensures Findable(b, Ancestors(b), refs, seen)
  {
    if refs != [] {
      assert refs[0] in refs && forall r <- refs[1..] :: r in refs;
      var key := CatalogKey(refs[0]);
      AncestorsLead(b, level);
      var path := Ancestors(b)[key];
      assert Leads(b, path, key);
      assert path[0..] == path;
      if path != [] { ListedOnPath(b, level, path, key, 0); }
      WithinDepthFindable(b, level, refs[1..], SeenAfter(b, Ancestors(b), refs[0], seen));
    }
  }

  /** Going down to one reference. */
  lemma FirstExactly(b: Build, level: map<string, nat>, ref: Ref, e: Exposed)
    requires Levelled(b, level) && AtLevel(b, level, e) && forall c <- b.candidates :: c.Key() in e
    requires CatalogKey(ref) in Ancestors(b)
    ensures var key := CatalogKey(ref);
            var path := Ancestors(b)[key];
            if key in e || FirstListing(b, path, key) < b.maxDepth
            then Arrives(b, level, e, key, SeenAfter(b, Ancestors(b), ref, e.Keys), Descend(b, path, key, e))
            else Descend(b, path, key, e).Err?
  {
    var key := CatalogKey(ref);
    AncestorsLead(b, level);
    var path := Ancestors(b)[key];
    assert Leads(b, path, key);
    if key in e {
      Stays(b, level, e, key, e.Keys);
    } else {
      PathExactly(b, level, path, key, e);
      var n := FirstListing(b, path, key);
      if n < b.maxDepth { ShowsAsWell(b, level, e, key, ListedBy(b, path, n + 1), Descend(b, path, key, e)); }
    }
  }

  lemma Stays(b: Build, level: map<string, nat>, e: Exposed, key: string, shown: set<string>)
    requires AtLevel(b, level, e) && key in e && shown <= e.Keys
    ensures Arrives(b, level, e, key, shown, Ok((e, [])))
  {
  }

  lemma PathExactly(b: Build, level: map<string, nat>, path: seq<Ref>, key: string, e: Exposed)
    requires Levelled(b, level) && Leads(b, path, key) && AtLevel(b, level, e) && key !in e
    requires forall c <- b.candidates :: c.Key() in e
    ensures GoesDown(b, level, path, key, 0, e)
  {
    assert path[0..] == path;
    DescendExactly(b, level, path, key, 0, e);
  }

  /** What is shown already may be counted with what a descent shows. */
  lemma ShowsAsWell(b: Build, level: map<string, nat>, e: Exposed, key: string, shown: set<string>,
                    r: Result<(Exposed, seq<Decision>), SelectionError>)
    requires Arrives(b, level, e, key, shown, r)
    ensures Arrives(b, level, e, key, e.Keys + shown, r)
  {
    assert e.Keys + (e.Keys + shown) == e.Keys + shown;
  }

  /** The decisions are found exactly when every reference can be, and then they show every one of them. */
  lemma {:induction false} DecideAllExactly(b: Build, level: map<string, nat>, refs: seq<Ref>, e: Exposed)
    requires Levelled(b, level) && AtLevel(b, level, e) && forall c <- b.candidates :: c.Key() in e
    ensures if Findable(b, Ancestors(b), refs, e.Keys) then Decides(b, e, refs, DecideAll(b, Ancestors(b), refs, e))
            else DecideAll(b, Ancestors(b), refs, e).Err?
    decreases |refs|
  {
    if refs != [] && CatalogKey(refs[0]) in Ancestors(b) {
      var ref, rest := refs[0], refs[1..];
      var key := CatalogKey(ref);
      FirstExactly(b, level, ref, e);
      DecideFirst(b, Ancestors(b), refs, e);
      if key in e || FirstListing(b, Ancestors(b)[key], key) < b.maxDepth {
        var r := Descend(b, Ancestors(b)[key], key, e).value;
        assert r.0.Keys == SeenAfter(b, Ancestors(b), ref, e.Keys);
        DecideAllExactly(b, level, rest, r.0);
        if Findable(b, Ancestors(b), refs, e.Keys) {
          SelectAfter(b, e, r.0, r.1, ref, DecideAll(b, Ancestors(b), rest, r.0).value, rest);
          assert refs == [ref] + rest;
        }
      }
    }
  }

  lemma {:induction false} NeverRejected(ds: seq<Decision>, key: string)
    requires NoReject(ds)
    ensures FinalDecision(ds, key) != Some(Reject)
    decreases |ds|
  {
    if ds != [] { NeverRejected(ds[..|ds| - 1], key); }
  }

  lemma {:induction false} ShowAllShows(ns: seq<Node>, depth: nat, e: Exposed)
    ensures e.Keys <= ShowAll(ns, depth, e).Keys
    ensures forall n <- ns :: n.Key() in ShowAll(ns, depth, e)
    decreases ns
  {
    if ns != [] {
      ShowShows(ns[0], depth, e);
      ShowAllShows(ns[1..], depth, Show(ns[0], depth, e));
      assert ns == [ns[0]] + ns[1..];
    }
  }

  lemma {:induction false} ShowShows(n: Node, depth: nat, e: Exposed)
    ensures e.Keys <= Show(n, depth, e).Keys && n.Key() in Show(n, depth, e)
    decreases n
  {
    if n.Branch? { ShowAllShows(n.children, depth + 1, e[n.Key() := depth]); }
  }

  /** References that may be chosen together: fragments and sources, each once, none both whole and in part. */
  ghost predicate Choosable(b: Build, refs: seq<Ref>) {
    && (forall ref <- refs :: ref.Fragment? || ref.Source?)
    && DistinctItems(ItemsOf(refs)) && NoOverlap(b, ItemsOf(refs))
  }

  /**
   * In a catalog in order a plan for the references is made and accepted exactly when each can be
   * found, they may be chosen together, and the expansions fit the directory budget.
   */
  lemma FixedPlanExactly(b: Build, level: map<string, nat>, refs: seq<Ref>)
    requires Levelled(b, level)
    ensures var found := DecideAll(b, Ancestors(b), refs, Initial(b));
            && (found.Ok? <==> Findable(b, Ancestors(b), refs, Initial(b).Keys))
            && (FixedPlan(b, refs).Ok?
                <==> found.Ok? && Choosable(b, refs)
                     && (Expands(found.value) ==>
                           (if b.discovery then b.directoryCost else 0) + Spent(b, found.value) <= b.catalogBudget))
            && (FixedPlan(b, refs).Ok? ==> FixedPlan(b, refs) == Ok(PlanFor(b, refs, found.value)))
  {
    var e0 := Initial(b);
    ShowAllShows(b.candidates, 0, map[]);
    DecideAllExactly(b, level, refs, e0);
    if Findable(b, Ancestors(b), refs, e0.Keys) {
      var ds := DecideAll(b, Ancestors(b), refs, e0).value;
      var p := PlanFor(b, refs, ds);
      ValidExactly(b, p);
      ValidateReturns(b, p);
      ItemsHold(b, refs, ds, Free(b, ds, e0).value);
    }
  }

  lemma ValidateReturns(b: Build, p: Plan)
    ensures Validate(b, p).Ok? ==> Validate(b, p) == Ok(p)
  {
  }

  lemma ItemsHold(b: Build, refs: seq<Ref>, ds: seq<Decision>, e: Exposed)
    requires NoReject(ds) && forall ref <- refs :: CatalogKey(ref) in e
    ensures (forall item <- ItemsOf(refs) :: ItemHolds(e, ds, item))
            <==> (forall ref <- refs :: ref.Fragment? || ref.Source?)
  {
    var items := ItemsOf(refs);
    forall i | 0 <= i < |refs| ensures ItemHolds(e, ds, items[i]) <==> refs[i].Fragment? || refs[i].Source? {
      assert refs[i] in refs;
      NeverRejected(ds, CatalogKey(refs[i]));
    }
    if forall item <- items :: ItemHolds(e, ds, item) {
      forall ref <- refs ensures ref.Fragment? || ref.Source? {
        var i :| 0 <= i < |refs| && refs[i] == ref;
        assert items[i] in items;
      }
    }
    if forall ref <- refs :: ref.Fragment? || ref.Source? {
      forall item <- items ensures ItemHolds(e, ds, item) {
        var i :| 0 <= i < |items| && items[i] == item;
        assert refs[i] in refs;
      }
    }
  }

  /** Choosing nothing is accepted exactly when what is in directly does not overlap. */
  lemma NonePlanExactly(b: Build)
    ensures NonePlan(b).Ok? <==> NoOverlap(b, [])
  {
    ValidExactly(b, Plan(b.discovery, b.input, [], [], false));
    assert !Expands([]);
  }

  // ---------------------------------------------------------------------------
  // What a plan decides
  // ---------------------------------------------------------------------------

  ghost function IsChoice(): Decision -> bool {
    (d: Decision) => d.action != Expand
  }

  /** Only expansions of references in `path`. */
  ghost predicate OpensOnly(ds: seq<Decision>, path: seq<Ref>) {
    forall i | 0 <= i < |ds| :: ds[i].action == Expand && ds[i].ref in path
  }

  lemma {:induction false} DescendOpens(b: Build, path: seq<Ref>, key: string, e: Exposed)
    requires Descend(b, path, key, e).Ok?
    ensures OpensOnly(Descend(b, path, key, e).value.1, path)
    decreases |path|
  {
    if !(path == [] || key in e) {
      var rest := path[1..];
      if Visible(b, e, CatalogKey(path[0])) {
        DescendOpens(b, rest, key, e);
      } else {
        DescendOpens(b, rest, key, Expansion(b, e, path[0]).value);
      }
      assert forall r <- rest :: r in path;
    }
  }

  /** Some reference has `r` among its recorded ancestors. */
  ghost predicate OnTheWay(paths: Paths, refs: seq<Ref>, r: Ref) {
    exists i :: 0 <= i < |refs| && CatalogKey(refs[i]) in paths && r in paths[CatalogKey(refs[i])]
  }

  lemma DecideFirstDecisions(b: Build, paths: Paths, refs: seq<Ref>, e: Exposed)
    returns (steps: seq<Decision>, later: Exposed)
    requires refs != [] && DecideAll(b, paths, refs, e).Ok?
    ensures CatalogKey(refs[0]) in paths && OpensOnly(steps, paths[CatalogKey(refs[0])])
    ensures DecideAll(b, paths, refs[1..], later).Ok?
    ensures DecideAll(b, paths, refs, e).value
            == steps + [Decision(Select, refs[0])] + DecideAll(b, paths, refs[1..], later).value
  {
    var key := CatalogKey(refs[0]);
    later, steps := Descend(b, paths[key], key, e).value.0, Descend(b, paths[key], key, e).value.1;
    DescendOpens(b, paths[key], key, e);
  }

  /** A plan's choices are its references, selected in order. */
  lemma {:induction false} ChoicesExactly(b: Build, paths: Paths, refs: seq<Ref>, e: Exposed)
    requires DecideAll(b, paths, refs, e).Ok?
    ensures var chosen := Filter(IsChoice(), DecideAll(b, paths, refs, e).value);
            |chosen| == |refs| && forall i | 0 <= i < |refs| :: chosen[i] == Decision(Select, refs[i])
    decreases |refs|
  {
    if refs != [] {
      var steps, later := DecideFirstDecisions(b, paths, refs, e);
      var select, more := [Decision(Select, refs[0])], DecideAll(b, paths, refs[1..], later).value;
      ChoicesExactly(b, paths, refs[1..], later);
      FilterNone(IsChoice(), steps);
      FilterConcat(IsChoice(), steps + select, more);
      FilterConcat(IsChoice(), steps, select);
      assert Filter(IsChoice(), steps + select + more) == select + Filter(IsChoice(), more);
    }
  }

  /** A plan expands nothing but ancestors of its references. */
  lemma {:induction false} OpensExactly(b: Build, paths: Paths, refs: seq<Ref>, e: Exposed)
    requires DecideAll(b, paths, refs, e).Ok?
    ensures forall d <- DecideAll(b, paths, refs, e).value | d.action == Expand :: OnTheWay(paths, refs, d.ref)
    decreases |refs|
  {
    if refs != [] {
      var steps, later := DecideFirstDecisions(b, paths, refs, e);
      var more := DecideAll(b, paths, refs[1..], later).value;
      OpensExactly(b, paths, refs[1..], later);
      forall d <- DecideAll(b, paths, refs, e).value | d.action == Expand ensures OnTheWay(paths, refs, d.ref) {
        if d in more {
          var j :| 0 <= j < |refs| - 1 && CatalogKey(refs[1..][j]) in paths && d.ref in paths[CatalogKey(refs[1..][j])];
          assert refs[j + 1] == refs[1..][j];
        } else {
          assert d in steps;
        }
      }
    }
  }

  // ---------------------------------------------------------------------------
  // A fragment listed at two depths
  // ---------------------------------------------------------------------------

  ghost predicate Held(b: Build, n: Node) {
    n.Key() in b.nodes && b.nodes[n.Key()] == n
  }

  /** A work with two groups, one holding the fragment, the other a group that holds it as well. */
  ghost predicate SharedFragment(b: Build, f: Node, g1: Node, g2: Node, g3: Node, w: Node) {
    && f == Leaf(Fragment("f"), "") && g1 == Branch(GroupRef("1"), "", [f]) && g3 == Branch(GroupRef("3"), "", [f])
    && g2 == Branch(GroupRef("2"), "", [g3]) && w == Branch(Work("w"), "", [g1, g2])
    && b.candidates == [Branch(Work("w"), "", [Leaf(GroupRef("1"), ""), Leaf(GroupRef("2"), "")])]
    && Held(b, f) && Held(b, g1) && Held(b, g2) && Held(b, g3) && Held(b, w)
    && b.direct == [] && b.maxDepth == 2 && (forall ref, ns :: b.cost(ref, ns) == 0)
    && (b.discovery ==> b.directoryCost <= b.catalogBudget)
  }

  lemma SharedKeys(f: Node, g1: Node, g2: Node, g3: Node, w: Node)
    requires f.ref == Fragment("f") && g1.ref == GroupRef("1") && g2.ref == GroupRef("2") && g3.ref == GroupRef("3")
    requires w.ref == Work("w")
    ensures f.Key() !in {g1.Key(), g2.Key(), g3.Key(), w.Key()} && w.Key() !in {g1.Key(), g2.Key(), g3.Key()}
    ensures g1.Key() != g2.Key() && g1.Key() != g3.Key() && g2.Key() != g3.Key()
  {
    assert f.Key()[0] == 'f' && w.Key()[0] == 'w';
    assert g1.Key()[0] == 'g' && g1.Key()[6] == '1';
    assert g2.Key()[0] == 'g' && g2.Key()[6] == '2';
    assert g3.Key()[0] == 'g' && g3.Key()[6] == '3';
  }

  lemma ShowTwo(c: Node, x: Node, y: Node)
    requires c.Branch? && c.children == [x, y] && x.Leaf? && y.Leaf?
    ensures ShowAll([c], 0, map[]) == map[][c.Key() := 0][x.Key() := 1][y.Key() := 1]
  {
    assert [c][1..] == [] && [x, y][1..] == [y] && [y][1..] == [];
    var e: Exposed := map[][c.Key() := 0];
    assert Show(c, 0, map[]) == ShowAll(c.children, 1, e);
    assert ShowAll([x, y], 1, e) == ShowAll([y], 1, e[x.Key() := 1]);
    assert ShowAll([y], 1, e[x.Key() := 1]) == e[x.Key() := 1][y.Key() := 1];
    assert ShowAll([c], 0, map[]) == ShowAll([], 0, Show(c, 0, map[]));
  }

  lemma WalkOne(n: Node, path: seq<Ref>, m: Paths)
    ensures WalkAll([n], path, m) == Walk(n, path, m)
  {
    assert [n][1..] == [];
  }

  lemma WalkTwo(x: Node, y: Node, path: seq<Ref>, m: Paths)
    ensures WalkAll([x, y], path, m) == Walk(y, path, Walk(x, path, m))
  {
    assert [x, y][1..] == [y];
    WalkOne(y, path, Walk(x, path, m));
  }

  /** The path that is recorded for the fragment is the later and longer one. */
  lemma SharedPath(b: Build, f: Node, g1: Node, g2: Node, g3: Node, w: Node)
    requires SharedFragment(b, f, g1, g2, g3, w)
    ensures f.Key() in Ancestors(b) && Ancestors(b)[f.Key()] == [w.ref, g2.ref, g3.ref]
  {
    assert b.candidates[1..] == [] && Roots(b, []) == [];
    assert b.candidates[0].Key() == w.Key();
    assert Roots(b, b.candidates) == [w] + [] == [w];
    WalkOne(w, [], map[]);
    assert [] + [w.ref] == [w.ref] && [w.ref] + [g2.ref] == [w.ref, g2.ref];
    WalkTwo(g1, g2, [w.ref], map[w.Key() := []]);
    var m1 := Walk(g1, [w.ref], map[w.Key() := []]);
    WalkOne(g3, [w.ref, g2.ref], m1[g2.Key() := [w.ref]]);
    WalkOne(f, [w.ref, g2.ref] + [g3.ref], m1[g2.Key() := [w.ref]][g3.Key() := [w.ref, g2.ref]]);
    assert [w.ref, g2.ref] + [g3.ref] == [w.ref, g2.ref, g3.ref];
  }

  /** Going down the recorded path stops at the group that is too deep. */
  lemma SharedDescent(b: Build, f: Node, g1: Node, g2: Node, g3: Node, w: Node, e: Exposed)
    requires SharedFragment(b, f, g1, g2, g3, w) && e == map[w.Key() := 0, g1.Key() := 1, g2.Key() := 1]
    ensures Descend(b, [w.ref, g2.ref, g3.ref], f.Key(), e) == Err(InvalidExpand)
  {
    SharedKeys(f, g1, g2, g3, w);
    var e', path := e[g3.Key() := 2], [w.ref, g2.ref, g3.ref];
    assert [g3][1..] == [] && ShowShallow([g3], 2, e) == e';
    assert Expansion(b, e, g2.ref) == Ok(e') && Expansion(b, e', g3.ref) == Err(InvalidExpand);
    assert g3 in g2.children && f in g3.children;
    assert Visible(b, e, w.Key()) && !Visible(b, e, g2.Key()) && !Visible(b, e', g3.Key());
    assert path[1..] == [g2.ref, g3.ref] && path[1..][1..] == [g3.ref];
    assert Descend(b, [g3.ref], f.Key(), e') == Err(InvalidExpand);
  }

  /** Selecting the fragment fails, although a plan that expands the first group is accepted. */
  lemma SharedFragmentIsMissed(b: Build, f: Node, g1: Node, g2: Node, g3: Node, w: Node)
    requires SharedFragment(b, f, g1, g2, g3, w)
    ensures FixedPlan(b, [f.ref]) == Err(InvalidExpand)
    ensures var byHand := [Decision(Expand, g1.ref), Decision(Select, f.ref)];
            Validate(b, Plan(b.discovery, b.input, byHand, [Item(f.ref, Body)], false)).Ok?
  {
    SharedKeys(f, g1, g2, g3, w);
    ShowTwo(b.candidates[0], Leaf(GroupRef("1"), ""), Leaf(GroupRef("2"), ""));
    var e := map[w.Key() := 0, g1.Key() := 1, g2.Key() := 1];
    assert Initial(b) == e by { assert b.candidates == [b.candidates[0]]; }
    SharedPath(b, f, g1, g2, g3, w);
    SharedDescent(b, f, g1, g2, g3, w, e);
    SharedByHand(b, f, g1, e);
  }

  lemma SharedByHand(b: Build, f: Node, g1: Node, e: Exposed)
    requires f.ref == Fragment("f") && g1 == Branch(GroupRef("1"), "", [f]) && Held(b, g1)
    requires e == Initial(b) && g1.Key() in e && e[g1.Key()] == 1 && b.maxDepth == 2 && b.direct == []
    requires (forall ref, ns :: b.cost(ref, ns) == 0) && (b.discovery ==> b.directoryCost <= b.catalogBudget)
    ensures var byHand := [Decision(Expand, g1.ref), Decision(Select, f.ref)];
            Validate(b, Plan(b.discovery, b.input, byHand, [Item(f.ref, Body)], false)).Ok?
  {
    var ds := [Decision(Expand, g1.ref), Decision(Select, f.ref)];
    var items := [Item(f.ref, Body)];
    assert ds[1..] == [Decision(Select, f.ref)] && ds[1..][1..] == [] && items[1..] == [];
    var e' := e[f.Key() := 2];
    assert [f][1..] == [] && ShowShallow([f], 2, e) == e';
    assert Free(b, ds[1..], e') == Free(b, [], e') == Ok(e');
    assert Free(b, ds, e) == Ok(e');
    assert Spent(b, ds) == Spent(b, ds[1..]) == Spent(b, []) == 0;
    NeverRejected(ds, f.Key());
    assert ItemHolds(e', ds, items[0]);
    assert RefsOf(items) == [f.ref] + RefsOf([]) && b.direct + RefsOf(items) == [f.ref];
    ValidExactly(b, Plan(b.discovery, b.input, ds, items, false));
  }
}
