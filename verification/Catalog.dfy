/**
 * Building the catalog: fragments, sources and sections are given; groups and works are put on
 * top of them, each group in the one place where it is met first.
 */
module Catalog {
  import opened Common
  import opened Selection
  import opened SelectionLaws
  import opened FixedSelection

  datatype GroupDef = GroupDef(id: string, title: string, entries: seq<string>, groups: seq<string>)

  datatype WorkDef = WorkDef(id: string, title: string, fragments: seq<string>, groups: seq<string>,
      sources: seq<string>)

  datatype Index = Index(groups: seq<GroupDef>, works: seq<WorkDef>)

  datatype CatalogError = InvalidLimits | GroupMissing | DirectoryOverBudget

  type Nodes = map<string, Node>

  /** The groups that have been met, and the nodes so far. */
  datatype State = State(seen: set<string>, nodes: Nodes)

  // ---------------------------------------------------------------------------
  // The trees
  // ---------------------------------------------------------------------------

  function FindGroup(gs: seq<GroupDef>, id: string): Option<GroupDef> {
    if gs == [] then None else if gs[0].id == id then Some(gs[0]) else FindGroup(gs[1..], id)
  }

  function GroupIds(x: Index): set<string> {
    set g | g in x.groups :: g.id
  }

  lemma {:induction false} FoundIsListed(gs: seq<GroupDef>, id: string)
    requires FindGroup(gs, id).Some?
    ensures FindGroup(gs, id).value in gs && FindGroup(gs, id).value.id == id
  {
    if gs[0].id != id { FoundIsListed(gs[1..], id); }
  }

  /** The nodes there are under the given references. */
  function Present(nodes: Nodes, refs: seq<Ref>): seq<Node> {
    if refs == [] then []
    else (if CatalogKey(refs[0]) in nodes then [nodes[CatalogKey(refs[0])]] else []) + Present(nodes, refs[1..])
  }

  function FragmentRefs(ids: seq<string>): seq<Ref> {
    seq(|ids|, i requires 0 <= i < |ids| => Ref.Fragment(ids[i]))
  }

  function SourceRefs(ids: seq<string>): seq<Ref> {
    seq(|ids|, i requires 0 <= i < |ids| => Ref.Source(ids[i], None))
  }

  function GroupNode(x: Index, id: string, s: State): (r: Result<(seq<Node>, State), CatalogError>)
    ensures r.Ok? ==> s.seen <= r.value.1.seen && |r.value.0| <= 1
    decreases GroupIds(x) - s.seen, 0, 0
  {
    if id in s.seen then Ok(([], s))
    else
      match FindGroup(x.groups, id)
      case None => Err(GroupMissing)
      case Some(group) =>
        FoundIsListed(x.groups, id);
        assert id in GroupIds(x);
        match GroupNodes(x, group.groups, s.(seen := s.seen + {id}))
        case Err(e) => Err(e)
        case Ok((subs, s')) =>
          var children := Present(s.nodes, FragmentRefs(group.entries)) + subs;
          if children == [] then Ok(([], s'))
          else
            var node := Branch(GroupRef(id), group.title, children);
            Ok(([node], s'.(nodes := s'.nodes[node.Key() := node])))
  }

  function GroupNodes(x: Index, ids: seq<string>, s: State): (r: Result<(seq<Node>, State), CatalogError>)
    ensures r.Ok? ==> s.seen <= r.value.1.seen
    decreases GroupIds(x) - s.seen, 1, |ids|
  {
    if ids == [] then Ok(([], s))
    else
      match GroupNode(x, ids[0], s)
      case Err(e) => Err(e)
      case Ok((first, s')) =>
        match GroupNodes(x, ids[1..], s')
        case Err(e) => Err(e)
        case Ok((more, s'')) => Ok((first + more, s''))
  }

  /** The whole trees of the works, those without children left out. */
  function WorkNodes(x: Index, ws: seq<WorkDef>, s: State): Result<(seq<Node>, State), CatalogError> {
    if ws == [] then Ok(([], s))
    else
      match GroupNodes(x, ws[0].groups, s)
      case Err(e) => Err(e)
      case Ok((groups, s')) =>
        var children := Present(s.nodes, FragmentRefs(ws[0].fragments)) + groups
                        + Present(s'.nodes, SourceRefs(ws[0].sources));
        var node := Branch(Work(ws[0].id), ws[0].title, children);
        var first := if children == [] then [] else [node];
        var s'' := if children == [] then s' else s'.(nodes := s'.nodes[node.Key() := node]);
        match WorkNodes(x, ws[1..], s'')
        case Err(e) => Err(e)
        case Ok((more, s''')) => Ok((first + more, s'''))
  }

  /** The directory shows a work and its children, and nothing below them. */
  function Shallow(n: Node): Node { Leaf(n.ref, n.title) }

  function ShallowAll(ns: seq<Node>): (r: seq<Node>)
    ensures |r| == |ns| && forall i | 0 <= i < |ns| :: r[i] == Shallow(ns[i])
  {
    if ns == [] then [] else [Shallow(ns[0])] + ShallowAll(ns[1..])
  }

  function Trim(n: Node): Node {
    if n.Branch? then Branch(n.ref, n.title, ShallowAll(n.children)) else n
  }

  function TrimAll(ns: seq<Node>): (r: seq<Node>)
    ensures |r| == |ns| && forall i | 0 <= i < |ns| :: r[i] == Trim(ns[i])
  {
    if ns == [] then [] else [Trim(ns[0])] + TrimAll(ns[1..])
  }

  /** What a catalog is built for: the limits, the counter and what is in already. */
  datatype Settings = Settings(direct: seq<Ref>, discovery: bool, input: string, maxDepth: nat, catalogBudget: nat,
                               count: seq<Node> -> nat, cost: (Ref, seq<Node>) -> nat)

  function BuildCatalog(x: Index, base: Nodes, t: Settings): Result<Build, CatalogError> {
    if t.maxDepth < 1 || t.maxDepth > 32 then Err(InvalidLimits)
    else match WorkNodes(x, x.works, State({}, base))
    case Err(e) => Err(e)
    case Ok((works, s)) =>
      var candidates := if t.discovery then TrimAll(works) else [];
      if t.discovery && t.count(candidates) > t.catalogBudget then Err(CatalogError.DirectoryOverBudget)
      else Ok(Build.Build(candidates, t.direct, s.nodes, t.discovery, t.input, t.maxDepth, t.catalogBudget,
                          t.count(candidates), t.cost))
  }

  // ---------------------------------------------------------------------------
  // Every node under its key
  // ---------------------------------------------------------------------------

  /** Fragments have no children; those of a source are sections, which have none. */
  ghost predicate Given(base: Nodes) {
    forall k <- base ::
      && base[k].Key() == k && (base[k].ref.Fragment? || base[k].ref.Source?)
      && (base[k].Branch? ==>
            base[k].ref.Source? && forall c <- base[k].children ::
              c.Leaf? && c.ref.Source? && c.Key() in base && base[c.Key()] == c)
  }

  type Levels = map<string, nat>

  /** A node stands under its key, and has its level if it has children. */
  ghost predicate StandsAt(s: State, level: Levels, n: Node, depth: nat) {
    && n.Key() in s.nodes && s.nodes[n.Key()] == n && !n.ref.Work?
    && (n.Branch? ==> n.Key() in level && level[n.Key()] == depth)
  }

  /** The trees so far: children stand under their keys, one level down. */
  ghost predicate InOrder(s: State, level: Levels) {
    && (forall k <- s.nodes :: s.nodes[k].Key() == k)
    && (forall k <- s.nodes | s.nodes[k].Branch? ::
          k in level && forall c <- s.nodes[k].children :: StandsAt(s, level, c, level[k] + 1))
    && (forall k <- s.nodes | s.nodes[k].ref.GroupRef? || s.nodes[k].ref.Work? :: s.nodes[k].Branch?)
    && (forall k <- s.nodes | s.nodes[k].ref.Fragment? :: s.nodes[k].Leaf?)
    && (forall k <- s.nodes | s.nodes[k].ref.Source? && s.nodes[k].Branch? :: level[k] == 1)
  }

  /** Later trees leave the earlier ones as they are, and their levels. */
  ghost predicate Grows(s: State, level: Levels, s': State, level': Levels) {
    && s.seen <= s'.seen
    && (forall k <- s.nodes ::
          k in s'.nodes && (if s.nodes[k].ref.Work? then s'.nodes[k].ref.Work? else s'.nodes[k] == s.nodes[k]))
    && (forall k <- level :: k in level' && level'[k] == level[k])
  }

  lemma GrowsOn(s: State, l: Levels, s': State, l': Levels, s'': State, l'': Levels)
    requires Grows(s, l, s', l') && Grows(s', l', s'', l'')
    ensures Grows(s, l, s'', l'')
  {
  }

  lemma StandsStill(s: State, level: Levels, s': State, level': Levels, n: Node, depth: nat)
    requires StandsAt(s, level, n, depth) && Grows(s, level, s', level')
    ensures StandsAt(s', level', n, depth)
  {
  }

  /** Keys of groups and of works are told from all others. */
  lemma KeysApart(a: Ref, b: Ref)
    requires CatalogKey(a) == CatalogKey(b)
    ensures a.GroupRef? <==> b.GroupRef?
    ensures a.Work? <==> b.Work?
    ensures a.GroupRef? ==> a.id == b.id
  {
    assert CatalogKey(a)[0] == CatalogKey(b)[0];
    if a.GroupRef? && b.GroupRef? {
      assert CatalogKey(a)[6..] == a.id && CatalogKey(b)[6..] == b.id;
    }
  }

  lemma {:induction false} PresentStands(s: State, level: Levels, refs: seq<Ref>, depth: nat)
    requires InOrder(s, level)
    requires forall r <- refs :: r.Fragment? || (r.Source? && depth == 1)
    ensures forall n <- Present(s.nodes, refs) :: StandsAt(s, level, n, depth)
  {
    if refs != [] {
      assert refs[0] in refs && forall r <- refs[1..] :: r in refs;
      PresentStands(s, level, refs[1..], depth);
      var k := CatalogKey(refs[0]);
      if k in s.nodes { PresentOne(s, level, refs[0], depth); }
    }
  }

  lemma PresentOne(s: State, level: Levels, r: Ref, depth: nat)
    requires InOrder(s, level) && CatalogKey(r) in s.nodes && (r.Fragment? || (r.Source? && depth == 1))
    ensures StandsAt(s, level, s.nodes[CatalogKey(r)], depth)
  {
    var n := s.nodes[CatalogKey(r)];
    KeysApart(n.ref, r);
    FirstLetters(n.ref, r);
  }

  lemma FirstLetters(a: Ref, b: Ref)
    requires CatalogKey(a) == CatalogKey(b)
    ensures a.Fragment? <==> b.Fragment?
    ensures a.Source? <==> b.Source?
  {
    assert CatalogKey(a)[0] == CatalogKey(b)[0] && CatalogKey(a)[1] == CatalogKey(b)[1];
  }

  /** A node that is put on top of what stands one level below it. */
  lemma PutOnTop(s: State, level: Levels, node: Node, depth: nat)
    requires InOrder(s, level) && node.Branch? && (node.ref.GroupRef? || node.ref.Work?)
    requires node.ref.GroupRef? ==> node.Key() !in s.nodes && node.Key() !in level
    requires node.ref.Work? && node.Key() in level ==> level[node.Key()] == depth
    requires forall c <- node.children :: StandsAt(s, level, c, depth + 1)
    ensures var s', level' := s.(nodes := s.nodes[node.Key() := node]), level[node.Key() := depth];
            InOrder(s', level') && Grows(s, level, s', level')
                && (node.ref.GroupRef? ==> StandsAt(s', level', node, depth))
  {
    var k := node.Key();
    var s', level' := s.(nodes := s.nodes[k := node]), level[k := depth];
    if k in s.nodes { KeysApart(s.nodes[k].ref, node.ref); }
    assert Grows(s, level, s', level');
    forall j <- s'.nodes | s'.nodes[j].Branch?
      ensures j in level' && forall c <- s'.nodes[j].children :: StandsAt(s', level', c, level'[j] + 1)
    {
      forall c <- s'.nodes[j].children ensures StandsAt(s', level', c, level'[j] + 1) {
        StandsStill(s, level, s', level', c, level'[j] + 1);
      }
    }
    forall j <- s'.nodes | s'.nodes[j].ref.Source? && s'.nodes[j].Branch? ensures level'[j] == 1 {
      assert j != k;
    }
  }

  /** No group has a level before it was met. */
  ghost predicate LevelsMet(s: State, level: Levels) {
    forall id: string | CatalogKey(GroupRef(id)) in level :: id in s.seen
  }

  /** Only groups that had not been met have been given a level. */
  ghost predicate OnlyNew(s: State, level: Levels, level': Levels) {
    && (forall id: string | CatalogKey(GroupRef(id)) in level' && CatalogKey(GroupRef(id)) !in level :: id !in s.seen)
    && (forall ref: Ref | !ref.GroupRef? && CatalogKey(ref) in level' :: CatalogKey(ref) in level)
  }

  /** What building some trees achieves. */
  ghost predicate Built(s: State, level: Levels, ns: seq<Node>, s': State, level': Levels, depth: nat) {
    && InOrder(s', level') && LevelsMet(s', level') && Grows(s, level, s', level') && OnlyNew(s, level, level')
    && forall n <- ns :: StandsAt(s', level', n, depth)
  }

  lemma GroupPlaced(s: State, level: Levels, node: Node, depth: nat, entries: seq<Node>, subs: seq<Node>, s': State,
                    level': Levels)
    requires node.ref.GroupRef? && node.Branch? && node.ref.id !in s.seen && LevelsMet(s, level) && InOrder(s, level)
    requires Built(s.(seen := s.seen + {node.ref.id}), level, subs, s', level', depth + 1)
    requires node.children == entries + subs && forall n <- entries :: StandsAt(s, level, n, depth + 1)
    ensures Built(s, level, [node], s'.(nodes := s'.nodes[node.Key() := node]), level'[node.Key() := depth], depth)
  {
    var s1, k := s.(seen := s.seen + {node.ref.id}), node.Key();
    var s2, level2 := s'.(nodes := s'.nodes[k := node]), level'[k := depth];
    assert Grows(s, level, s1, level);
    GrowsOn(s, level, s1, level, s', level');
    forall c <- node.children ensures StandsAt(s', level', c, depth + 1) {
      if c in entries { StandsStill(s, level, s', level', c, depth + 1); }
    }
    assert k !in level';
    if k in s'.nodes { KeysApart(s'.nodes[k].ref, node.ref); }
    PutOnTop(s', level', node, depth);
    GrowsOn(s, level, s', level', s2, level2);
    forall id: string | CatalogKey(GroupRef(id)) in level2 ensures id in s2.seen {
      if CatalogKey(GroupRef(id)) == k { KeysApart(GroupRef(id), node.ref); }
    }
    forall id: string | CatalogKey(GroupRef(id)) in level2 && CatalogKey(GroupRef(id)) !in level ensures id !in s.seen {
      if CatalogKey(GroupRef(id)) == k { KeysApart(GroupRef(id), node.ref); }
    }
    forall ref: Ref | !ref.GroupRef? && CatalogKey(ref) in level2 ensures CatalogKey(ref) in level {
      if CatalogKey(ref) == k { KeysApart(ref, node.ref); }
    }
  }

  lemma {:induction false} GroupInOrder(x: Index, id: string, s: State, level: Levels, depth: nat)
      returns (level': Levels)
    requires InOrder(s, level) && LevelsMet(s, level) && GroupNode(x, id, s).Ok?
    ensures Built(s, level, GroupNode(x, id, s).value.0, GroupNode(x, id, s).value.1, level', depth)
    decreases GroupIds(x) - s.seen, 0, 0
  {
    level' := level;
    if id !in s.seen {
      FoundIsListed(x.groups, id);
      assert id in GroupIds(x);
      var group, s1 := FindGroup(x.groups, id).value, s.(seen := s.seen + {id});
      assert InOrder(s1, level) by {
        forall k <- s.nodes | s.nodes[k].Branch?
          ensures forall c <- s.nodes[k].children :: StandsAt(s1, level, c, level[k] + 1)
        {
          forall c <- s.nodes[k].children ensures StandsAt(s1, level, c, level[k] + 1) {
            assert StandsAt(s, level, c, level[k] + 1);
          }
        }
      }
      level' := GroupsInOrder(x, group.groups, s1, level, depth + 1);
      var (subs, s') := GroupNodes(x, group.groups, s1).value;
      var entries := Present(s.nodes, FragmentRefs(group.entries));
      PresentStands(s, level, FragmentRefs(group.entries), depth + 1);
      if entries + subs != [] {
        var node := Branch(GroupRef(id), group.title, entries + subs);
        GroupPlaced(s, level, node, depth, entries, subs, s', level');
        level' := level'[node.Key() := depth];
      }
    }
  }

  lemma BuiltMore(s: State, l: Levels, first: seq<Node>, s': State, l': Levels, more: seq<Node>, s'': State,
      l'': Levels,
                  depth: nat)
    requires Built(s, l, first, s', l', depth) && Built(s', l', more, s'', l'', depth)
    ensures Built(s, l, first + more, s'', l'', depth)
  {
    GrowsOn(s, l, s', l', s'', l'');
    forall n <- first + more ensures StandsAt(s'', l'', n, depth) {
      if n in first { StandsStill(s', l', s'', l'', n, depth); }
    }
  }

  lemma {:induction false} GroupsInOrder(x: Index, ids: seq<string>, s: State, level: Levels, depth: nat)
      returns (level': Levels)
    requires InOrder(s, level) && LevelsMet(s, level) && GroupNodes(x, ids, s).Ok?
    ensures Built(s, level, GroupNodes(x, ids, s).value.0, GroupNodes(x, ids, s).value.1, level', depth)
    decreases GroupIds(x) - s.seen, 1, |ids|
  {
    level' := level;
    if ids != [] {
      var l := GroupInOrder(x, ids[0], s, level, depth);
      var (first, s') := GroupNode(x, ids[0], s).value;
      level' := GroupsInOrder(x, ids[1..], s', l, depth);
      var (more, s'') := GroupNodes(x, ids[1..], s').value;
      BuiltMore(s, level, first, s', l, more, s'', level', depth);
    }
  }

  // ---------------------------------------------------------------------------
  // The whole catalog
  // ---------------------------------------------------------------------------

  ghost predicate WorkLevels(level: Levels) {
    forall id: string | CatalogKey(Work(id)) in level :: level[CatalogKey(Work(id))] == 0
  }

  /** A work is in the catalog, at the top, and its children stand below it. */
  ghost predicate WorkStands(s: State, level: Levels, w: Node) {
    && w.Branch? && w.ref.Work? && w.Key() in s.nodes && s.nodes[w.Key()].ref.Work?
    && w.Key() in level && level[w.Key()] == 0
    && forall c <- w.children :: StandsAt(s, level, c, 1)
  }

  ghost predicate WorksBuilt(s: State, level: Levels, ws: seq<Node>, s': State, level': Levels) {
    && InOrder(s', level') && LevelsMet(s', level') && WorkLevels(level') && Grows(s, level, s', level')
    && forall w <- ws :: WorkStands(s', level', w)
  }

  lemma WorkStandsStill(s: State, level: Levels, s': State, level': Levels, w: Node)
    requires WorkStands(s, level, w) && Grows(s, level, s', level')
    ensures WorkStands(s', level', w)
  {
    forall c <- w.children ensures StandsAt(s', level', c, 1) { StandsStill(s, level, s', level', c, 1); }
  }

  lemma WorkPlaced(s: State, level: Levels, node: Node, fragments: seq<Node>, groups: seq<Node>, sources: seq<Node>,
                   s': State, level': Levels)
    requires node.ref.Work? && node.Branch? && node.children == fragments + groups + sources && WorkLevels(level)
    requires Built(s, level, groups, s', level', 1) && (forall n <- fragments :: StandsAt(s, level, n, 1))
    requires forall n <- sources :: StandsAt(s', level', n, 1)
    ensures WorksBuilt(s, level, [node], s'.(nodes := s'.nodes[node.Key() := node]), level'[node.Key() := 0])
  {
    var s2, level2 := s'.(nodes := s'.nodes[node.Key() := node]), level'[node.Key() := 0];
    forall c <- node.children ensures StandsAt(s', level', c, 1) {
      if c in fragments { StandsStill(s, level, s', level', c, 1); }
    }
    assert node.Key() in level' ==> level'[node.Key()] == 0;
    PutOnTop(s', level', node, 0);
    GrowsOn(s, level, s', level', s2, level2);
    forall c <- node.children ensures StandsAt(s2, level2, c, 1) { StandsStill(s', level', s2, level2, c, 1); }
    forall id: string | CatalogKey(GroupRef(id)) in level2 ensures id in s2.seen {
      if CatalogKey(GroupRef(id)) == node.Key() { KeysApart(GroupRef(id), node.ref); }
    }
    forall id: string | CatalogKey(Work(id)) in level2 ensures level2[CatalogKey(Work(id))] == 0 {
      assert CatalogKey(Work(id)) in level' ==> CatalogKey(Work(id)) in level;
    }
  }

  lemma WorksMore(s: State, l: Levels, first: seq<Node>, s': State, l': Levels, more: seq<Node>, s'': State,
      l'': Levels)
    requires WorksBuilt(s, l, first, s', l') && WorksBuilt(s', l', more, s'', l'')
    ensures WorksBuilt(s, l, first + more, s'', l'')
  {
    GrowsOn(s, l, s', l', s'', l'');
    forall w <- first + more ensures WorkStands(s'', l'', w) {
      if w in first { WorkStandsStill(s', l', s'', l'', w); }
    }
  }

  lemma NoWork(s: State, level: Levels, s': State, level': Levels)
    requires Built(s, level, [], s', level', 1) && WorkLevels(level)
    ensures WorksBuilt(s, level, [], s', level')
  {
    forall id: string | CatalogKey(Work(id)) in level' ensures level'[CatalogKey(Work(id))] == 0 {
      assert CatalogKey(Work(id)) in level;
    }
  }

  lemma {:induction false} WorksInOrder(x: Index, ws: seq<WorkDef>, s: State, level: Levels) returns (level': Levels)
    requires InOrder(s, level) && LevelsMet(s, level) && WorkLevels(level) && WorkNodes(x, ws, s).Ok?
    ensures WorksBuilt(s, level, WorkNodes(x, ws, s).value.0, WorkNodes(x, ws, s).value.1, level')
  {
    level' := level;
    if ws != [] {
      var l1 := GroupsInOrder(x, ws[0].groups, s, level, 1);
      var (groups, s1) := GroupNodes(x, ws[0].groups, s).value;
      var fragments := Present(s.nodes, FragmentRefs(ws[0].fragments));
      var sources := Present(s1.nodes, SourceRefs(ws[0].sources));
      PresentStands(s, level, FragmentRefs(ws[0].fragments), 1);
      PresentStands(s1, l1, SourceRefs(ws[0].sources), 1);
      var children := fragments + groups + sources;
      var node := Branch(Work(ws[0].id), ws[0].title, children);
      var first := if children == [] then [] else [node];
      var s2 := if children == [] then s1 else s1.(nodes := s1.nodes[node.Key() := node]);
      var l2 := if children == [] then l1 else l1[node.Key() := 0];
      if children == [] {
        NoWork(s, level, s1, l1);
      } else {
        WorkPlaced(s, level, node, fragments, groups, sources, s1, l1);
      }
      level' := WorksInOrder(x, ws[1..], s2, l2);
      WorksMore(s, level, first, s2, l2, WorkNodes(x, ws[1..], s2).value.0, WorkNodes(x, ws[1..], s2).value.1, level');
    }
  }

  lemma GivenInOrder(base: Nodes) returns (level: Levels)
    requires Given(base)
    ensures InOrder(State({}, base), level) && LevelsMet(State({}, base), level) && WorkLevels(level)
  {
    level := map k | k in base && base[k].Branch? :: 1;
    forall ref: Ref | CatalogKey(ref) in level ensures !ref.GroupRef? && !ref.Work? {
      KeysApart(ref, base[CatalogKey(ref)].ref);
    }
  }

  /** Where children stand under their keys, whole trees do. */
  lemma {:induction false} TreeKept(s: State, level: Levels, b: Build, n: Node)
    requires InOrder(s, level) && b.nodes == s.nodes && n.Key() in s.nodes && s.nodes[n.Key()] == n
    ensures Kept(b, n)
    decreases n
  {
    if n.Branch? {
      forall c <- n.children ensures Kept(b, c) {
        assert StandsAt(s, level, c, level[n.Key()] + 1);
        TreeKept(s, level, b, c);
      }
    }
  }

  lemma {:induction false} LeavesShown(b: Build, level: Levels, ns: seq<Node>, depth: nat, e: Exposed)
    requires AtLevel(b, level, e)
    requires forall n <- ns :: n.Leaf? && (Opens(b, n.Key()) ==> n.Key() in level && level[n.Key()] == depth)
    ensures AtLevel(b, level, ShowAll(ns, depth, e))
  {
    if ns != [] {
      assert ns[0] in ns && forall n <- ns[1..] :: n in ns;
      LeavesShown(b, level, ns[1..], depth, e[ns[0].Key() := depth]);
    }
  }

  lemma {:induction false} DirectoryShown(b: Build, s: State, level: Levels, ws: seq<Node>, e: Exposed)
    requires b.nodes == s.nodes && AtLevel(b, level, e) && forall w <- ws :: WorkStands(s, level, w)
    ensures AtLevel(b, level, ShowAll(TrimAll(ws), 0, e))
  {
    if ws != [] {
      assert ws[0] in ws && forall w <- ws[1..] :: w in ws;
      var w, c := ws[0], Trim(ws[0]);
      assert TrimAll(ws)[1..] == TrimAll(ws[1..]);
      forall n <- c.children ensures n.Leaf? && (Opens(b, n.Key()) ==> n.Key() in level && level[n.Key()] == 1) {
        var i :| 0 <= i < |c.children| && c.children[i] == n;
        assert w.children[i] in w.children && StandsAt(s, level, w.children[i], 1);
      }
      LeavesShown(b, level, c.children, 1, e[c.Key() := 0]);
      DirectoryShown(b, s, level, ws[1..], Show(c, 0, e));
    }
  }

  lemma {:induction false} LeavesWithin(b: Build, ns: seq<Node>, e: Exposed)
    requires b.maxDepth >= 1 && Within(b, e) && forall n <- ns :: n.Leaf?
    ensures Within(b, ShowAll(ns, 1, e))
  {
    if ns != [] {
      assert ns[0] in ns && forall n <- ns[1..] :: n in ns;
      LeavesWithin(b, ns[1..], e[ns[0].Key() := 1]);
    }
  }

  lemma {:induction false} DirectoryWithin(b: Build, ws: seq<Node>, e: Exposed)
    requires b.maxDepth >= 1 && Within(b, e)
    ensures Within(b, ShowAll(TrimAll(ws), 0, e))
  {
    if ws != [] {
      assert TrimAll(ws)[1..] == TrimAll(ws[1..]);
      var c := Trim(ws[0]);
      if c.Branch? {
        forall n <- c.children ensures n.Leaf? {
          var i :| 0 <= i < |c.children| && c.children[i] == n;
        }
        LeavesWithin(b, c.children, e[c.Key() := 0]);
      }
      DirectoryWithin(b, ws[1..], Show(c, 0, e));
    }
  }

  /** The directory of every catalog is within its depth. */
  lemma CatalogIsWithin(x: Index, base: Nodes, t: Settings)
    requires BuildCatalog(x, base, t).Ok?
    ensures var b := BuildCatalog(x, base, t).value; Within(b, Initial(b))
  {
    DirectoryWithin(BuildCatalog(x, base, t).value, WorkNodes(x, x.works, State({}, base)).value.0, map[]);
  }

  /** Every catalog is in order: whatever has children has one level, although fragments may be listed at several. */
  lemma CatalogIsLevelled(x: Index, base: Nodes, t: Settings) returns (level: Levels)
    requires Given(base) && BuildCatalog(x, base, t).Ok?
    ensures Levelled(BuildCatalog(x, base, t).value, level)
  {
    var b := BuildCatalog(x, base, t).value;
    var level0 := GivenInOrder(base);
    level := WorksInOrder(x, x.works, State({}, base), level0);
    var (works, s) := WorkNodes(x, x.works, State({}, base)).value;
    forall c <- b.candidates
      ensures c.Key() in b.nodes && Kept(b, b.nodes[c.Key()]) && b.nodes[c.Key()].Key() == c.Key()
      ensures c.Key() in level && level[c.Key()] == 0
    {
      var i :| 0 <= i < |works| && c == Trim(works[i]);
      assert works[i] in works && WorkStands(s, level, works[i]);
      TreeKept(s, level, b, s.nodes[c.Key()]);
    }
    DirectoryShown(b, s, level, works, map[]);
    forall k <- b.nodes | Opens(b, k)
      ensures k in level
      ensures forall c <- b.nodes[k].children | Opens(b, c.Key()) ::
                c.Key() in level && level[c.Key()] == level[k] + 1
    {
      forall c <- b.nodes[k].children | Opens(b, c.Key()) ensures c.Key() in level && level[c.Key()] == level[k] + 1 {
        assert StandsAt(s, level, c, level[k] + 1);
      }
    }
  }

  /**
   * In every catalog a plan for exact references is made and accepted exactly when each is listed
   * within the depth by a node of its recorded path or shown already, they may be chosen together,
   * and the expansions fit the directory budget.
   */
  lemma FixedPlanOfCatalog(x: Index, base: Nodes, t: Settings, refs: seq<Ref>)
    requires Given(base) && BuildCatalog(x, base, t).Ok?
    ensures var b := BuildCatalog(x, base, t).value;
            var found := DecideAll(b, Ancestors(b), refs, Initial(b));
            && (found.Ok? <==> Findable(b, Ancestors(b), refs, Initial(b).Keys))
            && (FixedPlan(b, refs).Ok?
                <==> found.Ok? && Choosable(b, refs)
                     && (Expands(found.value) ==>
                           (if b.discovery then b.directoryCost else 0) + Spent(b, found.value) <= b.catalogBudget))
  {
    var level := CatalogIsLevelled(x, base, t);
    FixedPlanExactly(BuildCatalog(x, base, t).value, level, refs);
  }

  // ---------------------------------------------------------------------------
  // A catalog that lists a fragment at two depths
  // ---------------------------------------------------------------------------

  lemma GroupOf(x: Index, id: string, s: State, group: GroupDef, subs: seq<Node>, s': State, node: Node)
    requires id !in s.seen && FindGroup(x.groups, id) == Some(group)
    requires GroupNodes(x, group.groups, s.(seen := s.seen + {id})) == Ok((subs, s'))
    requires node.Branch? && Present(s.nodes, FragmentRefs(group.entries)) + subs == node.children != []
    requires node == Branch(GroupRef(id), group.title, node.children)
    ensures GroupNode(x, id, s) == Ok(([node], s'.(nodes := s'.nodes[node.Key() := node])))
  {
  }

  lemma OneFragment(nodes: Nodes, f: Node, id: string)
    requires f.ref == Fragment(id) && f.Key() in nodes && nodes[f.Key()] == f
    ensures Present(nodes, FragmentRefs([id])) == [f] && Present(nodes, FragmentRefs([])) == []
  {
    assert FragmentRefs([id])[1..] == [] && FragmentRefs([id])[0] == Fragment(id);
  }

  lemma GroupsOne(x: Index, id: string, s: State, node: Node, s': State)
    requires GroupNode(x, id, s) == Ok(([node], s'))
    ensures GroupNodes(x, [id], s) == Ok(([node], s'))
  {
    assert [id][1..] == [] && [node] + [] == [node];
    assert GroupNodes(x, [], s') == Ok(([], s'));
  }

  lemma GroupsTwo(x: Index, a: string, c: string, s: State, n: Node, s': State, m: Node, s'': State)
    requires GroupNode(x, a, s) == Ok(([n], s')) && GroupNode(x, c, s') == Ok(([m], s''))
    ensures GroupNodes(x, [a, c], s) == Ok(([n, m], s''))
  {
    GroupsOne(x, c, s', m, s'');
    assert [a, c][1..] == [c] && [n] + [m] == [n, m];
  }

  /** A fragment that is an entry of two groups, one of them inside a third: selecting it exactly fails. */
  lemma SharedEntryIsMissed(t: Settings)
    requires t.direct == [] && t.discovery && t.maxDepth == 2 && (forall ref, ns :: t.cost(ref, ns) == 0)
    requires forall ns :: t.count(ns) <= t.catalogBudget
    ensures var f := Leaf(Fragment("f"), "");
            var groups := [GroupDef("1", "", ["f"], []), GroupDef("2", "", [], ["3"]), GroupDef("3", "", ["f"], [])];
            var x := Index(groups, [WorkDef("w", "", [], ["1", "2"], [])]);
            var built := BuildCatalog(x, map[f.Key() := f], t);
            && Given(map[f.Key() := f]) && built.Ok? && FixedPlan(built.value, [f.ref]) == Err(InvalidExpand)
            && (var byHand := [Decision(Expand, GroupRef("1")), Decision(Select, f.ref)];
                Validate(built.value, Plan(true, t.input, byHand, [Item(f.ref, Body)], false)).Ok?)
  {
    var f := Leaf(Fragment("f"), "");
    var d1, d2, d3 := GroupDef("1", "", ["f"], []), GroupDef("2", "", [], ["3"]), GroupDef("3", "", ["f"], []);
    var work := WorkDef("w", "", [], ["1", "2"], []);
    var x := Index([d1, d2, d3], [work]);
    var g1, g3 := Branch(GroupRef("1"), "", [f]), Branch(GroupRef("3"), "", [f]);
    var g2 := Branch(GroupRef("2"), "", [g3]);
    var w := Branch(Work("w"), "", [g1, g2]);
    SharedGroups(x, f, d1, d2, d3, g1, g2, g3);
    SharedWork(x, f, g1, g2, g3, w, t);
    SharedFragmentIsMissed(BuildCatalog(x, map[f.Key() := f], t).value, f, g1, g2, g3, w);
  }

  lemma SharedGroups(x: Index, f: Node, d1: GroupDef, d2: GroupDef, d3: GroupDef, g1: Node, g2: Node, g3: Node)
    requires f == Leaf(Fragment("f"), "") && x.groups == [d1, d2, d3]
    requires d1 == GroupDef("1", "", ["f"], []) && d2 == GroupDef("2", "", [], ["3"])
             && d3 == GroupDef("3", "", ["f"], [])
    requires g1 == Branch(GroupRef("1"), "", [f]) && g3 == Branch(GroupRef("3"), "", [f])
    requires g2 == Branch(GroupRef("2"), "", [g3])
    ensures GroupNodes(x, ["1", "2"], State({}, map[f.Key() := f])).Ok?
    ensures var (ns, s) := GroupNodes(x, ["1", "2"], State({}, map[f.Key() := f])).value;
            ns == [g1, g2] && s.nodes == map[f.Key() := f][g1.Key() := g1][g3.Key() := g3][g2.Key() := g2]
  {
    SharedKeys(f, g1, g2, g3, Leaf(Work("w"), ""));
    SharedFound(x, d1, d2, d3);
    var s0 := State({}, map[f.Key() := f]);
    OneFragment(s0.nodes, f, "f");
    assert s0.seen + {"1"} == {"1"} && GroupNodes(x, [], s0.(seen := {"1"})) == Ok(([], s0.(seen := {"1"})));
    assert [f] + [] == [f];
    GroupOf(x, "1", s0, d1, [], s0.(seen := {"1"}), g1);
    var s1 := State({"1"}, s0.nodes[g1.Key() := g1]);
    var s2 := s1.(seen := {"1"} + {"2"});
    OneFragment(s2.nodes, f, "f");
    assert "3" != "1" && "3" != "2" && "2" != "1" by { assert "3"[0] == '3' && "2"[0] == '2' && "1"[0] == '1'; }
    var s3 := s2.(seen := s2.seen + {"3"});
    assert GroupNodes(x, [], s3) == Ok(([], s3));
    GroupOf(x, "3", s2, d3, [], s3, g3);
    var s4 := s3.(nodes := s3.nodes[g3.Key() := g3]);
    GroupsOne(x, "3", s2, g3, s4);
    OneFragment(s1.nodes, f, "f");
    assert [] + [g3] == [g3];
    GroupOf(x, "2", s1, d2, [g3], s4, g2);
    GroupsTwo(x, "1", "2", s0, g1, s1, g2, s4.(nodes := s4.nodes[g2.Key() := g2]));
  }

  lemma SharedFound(x: Index, d1: GroupDef, d2: GroupDef, d3: GroupDef)
    requires x.groups == [d1, d2, d3] && d1.id == "1" && d2.id == "2" && d3.id == "3"
    ensures FindGroup(x.groups, "1") == Some(d1) && FindGroup(x.groups, "2") == Some(d2)
    ensures FindGroup(x.groups, "3") == Some(d3)
  {
    assert "1"[0] == '1' && "2"[0] == '2' && "3"[0] == '3';
    assert x.groups[1..] == [d2, d3] && x.groups[1..][1..] == [d3];
    assert FindGroup([d3], "3") == Some(d3) && FindGroup([d2, d3], "3") == Some(d3);
  }

  lemma SharedWork(x: Index, f: Node, g1: Node, g2: Node, g3: Node, w: Node, t: Settings)
    requires f == Leaf(Fragment("f"), "") && x.works == [WorkDef("w", "", [], ["1", "2"], [])]
    requires g1 == Branch(GroupRef("1"), "", [f]) && g3 == Branch(GroupRef("3"), "", [f])
    requires g2 == Branch(GroupRef("2"), "", [g3]) && w == Branch(Work("w"), "", [g1, g2])
    requires GroupNodes(x, ["1", "2"], State({}, map[f.Key() := f])).Ok?
    requires var (ns, s) := GroupNodes(x, ["1", "2"], State({}, map[f.Key() := f])).value;
             ns == [g1, g2] && s.nodes == map[f.Key() := f][g1.Key() := g1][g3.Key() := g3][g2.Key() := g2]
    requires t.direct == [] && t.discovery && t.maxDepth == 2 && (forall ref, ns :: t.cost(ref, ns) == 0)
    requires forall ns :: t.count(ns) <= t.catalogBudget
    ensures BuildCatalog(x, map[f.Key() := f], t).Ok?
    ensures var b := BuildCatalog(x, map[f.Key() := f], t).value;
            SharedFragment(b, f, g1, g2, g3, w) && b.discovery && b.input == t.input
  {
    SharedKeys(f, g1, g2, g3, w);
    var s0 := State({}, map[f.Key() := f]);
    var s := GroupNodes(x, ["1", "2"], s0).value.1;
    var s' := s.(nodes := s.nodes[w.Key() := w]);
    assert [] + [g1, g2] + [] == [g1, g2];
    assert Present(s0.nodes, FragmentRefs([])) == [] && Present(s.nodes, SourceRefs([])) == [];
    assert x.works[1..] == [] && WorkNodes(x, [], s') == Ok(([], s')) && [w] + [] == [w];
    assert WorkNodes(x, x.works, s0) == Ok(([w], s'));
    var l1, l2 := Leaf(GroupRef("1"), ""), Leaf(GroupRef("2"), "");
    assert ShallowAll([g1, g2]) == [l1, l2];
    assert TrimAll([w]) == [Branch(Work("w"), "", [l1, l2])];
  }
}
