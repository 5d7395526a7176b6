/** What a built catalog contains: every work and group with everything it lists, each group in one place. */
module CatalogLaws {
  import opened Common
  import opened Selection
  import opened FixedSelection
  import opened Catalog

  // ---------------------------------------------------------------------------
  // The nodes of a list of references
  // ---------------------------------------------------------------------------

  ghost function Standing(nodes: Nodes): Ref -> bool {
    (r: Ref) => CatalogKey(r) in nodes
  }

  lemma {:induction false} PresentByPlace(nodes: Nodes, refs: seq<Ref>, from: nat)
    requires from <= |refs|
    ensures var ks, ns := PlacesFrom(Standing(nodes), refs, from), Present(nodes, refs[from..]);
            && |ns| == |ks|
            && forall i | 0 <= i < |ks| ::
                 ks[i] < |refs| && CatalogKey(refs[ks[i]]) in nodes && ns[i] == nodes[CatalogKey(refs[ks[i]])]
    decreases |refs| - from
  {
    if from < |refs| {
      PresentByPlace(nodes, refs, from + 1);
      assert refs[from..][1..] == refs[from + 1..];
    }
  }

  /** The nodes of those references that have one, in order. */
  lemma PresentExactly(nodes: Nodes, refs: seq<Ref>) returns (ks: seq<nat>)
    ensures Places(Standing(nodes), refs, ks) && |Present(nodes, refs)| == |ks|
    ensures forall i | 0 <= i < |ks| :: Present(nodes, refs)[i] == nodes[CatalogKey(refs[ks[i]])]
  {
    ks := PlacesOf(Standing(nodes), refs);
    assert refs[0..] == refs;
    PresentByPlace(nodes, refs, 0);
  }

  /** Fragments and sources are the given ones. */
  ghost predicate Agrees(nodes: Nodes, base: Nodes) {
    forall r: Ref | r.Fragment? || r.Source? :: AgreesAt(nodes, base, CatalogKey(r))
  }

  ghost predicate AgreesAt(nodes: Nodes, base: Nodes, key: string) {
    (key in nodes <==> key in base) && (key in base ==> nodes[key] == base[key])
  }

  lemma {:induction false} PresentAgrees(nodes: Nodes, base: Nodes, refs: seq<Ref>)
    requires Agrees(nodes, base) && forall r <- refs :: r.Fragment? || r.Source?
    ensures Present(nodes, refs) == Present(base, refs)
  {
    if refs != [] {
      assert refs[0] in refs && forall r <- refs[1..] :: r in refs;
      assert AgreesAt(nodes, base, CatalogKey(refs[0]));
      PresentAgrees(nodes, base, refs[1..]);
    }
  }

  lemma TopAgrees(nodes: Nodes, base: Nodes, n: Node)
    requires Agrees(nodes, base) && (n.ref.GroupRef? || n.ref.Work?)
    ensures Agrees(nodes[n.Key() := n], base)
  {
    forall r: Ref | r.Fragment? || r.Source? ensures AgreesAt(nodes[n.Key() := n], base, CatalogKey(r)) {
      assert AgreesAt(nodes, base, CatalogKey(r));
      if CatalogKey(r) == CatalogKey(n.ref) { KeysApart(r, n.ref); }
    }
  }

  // ---------------------------------------------------------------------------
  // Trees
  // ---------------------------------------------------------------------------

  /** The members of `a` are among those of `b`, in the same order. */
  ghost predicate SubList(a: seq<string>, b: seq<string>) {
    a == [] || (b != [] && (SubList(a, b[1..]) || (a[0] == b[0] && SubList(a[1..], b[1..]))))
  }

  ghost predicate AllGroups(ns: seq<Node>) {
    forall i | 0 <= i < |ns| :: ns[i].ref.GroupRef?
  }

  /** The groups of some nodes. */
  ghost function GroupIdsOf(ns: seq<Node>): (ids: seq<string>)
    ensures |ids| == |ns| && forall i | 0 <= i < |ns| && ns[i].ref.GroupRef? :: ids[i] == ns[i].ref.id
  {
    seq(|ns|, i requires 0 <= i < |ns| => if ns[i].ref.GroupRef? then ns[i].ref.id else "")
  }

  /** All nodes of groups in some trees, each before those below it. */
  ghost function GroupsIn(ns: seq<Node>): seq<Node>
    decreases ns, 1
  {
    if ns == [] then [] else GroupsOf(ns[0]) + GroupsIn(ns[1..])
  }

  ghost function GroupsOf(n: Node): seq<Node>
    decreases n, 0
  {
    (if n.ref.GroupRef? then [n] else []) + if n.Branch? then GroupsIn(n.children) else []
  }

  ghost function IdsIn(ns: seq<Node>): seq<string> {
    GroupIdsOf(GroupsIn(ns))
  }

  /**
   * The node of a group: titled as its definition says, with the fragments it lists that are there,
   * in order, and then nodes of groups that it lists, in order.
   */
  ghost predicate Shape(x: Index, base: Nodes, n: Node) {
    exists def, subs ::
      && n.ref.GroupRef? && FindGroup(x.groups, n.ref.id) == Some(def)
      && n == Branch(n.ref, def.title, Present(base, FragmentRefs(def.entries)) + subs) && n.children != []
      && AllGroups(subs) && SubList(GroupIdsOf(subs), def.groups)
  }

  /** Trees of groups in which every node of a group is as it should be. */
  ghost predicate Shaped(x: Index, base: Nodes, ns: seq<Node>) {
    AllGroups(ns) && AllShaped(x, base, GroupsIn(ns))
  }

  ghost predicate AllShaped(x: Index, base: Nodes, gs: seq<Node>) {
    forall i | 0 <= i < |gs| :: Shape(x, base, gs[i])
  }

  /** Some fragment the group lists is there. */
  ghost predicate ListsSome(base: Nodes, def: GroupDef) {
    exists i :: 0 <= i < |def.entries| && CatalogKey(Ref.Fragment(def.entries[i])) in base
  }

  /** A met group is defined, the groups it lists are met as well, and it has a node if it lists a fragment. */
  ghost predicate Handled(x: Index, base: Nodes, seen: set<string>, gs: seq<string>, id: string) {
    var def := FindGroup(x.groups, id);
    && def.Some? && Elems(def.value.groups) <= seen
    && (ListsSome(base, def.value) ==> id in gs)
  }

  /** Between `seen` and `seen'`, exactly the groups `gs` have been given nodes, each one. */
  ghost predicate Placed(x: Index, base: Nodes, seen: set<string>, seen': set<string>, gs: seq<string>) {
    && seen <= seen' && NoDup(gs) && Elems(gs) <= seen' - seen
    && forall id <- seen' - seen :: Handled(x, base, seen', gs, id)
  }

  lemma PlacedOn(
    x: Index, base: Nodes, a: set<string>, b: set<string>, c: set<string>, gs: seq<string>, hs: seq<string>)
    requires Placed(x, base, a, b, gs) && Placed(x, base, b, c, hs)
    ensures Placed(x, base, a, c, gs + hs)
  {
    NoDupJoined(gs, hs);
    assert Elems(gs + hs) == Elems(gs) + Elems(hs);
    forall id <- c - a ensures Handled(x, base, c, gs + hs, id) {
      if id in b { assert Handled(x, base, b, gs, id); } else { assert Handled(x, base, c, hs, id); }
    }
  }

  lemma NoDupJoined(a: seq<string>, b: seq<string>)
    requires NoDup(a) && NoDup(b) && Elems(a) !! Elems(b)
    ensures NoDup(a + b)
  {
    var all := a + b;
    forall i, j | 0 <= i < j < |all| ensures all[i] != all[j] {
      if i < |a| <= j { assert all[i] in Elems(a) && all[j] in Elems(b); }
    }
  }

  lemma {:induction false} GroupsConcat(a: seq<Node>, b: seq<Node>)
    ensures GroupsIn(a + b) == GroupsIn(a) + GroupsIn(b)
    decreases |a|
  {
    if a == [] {
      assert a + b == b;
    } else {
      assert (a + b)[1..] == a[1..] + b;
      GroupsConcat(a[1..], b);
    }
  }

  lemma {:induction false} SectionsHaveNoGroups(ns: seq<Node>)
    requires forall n <- ns :: n.Leaf? && n.ref.Source?
    ensures GroupsIn(ns) == []
  {
    if ns != [] {
      assert forall n <- ns[1..] :: n in ns;
      assert ns[0] in ns;
      SectionsHaveNoGroups(ns[1..]);
    }
  }

  lemma {:induction false} PresentHasNoGroups(base: Nodes, refs: seq<Ref>)
    requires Given(base)
    ensures GroupsIn(Present(base, refs)) == []
  {
    if refs != [] {
      PresentHasNoGroups(base, refs[1..]);
      var k := CatalogKey(refs[0]);
      if k in base {
        if base[k].Branch? { SectionsHaveNoGroups(base[k].children); }
        assert Present(base, refs)[1..] == Present(base, refs[1..]);
      } else {
        assert Present(base, refs) == Present(base, refs[1..]);
      }
    }
  }

  lemma {:induction false} SubListMore(a: seq<string>, b: seq<string>, x: string)
    requires SubList(a, b)
    ensures SubList(a, [x] + b) && SubList([x] + a, [x] + b)
  {
    assert ([x] + b)[1..] == b && ([x] + a)[1..] == a;
  }

  lemma IdsConcat(a: seq<Node>, b: seq<Node>)
    ensures IdsIn(a + b) == IdsIn(a) + IdsIn(b)
  {
    GroupsConcat(a, b);
  }

  lemma ShapedConcat(x: Index, base: Nodes, a: seq<Node>, b: seq<Node>)
    requires Shaped(x, base, a) && Shaped(x, base, b)
    ensures Shaped(x, base, a + b)
  {
    GroupsConcat(a, b);
  }

  lemma IdsCons(n: Node, ns: seq<Node>)
    requires n.ref.GroupRef?
    ensures GroupIdsOf([n] + ns) == [n.ref.id] + GroupIdsOf(ns)
  {
  }

  // ---------------------------------------------------------------------------
  // Groups
  // ---------------------------------------------------------------------------

  lemma ListedIsPresent(base: Nodes, def: GroupDef)
    ensures ListsSome(base, def) <==> Present(base, FragmentRefs(def.entries)) != []
  {
    var refs := FragmentRefs(def.entries);
    var ks := PresentExactly(base, refs);
    if i :| 0 <= i < |def.entries| && CatalogKey(Ref.Fragment(def.entries[i])) in base {
      assert Standing(base)(refs[i]);
      assert i in ks;
    }
    if ks != [] {
      assert Standing(base)(refs[ks[0]]);
    }
  }

  lemma {:induction false} GroupExactly(x: Index, base: Nodes, id: string, s: State)
    requires Given(base) && Agrees(s.nodes, base) && GroupNode(x, id, s).Ok?
    ensures var (ns, s') := GroupNode(x, id, s).value;
            && Agrees(s'.nodes, base) && Placed(x, base, s.seen, s'.seen, IdsIn(ns)) && id in s'.seen
            && Shaped(x, base, ns) && (ns == [] || (|ns| == 1 && ns[0].ref == GroupRef(id)))
    decreases GroupIds(x) - s.seen, 0, 0
  {
    if id !in s.seen {
      FoundIsListed(x.groups, id);
      assert id in GroupIds(x);
      var def := FindGroup(x.groups, id).value;
      var s1 := s.(seen := s.seen + {id});
      GroupsExactly(x, base, def.groups, s1);
      var (subs, s2) := GroupNodes(x, def.groups, s1).value;
      PresentAgrees(s.nodes, base, FragmentRefs(def.entries));
      OneGroup(x, base, id, def, s.seen, s2.seen, subs);
      var children := Present(base, FragmentRefs(def.entries)) + subs;
      if children != [] { TopAgrees(s2.nodes, base, Branch(GroupRef(id), def.title, children)); }
    }
  }

  /** A group met for the first time, when the groups it lists have been handled. */
  lemma OneGroup(
    x: Index, base: Nodes, id: string, def: GroupDef, seen: set<string>, seen': set<string>, subs: seq<Node>)
    requires Given(base) && FindGroup(x.groups, id) == Some(def) && id !in seen
    requires Placed(x, base, seen + {id}, seen', IdsIn(subs)) && Elems(def.groups) <= seen'
    requires Shaped(x, base, subs) && SubList(GroupIdsOf(subs), def.groups)
    ensures var children := Present(base, FragmentRefs(def.entries)) + subs;
            var ns := if children == [] then [] else [Branch(GroupRef(id), def.title, children)];
            Placed(x, base, seen, seen', IdsIn(ns)) && Shaped(x, base, ns)
  {
    var own := Present(base, FragmentRefs(def.entries));
    ListedIsPresent(base, def);
    if own + subs == [] {
      assert own == [] && subs == [] && IdsIn([]) == [];
      PlacedTop(x, base, seen, seen', id, [], false);
    } else {
      var node := Branch(GroupRef(id), def.title, own + subs);
      PlacedTop(x, base, seen, seen', id, IdsIn(subs), true);
      GroupsUnder(base, node, def, subs);
      assert Shape(x, base, node);
      IdsCons(node, GroupsIn(subs));
    }
  }

  lemma GroupsUnder(base: Nodes, node: Node, def: GroupDef, subs: seq<Node>)
    requires Given(base) && node.Branch? && node.ref.GroupRef?
    requires node.children == Present(base, FragmentRefs(def.entries)) + subs
    ensures GroupsIn([node]) == [node] + GroupsIn(subs)
  {
    var own := Present(base, FragmentRefs(def.entries));
    PresentHasNoGroups(base, FragmentRefs(def.entries));
    GroupsConcat(own, subs);
    assert GroupsIn(own) + GroupsIn(subs) == GroupsIn(subs);
    assert GroupsIn([node]) == GroupsOf(node) + GroupsIn([]);
  }

  lemma PlacedTop(
    x: Index, base: Nodes, seen: set<string>, seen': set<string>, id: string, gs: seq<string>, given: bool)
    requires id !in seen && Placed(x, base, seen + {id}, seen', gs)
    requires var def := FindGroup(x.groups, id);
             def.Some? && Elems(def.value.groups) <= seen' && (ListsSome(base, def.value) ==> given)
    ensures Placed(x, base, seen, seen', if given then [id] + gs else gs)
  {
    var all := if given then [id] + gs else gs;
    assert Elems([id] + gs) == {id} + Elems(gs);
    assert NoDup([id]) && Elems([id]) == {id};
    NoDupJoined([id], gs);
    forall k <- seen' - seen ensures Handled(x, base, seen', all, k) {
      if k != id { assert Handled(x, base, seen', gs, k); }
    }
  }

  lemma {:induction false} GroupsExactly(x: Index, base: Nodes, ids: seq<string>, s: State)
    requires Given(base) && Agrees(s.nodes, base) && GroupNodes(x, ids, s).Ok?
    ensures var (ns, s') := GroupNodes(x, ids, s).value;
            && Agrees(s'.nodes, base) && Placed(x, base, s.seen, s'.seen, IdsIn(ns)) && Elems(ids) <= s'.seen
            && Shaped(x, base, ns) && SubList(GroupIdsOf(ns), ids)
    decreases GroupIds(x) - s.seen, 1, |ids|
  {
    if ids == [] {
      assert IdsIn([]) == [] && GroupIdsOf([]) == [];
    } else {
      GroupExactly(x, base, ids[0], s);
      var (first, s1) := GroupNode(x, ids[0], s).value;
      GroupsExactly(x, base, ids[1..], s1);
      var (more, s2) := GroupNodes(x, ids[1..], s1).value;
      PlacedOn(x, base, s.seen, s1.seen, s2.seen, IdsIn(first), IdsIn(more));
      IdsConcat(first, more);
      ShapedConcat(x, base, first, more);
      assert ids == [ids[0]] + ids[1..];
      NextGroup(ids[0], ids[1..], first, more);
    }
  }

  lemma NextGroup(id: string, ids: seq<string>, first: seq<Node>, more: seq<Node>)
    requires SubList(GroupIdsOf(more), ids)
    requires first == [] || (|first| == 1 && first[0].ref == GroupRef(id))
    ensures SubList(GroupIdsOf(first + more), [id] + ids)
  {
    SubListMore(GroupIdsOf(more), ids, id);
    if first == [] {
      assert first + more == more;
    } else {
      assert first == [first[0]];
      IdsCons(first[0], more);
    }
  }

  // ---------------------------------------------------------------------------
  // Works
  // ---------------------------------------------------------------------------

  /** What stands under a work: its fragments that are there, the groups met first under it, its sources. */
  ghost function Under(base: Nodes, w: WorkDef, groups: seq<Node>): seq<Node> {
    Present(base, FragmentRefs(w.fragments)) + groups + Present(base, SourceRefs(w.sources))
  }

  /** The nodes of those works that have something under them, in order. */
  ghost function WorksWith(base: Nodes, ws: seq<WorkDef>, gss: seq<seq<Node>>): seq<Node>
    requires |gss| == |ws|
  {
    if ws == [] then []
    else
      (if Under(base, ws[0], gss[0]) == [] then []
       else [Branch(Work(ws[0].id), ws[0].title, Under(base, ws[0], gss[0]))]) + WorksWith(base, ws[1..], gss[1..])
  }

  lemma {:induction false} WorksExactly(x: Index, base: Nodes, ws: seq<WorkDef>, s: State)
    returns (gss: seq<seq<Node>>)
    requires Given(base) && Agrees(s.nodes, base) && WorkNodes(x, ws, s).Ok?
    ensures var (ns, s') := WorkNodes(x, ws, s).value;
            && |gss| == |ws| && ns == WorksWith(base, ws, gss)
            && Placed(x, base, s.seen, s'.seen, IdsIn(Flat(gss)))
            && (forall j | 0 <= j < |ws| ::
                  && Shaped(x, base, gss[j]) && SubList(GroupIdsOf(gss[j]), ws[j].groups)
                  && Elems(ws[j].groups) <= s'.seen)
  {
    gss := [];
    if ws != [] {
      var w := ws[0];
      GroupsExactly(x, base, w.groups, s);
      var (groups, s1) := GroupNodes(x, w.groups, s).value;
      PresentAgrees(s.nodes, base, FragmentRefs(w.fragments));
      PresentAgrees(s1.nodes, base, SourceRefs(w.sources));
      var node := Branch(Work(w.id), w.title, Under(base, w, groups));
      TopAgrees(s1.nodes, base, node);
      var s2 := if node.children == [] then s1 else s1.(nodes := s1.nodes[node.Key() := node]);
      var rest := WorksExactly(x, base, ws[1..], s2);
      var s3 := WorkNodes(x, ws[1..], s2).value.1;
      gss := [groups] + rest;
      assert gss[1..] == rest;
      PlacedOn(x, base, s.seen, s1.seen, s3.seen, IdsIn(groups), IdsIn(Flat(rest)));
      IdsConcat(groups, Flat(rest));
      forall j | 0 <= j < |ws|
        ensures Shaped(x, base, gss[j]) && SubList(GroupIdsOf(gss[j]), ws[j].groups) && Elems(ws[j].groups) <= s3.seen
      {
        if j > 0 { assert gss[j] == rest[j - 1] && ws[j] == ws[1..][j - 1]; }
      }
    }
  }

  // ---------------------------------------------------------------------------
  // Groups that are met
  // ---------------------------------------------------------------------------

  /** `g` is the first definition with the identifier. */
  lemma {:induction false} DefinitionExactly(gs: seq<GroupDef>, id: string, g: GroupDef)
    ensures FindGroup(gs, id) == Some(g) <==> exists i :: FirstNamed(gs, id, i) && gs[i] == g
    ensures FindGroup(gs, id) == None <==> forall i | 0 <= i < |gs| :: gs[i].id != id
  {
    if gs != [] {
      var rest := gs[1..];
      DefinitionExactly(rest, id, g);
      assert forall i | 0 < i < |gs| :: gs[i] == rest[i - 1];
      if gs[0].id == id {
        assert FirstNamed(gs, id, 0);
      } else {
        forall i | FirstNamed(gs, id, i) ensures FirstNamed(rest, id, i - 1) {}
        forall i | FirstNamed(rest, id, i) ensures FirstNamed(gs, id, i + 1) {}
      }
    }
  }

  ghost predicate FirstNamed(gs: seq<GroupDef>, id: string, i: int) {
    0 <= i < |gs| && gs[i].id == id && forall j | 0 <= j < i :: gs[j].id != id
  }

  /** Each group of `p` but the first is listed by the one before it. */
  ghost predicate GroupChain(x: Index, p: seq<string>) {
    p != [] && forall i | 0 <= i < |p| - 1 :: Lists(x, p[i], p[i + 1])
  }

  ghost predicate Lists(x: Index, a: string, b: string) {
    FindGroup(x.groups, a).Some? && b in FindGroup(x.groups, a).value.groups
  }

  /** A group that a work lists, or one that is listed by such a group, and so on. */
  ghost predicate Met(x: Index, id: string) {
    exists p, w :: GroupChain(x, p) && w in x.works && p[0] in w.groups && p[|p| - 1] == id
  }

  lemma {:induction false} ChainSeen(x: Index, base: Nodes, seen: set<string>, gs: seq<string>, p: seq<string>)
    requires Placed(x, base, {}, seen, gs) && GroupChain(x, p) && p[0] in seen
    ensures p[|p| - 1] in seen
    decreases |p|
  {
    if |p| > 1 {
      assert Handled(x, base, seen, gs, p[0]) && Lists(x, p[0], p[1]);
      assert p[1] in Elems(FindGroup(x.groups, p[0]).value.groups);
      assert GroupChain(x, p[1..]) by {
        forall i | 0 <= i < |p| - 2 ensures Lists(x, p[1..][i], p[1..][i + 1]) { assert Lists(x, p[i + 1], p[i + 2]); }
      }
      ChainSeen(x, base, seen, gs, p[1..]);
    }
  }

  lemma ChainOn(x: Index, a: string, p: seq<string>)
    requires GroupChain(x, p) && Lists(x, a, p[0])
    ensures GroupChain(x, [a] + p)
  {
    var q := [a] + p;
    forall i | 0 <= i < |q| - 1 ensures Lists(x, q[i], q[i + 1]) {
      if i > 0 { assert q[i] == p[i - 1] && q[i + 1] == p[i]; }
    }
  }

  /** Building a group fails only when a chain of groups leads from it to one that is not defined. */
  lemma {:induction false} GroupFails(x: Index, id: string, s: State) returns (p: seq<string>)
    requires GroupNode(x, id, s).Err?
    ensures GroupNode(x, id, s) == Err(GroupMissing)
    ensures GroupChain(x, p) && p[0] == id && FindGroup(x.groups, p[|p| - 1]).None?
    decreases GroupIds(x) - s.seen, 0, 0
  {
    var def := FindGroup(x.groups, id);
    if def.None? {
      p := [id];
    } else {
      FoundIsListed(x.groups, id);
      assert id in GroupIds(x);
      var q := GroupsFail(x, def.value.groups, s.(seen := s.seen + {id}));
      ChainOn(x, id, q);
      p := [id] + q;
    }
  }

  lemma {:induction false} GroupsFail(x: Index, ids: seq<string>, s: State) returns (p: seq<string>)
    requires GroupNodes(x, ids, s).Err?
    ensures GroupNodes(x, ids, s) == Err(GroupMissing)
    ensures GroupChain(x, p) && p[0] in ids && FindGroup(x.groups, p[|p| - 1]).None?
    decreases GroupIds(x) - s.seen, 1, |ids|
  {
    assert ids == [ids[0]] + ids[1..];
    if GroupNode(x, ids[0], s).Err? {
      p := GroupFails(x, ids[0], s);
    } else {
      p := GroupsFail(x, ids[1..], GroupNode(x, ids[0], s).value.1);
    }
  }

  lemma {:induction false} WorksFail(x: Index, ws: seq<WorkDef>, s: State) returns (p: seq<string>, w: WorkDef)
    requires WorkNodes(x, ws, s).Err?
    ensures WorkNodes(x, ws, s) == Err(GroupMissing)
    ensures GroupChain(x, p) && w in ws && p[0] in w.groups && FindGroup(x.groups, p[|p| - 1]).None?
  {
    if GroupNodes(x, ws[0].groups, s).Err? {
      w := ws[0];
      p := GroupsFail(x, w.groups, s);
    } else {
      var (groups, s1) := GroupNodes(x, ws[0].groups, s).value;
      var children := Present(s.nodes, FragmentRefs(ws[0].fragments)) + groups
        + Present(s1.nodes, SourceRefs(ws[0].sources));
      var node := Branch(Work(ws[0].id), ws[0].title, children);
      var s2 := if children == [] then s1 else s1.(nodes := s1.nodes[node.Key() := node]);
      p, w := WorksFail(x, ws[1..], s2);
    }
  }

  // ---------------------------------------------------------------------------
  // The catalog
  // ---------------------------------------------------------------------------

  /** A node as the directory shows it: its children without theirs. */
  ghost predicate ShownAs(n: Node, shown: Node) {
    && shown.ref == n.ref && shown.title == n.title && (shown.Branch? <==> n.Branch?)
    && (n.Branch? ==>
          && |shown.children| == |n.children|
          && forall i | 0 <= i < |n.children| :: shown.children[i] == Leaf(n.children[i].ref, n.children[i].title))
  }

  /**
   * A catalog is built exactly when its depth is from 1 to 32, every group that is met is defined,
   * and the directory, if there is one, is within the budget; the other outcomes are reported in
   * that order.
   */
  lemma CatalogOutcome(x: Index, base: Nodes, t: Settings)
    requires Given(base)
    ensures var r := BuildCatalog(x, base, t);
            && (r == Err(InvalidLimits) <==> !(1 <= t.maxDepth <= 32))
            && (1 <= t.maxDepth <= 32 ==> (r == Err(GroupMissing) <==> exists id :: Undefined(x, id)))
            && (r.Ok? && t.discovery ==> t.count(r.value.candidates) <= t.catalogBudget)
  {
    var s := State({}, base);
    if WorkNodes(x, x.works, s).Err? {
      var p, w := WorksFail(x, x.works, s);
      DefinitionExactly(x.groups, p[|p| - 1], GroupDef("", "", [], []));
      assert Met(x, p[|p| - 1]) && Undefined(x, p[|p| - 1]);
    } else {
      assert Agrees(base, base);
      var gss := WorksExactly(x, base, x.works, s);
      forall id | Met(x, id) ensures !Undefined(x, id) {
        MetIsHandled(x, base, WorkNodes(x, x.works, s).value.1.seen, gss, id);
      }
    }
  }

  ghost predicate Undefined(x: Index, id: string) {
    Met(x, id) && forall i | 0 <= i < |x.groups| :: x.groups[i].id != id
  }

  lemma MetIsHandled(x: Index, base: Nodes, seen: set<string>, gss: seq<seq<Node>>, id: string)
    requires Placed(x, base, {}, seen, IdsIn(Flat(gss))) && Met(x, id)
    requires forall j | 0 <= j < |x.works| :: Elems(x.works[j].groups) <= seen
    ensures Handled(x, base, seen, IdsIn(Flat(gss)), id)
    ensures exists i | 0 <= i < |x.groups| :: x.groups[i].id == id
  {
    var p, w :| GroupChain(x, p) && w in x.works && p[0] in w.groups && p[|p| - 1] == id;
    assert p[0] in Elems(w.groups);
    ChainSeen(x, base, seen, IdsIn(Flat(gss)), p);
    assert Handled(x, base, seen, IdsIn(Flat(gss)), id);
    FoundIsListed(x.groups, id);
  }

  /**
   * A built catalog has the works that have something under them, in order, each with the
   * fragments, groups and sources it lists; every group in it stands once, and as its definition
   * says; and every group that is met and lists a fragment that is there stands in it.
   */
  lemma CatalogExactly(x: Index, base: Nodes, t: Settings) returns (gss: seq<seq<Node>>)
    requires Given(base) && BuildCatalog(x, base, t).Ok?
    ensures var b, works := BuildCatalog(x, base, t).value,
                if |gss| == |x.works| then WorksWith(base, x.works, gss) else [];
            && |gss| == |x.works|
            && (if t.discovery then
                  |b.candidates| == |works| && forall i | 0 <= i < |works| :: ShownAs(works[i], b.candidates[i])
                else b.candidates == [])
            && b.direct == t.direct && b.discovery == t.discovery && b.input == t.input && b.maxDepth == t.maxDepth
            && b.catalogBudget == t.catalogBudget && b.cost == t.cost && Agrees(b.nodes, base)
    ensures forall j | 0 <= j < |x.works| :: Shaped(x, base, gss[j]) && SubList(GroupIdsOf(gss[j]), x.works[j].groups)
    ensures NoDup(IdsIn(Flat(gss)))
    ensures forall id | Met(x, id) :: && FindGroup(x.groups, id).Some?
                                      && (ListsSome(base, FindGroup(x.groups, id).value) ==> id in IdsIn(Flat(gss)))
  {
    var s := State({}, base);
    assert Agrees(base, base);
    gss := WorksExactly(x, base, x.works, s);
    var (works, s') := WorkNodes(x, x.works, s).value;
    WorksAgree(x, base, x.works, s);
    forall id | Met(x, id) ensures Handled(x, base, s'.seen, IdsIn(Flat(gss)), id) {
      MetIsHandled(x, base, s'.seen, gss, id);
    }
  }

  lemma {:induction false} WorksAgree(x: Index, base: Nodes, ws: seq<WorkDef>, s: State)
    requires Given(base) && Agrees(s.nodes, base) && WorkNodes(x, ws, s).Ok?
    ensures Agrees(WorkNodes(x, ws, s).value.1.nodes, base)
  {
    if ws != [] {
      GroupsExactly(x, base, ws[0].groups, s);
      var (groups, s1) := GroupNodes(x, ws[0].groups, s).value;
      var children := Present(s.nodes, FragmentRefs(ws[0].fragments)) + groups
        + Present(s1.nodes, SourceRefs(ws[0].sources));
      var node := Branch(Work(ws[0].id), ws[0].title, children);
      TopAgrees(s1.nodes, base, node);
      var s2 := if children == [] then s1 else s1.(nodes := s1.nodes[node.Key() := node]);
      WorksAgree(x, base, ws[1..], s2);
    }
  }
}
