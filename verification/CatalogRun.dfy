/** Building the catalog with its map of nodes and its set of groups changed in place. */
module CatalogRun {
  import opened Common
  import opened Selection
  import opened FixedSelection
  import opened Catalog

  method PresentByLoop(nodes: Nodes, refs: seq<Ref>) returns (ns: seq<Node>)
    ensures ns == Present(nodes, refs)
  {
    ns := [];
    for i := 0 to |refs|
      invariant Present(nodes, refs) == ns + Present(nodes, refs[i..])
    {
      assert refs[i..][1..] == refs[i + 1..];
      if CatalogKey(refs[i]) in nodes { ns := ns + [nodes[CatalogKey(refs[i])]]; }
    }
  }

  class Builder {
    const x: Index
    var nodes: Nodes
    var seen: set<string>

    function Now(): State
      reads this
    {
      State(seen, nodes)
    }

    constructor (index: Index, base: Nodes)
      ensures x == index && Now() == State({}, base)
    {
      x, nodes, seen := index, base, {};
    }

    /** The node of a group that is met for the first time, unless nothing in it is there. */
    method GroupNode(id: string) returns (r: Result<seq<Node>, CatalogError>)
      modifies this
      ensures var spec := Catalog.GroupNode(x, id, old(Now()));
              && (spec.Ok? ==> r == Ok(spec.value.0) && Now() == spec.value.1)
              && (spec.Err? ==> r == Err(spec.error))
      decreases GroupIds(x) - seen, 0, 0
    {
      if id in seen { return Ok([]); }
      ghost var before := Now();
      seen := seen + {id};
      var group := FindGroup(x.groups, id);
      if group.None? { return Err(GroupMissing); }
      FoundIsListed(x.groups, id);
      assert id in GroupIds(x);
      var entries := PresentByLoop(nodes, FragmentRefs(group.value.entries));
      assert Now() == before.(seen := before.seen + {id});
      var subs := GroupNodes(group.value.groups);
      if subs.Err? { return Err(subs.error); }
      var children := entries + subs.value;
      if children == [] { return Ok([]); }
      var node := Branch(GroupRef(id), group.value.title, children);
      nodes := nodes[node.Key() := node];
      r := Ok([node]);
    }

    method GroupNodes(ids: seq<string>) returns (r: Result<seq<Node>, CatalogError>)
      modifies this
      ensures var spec := Catalog.GroupNodes(x, ids, old(Now()));
              && (spec.Ok? ==> r == Ok(spec.value.0) && Now() == spec.value.1)
              && (spec.Err? ==> r == Err(spec.error))
      ensures old(seen) <= seen || r.Err?
      decreases GroupIds(x) - seen, 1, |ids|
    {
      if ids == [] { return Ok([]); }
      var first := GroupNode(ids[0]);
      if first.Err? { return Err(first.error); }
      var more := GroupNodes(ids[1..]);
      if more.Err? { return Err(more.error); }
      r := Ok(first.value + more.value);
    }
  }

  ghost function After(ns: seq<Node>, r: Result<(seq<Node>, State), CatalogError>)
      : Result<(seq<Node>, State), CatalogError>
  {
    if r.Ok? then Ok((ns + r.value.0, r.value.1)) else r
  }

  lemma WorksOn(x: Index, ws: seq<WorkDef>, i: nat, ns: seq<Node>, s: State)
    requires i < |ws|
    ensures var work, groups := ws[i], GroupNodes(x, ws[i].groups, s);
            if groups.Err? then After(ns, WorkNodes(x, ws[i..], s)) == Err(groups.error)
            else
              var (subs, s') := groups.value;
              var children := Present(s.nodes, FragmentRefs(work.fragments)) + subs
                              + Present(s'.nodes, SourceRefs(work.sources));
              var node := Branch(Work(work.id), work.title, children);
              After(ns, WorkNodes(x, ws[i..], s))
              == if children == [] then After(ns, WorkNodes(x, ws[i + 1..], s'))
                 else After(ns + [node], WorkNodes(x, ws[i + 1..], s'.(nodes := s'.nodes[node.Key() := node])))
  {
    assert ws[i..][1..] == ws[i + 1..];
    var groups := GroupNodes(x, ws[i].groups, s);
    if groups.Ok? {
      var (subs, s') := groups.value;
      var children := Present(s.nodes, FragmentRefs(ws[i].fragments)) + subs
          + Present(s'.nodes, SourceRefs(ws[i].sources));
      var node := Branch(Work(ws[i].id), ws[i].title, children);
      var s'' := if children == [] then s' else s'.(nodes := s'.nodes[node.Key() := node]);
      var more := WorkNodes(x, ws[i + 1..], s'');
      if more.Ok? {
        Regroup(ns, [node], more.value.0);
        assert [] + more.value.0 == more.value.0;
      }
    }
  }

  method TrimByLoop(ns: seq<Node>) returns (r: seq<Node>)
    ensures r == TrimAll(ns)
  {
    r := [];
    for i := 0 to |ns|
      invariant TrimAll(ns) == r + TrimAll(ns[i..])
    {
      assert ns[i..][1..] == ns[i + 1..];
      r := r + [Trim(ns[i])];
    }
  }

  /** The works in turn, and the directory of them if anything is to be discovered. */
  method BuildContextCatalog(x: Index, base: Nodes, t: Settings) returns (r: Result<Build, CatalogError>)
    ensures r == BuildCatalog(x, base, t)
  {
    if t.maxDepth < 1 || t.maxDepth > 32 { return Err(InvalidLimits); }
    var b := new Builder(x, base);
    ghost var goal := WorkNodes(x, x.works, State({}, base));
    var works: seq<Node> := [];
    assert x.works[0..] == x.works && (goal.Ok? ==> [] + goal.value.0 == goal.value.0);
    for i := 0 to |x.works|
      invariant b.x == x && goal == After(works, WorkNodes(x, x.works[i..], b.Now()))
    {
      var work := x.works[i];
      WorksOn(x, x.works, i, works, b.Now());
      var fragments := PresentByLoop(b.nodes, FragmentRefs(work.fragments));
      var groups := b.GroupNodes(work.groups);
      if groups.Err? { return Err(groups.error); }
      var sources := PresentByLoop(b.nodes, SourceRefs(work.sources));
      var children := fragments + groups.value + sources;
      if children != [] {
        var node := Branch(Work(work.id), work.title, children);
        b.nodes := b.nodes[node.Key() := node];
        works := works + [node];
      }
    }
    assert WorkNodes(x, x.works[|x.works|..], b.Now()) == Ok(([], b.Now())) && works + [] == works;
    var candidates := [];
    if t.discovery { candidates := TrimByLoop(works); }
    if t.discovery && t.count(candidates) > t.catalogBudget { return Err(CatalogError.DirectoryOverBudget); }
    r := Ok(Build.Build(candidates, t.direct, b.nodes, t.discovery, t.input, t.maxDepth, t.catalogBudget,
                        t.count(candidates), t.cost));
  }
}
