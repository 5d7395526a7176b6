/** The loops that replay a plan and that make one, against the functions of Selection and FixedSelection. */
module SelectionRun {
  import opened Common
  import opened Selection
  import opened FixedSelection

  // ---------------------------------------------------------------------------
  // Validating a plan
  // ---------------------------------------------------------------------------

  method ReplayByLoop(b: Build, ds: seq<Decision>) returns (r: Result<Exposed, SelectionError>)
    ensures r == Replay(b, ds, Initial(b), if b.discovery then b.directoryCost else 0)
  {
    var exposed := Initial(b);
    var cost: nat := if b.discovery then b.directoryCost else 0;
    ghost var goal := Replay(b, ds, exposed, cost);
    for i := 0 to |ds|
      invariant goal == Replay(b, ds[i..], exposed, cost)
    {
      var d := ds[i];
      assert ds[i..][0] == d && ds[i..][1..] == ds[i + 1..];
      if d.action == Expand {
        var next := Expansion(b, exposed, d.ref);
        if next.Err? { return Err(next.error); }
        cost := cost + ExpansionCost(b, d.ref);
        if cost > b.catalogBudget { return Err(DirectoryOverBudget); }
        exposed := next.value;
      } else if CatalogKey(d.ref) !in exposed {
        return Err(UnexposedReference);
      }
    }
    r := Ok(exposed);
  }

  /** The last word on every reference, later decisions overriding earlier ones. */
  method FinalByLoop(ds: seq<Decision>) returns (last: map<string, Action>)
    ensures forall key :: FinalDecision(ds, key) == if key in last then Some(last[key]) else None
  {
    last := map[];
    for i := 0 to |ds|
      invariant forall key :: FinalDecision(ds[..i], key) == if key in last then Some(last[key]) else None
    {
      assert ds[..i + 1][..i] == ds[..i] && ds[..i + 1][i] == ds[i];
      if ds[i].action != Expand { last := last[CatalogKey(ds[i].ref) := ds[i].action]; }
    }
    assert ds[..|ds|] == ds;
  }

  method ItemsByLoop(e: Exposed, ds: seq<Decision>, items: seq<Item>) returns (fault: Option<SelectionError>)
    ensures fault == ItemsFault(e, ds, {}, items)
  {
    var last := FinalByLoop(ds);
    var selected: set<string> := {};
    for i := 0 to |items|
      invariant ItemsFault(e, ds, {}, items) == ItemsFault(e, ds, selected, items[i..])
    {
      var item := items[i];
      var key := CatalogKey(item.ref);
      assert items[i..][0] == item && items[i..][1..] == items[i + 1..];
      if key !in e || key in selected { return Some(InvalidReference); }
      if key in last && last[key] == Reject { return Some(DecisionMismatch); }
      var wrong := FormFault(item);
      if wrong.Some? { return wrong; }
      selected := selected + {key};
    }
    fault := None;
  }

  lemma RefsMore(refs: seq<Ref>, r: Ref)
    ensures Whole(refs + [r]) == Whole(refs) + (if r.Source? && r.section.None? then {r.id} else {})
    ensures InPart(refs + [r]) == InPart(refs) + (if r.Source? && r.section.Some? then {r.id} else {})
  {
    var all := refs + [r];
    assert forall q :: q in all <==> q in refs || q == r;
  }

  /** The sources that a list of references takes whole, and those of which it takes sections. */
  method SourcesByLoop(refs: seq<Ref>) returns (whole: set<string>, parts: set<string>)
    ensures whole == Whole(refs) && parts == InPart(refs)
  {
    whole, parts := {}, {};
    for i := 0 to |refs|
      invariant whole == Whole(refs[..i]) && parts == InPart(refs[..i])
    {
      assert refs[..i + 1] == refs[..i] + [refs[i]];
      RefsMore(refs[..i], refs[i]);
      var r := refs[i];
      if r.Source? {
        if r.section.Some? { parts := parts + {r.id}; } else { whole := whole + {r.id}; }
      }
    }
    assert refs[..|refs|] == refs;
  }

  method ValidateSelectionPlan(b: Build, p: Plan) returns (r: Result<Plan, SelectionError>)
    ensures r == Validate(b, p)
  {
    if p.discovery != b.discovery { return Err(InputMismatch); }
    if p.input != b.input { return Err(InputMismatch); }
    var exposed := ReplayByLoop(b, p.decisions);
    if exposed.Err? { return Err(exposed.error); }
    var fault := ItemsByLoop(exposed.value, p.decisions, p.selected);
    if fault.Some? { return Err(fault.value); }
    var whole, parts := SourcesByLoop(b.direct + RefsOf(p.selected));
    if whole * parts != {} { return Err(OverlappingSource); }
    if p.fallback && p.selected != [] { return Err(InvalidFallback); }
    r := Ok(p);
  }

  // ---------------------------------------------------------------------------
  // Making a plan
  // ---------------------------------------------------------------------------

  function Then(ds: seq<Decision>, r: Result<(Exposed, seq<Decision>), SelectionError>)
      : Result<(Exposed, seq<Decision>), SelectionError>
  {
    match r case Err(x) => Err(x) case Ok((e, more)) => Ok((e, ds + more))
  }

  /** Expands what is needed of a path to show its goal. */
  method DescendByLoop(b: Build, path: seq<Ref>, key: string, start: Exposed)
      returns (r: Result<(Exposed, seq<Decision>), SelectionError>)
    ensures r == Descend(b, path, key, start)
  {
    var exposed, ds: seq<Decision> := start, [];
    ghost var goal := Descend(b, path, key, start);
    if goal.Ok? { assert [] + goal.value.1 == goal.value.1; }
    assert Then([], goal) == goal;
    var i := 0;
    assert path[0..] == path;
    while i < |path| && key !in exposed
      invariant i <= |path| && goal == Then(ds, Descend(b, path[i..], key, exposed))
    {
      assert path[i..][0] == path[i] && path[i..][1..] == path[i + 1..];
      if !Visible(b, exposed, CatalogKey(path[i])) {
        var next := Expansion(b, exposed, path[i]);
        if next.Err? { return Err(next.error); }
        ThenOne(ds, Decision(Expand, path[i]), Descend(b, path[i + 1..], key, next.value));
        exposed, ds := next.value, ds + [Decision(Expand, path[i])];
      }
      i := i + 1;
    }
    assert ds + [] == ds;
    r := Ok((exposed, ds));
  }

  lemma ThenOne(ds: seq<Decision>, d: Decision, r: Result<(Exposed, seq<Decision>), SelectionError>)
    ensures r.Ok? ==> Then(ds, Ok((r.value.0, [d] + r.value.1))) == Then(ds + [d], r)
  {
    if r.Ok? { assert ds + ([d] + r.value.1) == ds + [d] + r.value.1; }
  }

  function After(ds: seq<Decision>, r: Result<seq<Decision>, SelectionError>): Result<seq<Decision>, SelectionError> {
    match r case Err(x) => Err(x) case Ok(more) => Ok(ds + more)
  }

  method DecideByLoop(b: Build, refs: seq<Ref>) returns (r: Result<seq<Decision>, SelectionError>)
    ensures r == DecideAll(b, Ancestors(b), refs, Initial(b))
  {
    var exposed, paths, ds: seq<Decision> := Initial(b), Ancestors(b), [];
    ghost var goal := DecideAll(b, paths, refs, exposed);
    if goal.Ok? { assert [] + goal.value == goal.value; }
    assert After([], goal) == goal && refs[0..] == refs;
    for i := 0 to |refs|
      invariant goal == After(ds, DecideAll(b, paths, refs[i..], exposed))
    {
      var ref := refs[i];
      var key := CatalogKey(ref);
      assert refs[i..][0] == ref && refs[i..][1..] == refs[i + 1..];
      if key !in paths { return Err(InvalidReference); }
      var down := DescendByLoop(b, paths[key], key, exposed);
      if down.Err? { return Err(down.error); }
      AfterOne(ds, down.value.1 + [Decision(Select, ref)], DecideAll(b, paths, refs[i + 1..], down.value.0));
      exposed, ds := down.value.0, ds + (down.value.1 + [Decision(Select, ref)]);
    }
    assert ds + [] == ds;
    r := Ok(ds);
  }

  lemma AfterOne(ds: seq<Decision>, more: seq<Decision>, r: Result<seq<Decision>, SelectionError>)
    ensures r.Ok? ==> After(ds, Ok(more + r.value)) == After(ds + more, r)
  {
    if r.Ok? { assert ds + (more + r.value) == ds + more + r.value; }
  }

  method FixedSelectionPlan(b: Build, refs: seq<Ref>) returns (r: Result<Plan, SelectionError>)
    ensures r == FixedPlan(b, refs)
  {
    var ds := DecideByLoop(b, refs);
    if ds.Err? { return Err(ds.error); }
    r := ValidateSelectionPlan(b, PlanFor(b, refs, ds.value));
  }
}
