/** What an accepted plan guarantees. */
module SelectionLaws {
  import opened Common
  import opened Selection

  // ---------------------------------------------------------------------------
  // Acceptance, stated item by item
  // ---------------------------------------------------------------------------

  /** An item that was shown, was not rejected in the end, is no container, and has the form its kind asks for. */
  ghost predicate ItemHolds(e: Exposed, ds: seq<Decision>, item: Item) {
    && CatalogKey(item.ref) in e && FinalDecision(ds, CatalogKey(item.ref)) != Some(Reject)
    && (item.ref.Fragment? || item.ref.Source?)
    && (item.form == Section <==> item.ref.Source? && item.ref.section.Some?)
  }

  ghost predicate DistinctItems(items: seq<Item>) {
    forall i, j | 0 <= i < j < |items| :: CatalogKey(items[i].ref) != CatalogKey(items[j].ref)
  }

  lemma {:induction false} ItemsExactly(e: Exposed, ds: seq<Decision>, before: set<string>, items: seq<Item>)
    ensures ItemsFault(e, ds, before, items) == None
            <==> && (forall i | 0 <= i < |items| :: ItemHolds(e, ds, items[i]) && CatalogKey(items[i].ref) !in before)
                 && DistinctItems(items)
    decreases |items|
  {
    if items != [] {
      var key, rest := CatalogKey(items[0].ref), items[1..];
      ItemsExactly(e, ds, before + {key}, rest);
      assert items == [items[0]] + rest;
      if (forall i | 0 <= i < |items| :: ItemHolds(e, ds, items[i]) && CatalogKey(items[i].ref) !in before)
          && DistinctItems(items) {
        forall i | 0 <= i < |rest| ensures ItemHolds(e, ds, rest[i]) && CatalogKey(rest[i].ref) !in before + {key} {
          assert rest[i] == items[i + 1];
        }
        forall i, j | 0 <= i < j < |rest| ensures CatalogKey(rest[i].ref) != CatalogKey(rest[j].ref) {
          assert rest[i] == items[i + 1] && rest[j] == items[j + 1];
        }
      }
      if ItemsFault(e, ds, before, items) == None {
        forall i, j | 0 <= i < j < |items| ensures CatalogKey(items[i].ref) != CatalogKey(items[j].ref) {
          assert items[j] == rest[j - 1] && (i > 0 ==> items[i] == rest[i - 1]);
        }
        forall i | 0 <= i < |items| ensures ItemHolds(e, ds, items[i]) && CatalogKey(items[i].ref) !in before {
          if i > 0 { assert items[i] == rest[i - 1]; }
        }
      }
    }
  }

  /** No source is taken both whole and in part, counting what is in directly. */
  ghost predicate NoOverlap(b: Build, items: seq<Item>) {
    var refs := b.direct + RefsOf(items);
    forall r <- refs, q <- refs | r.Source? && q.Source? && r.section.None? && q.section.Some? :: r.id != q.id
  }

  lemma OverlapExactly(b: Build, items: seq<Item>)
    ensures Whole(b.direct + RefsOf(items)) * InPart(b.direct + RefsOf(items)) == {} <==> NoOverlap(b, items)
  {
    var refs := b.direct + RefsOf(items);
    if Whole(refs) * InPart(refs) == {} {
      forall r <- refs, q <- refs | r.Source? && q.Source? && r.section.None? && q.section.Some? ensures r.id != q.id {
        assert r.id in Whole(refs) && q.id in InPart(refs);
        assert r.id !in Whole(refs) * InPart(refs);
      }
    }
    if NoOverlap(b, items) {
      forall id | id in Whole(refs) ensures id !in InPart(refs) {
        var r :| r in refs && r.Source? && r.section.None? && r.id == id;
      }
    }
  }

  // ---------------------------------------------------------------------------
  // Replaying with and without the budget
  // ---------------------------------------------------------------------------

  /** Replaying without counting what is spent. */
  function Free(b: Build, ds: seq<Decision>, e: Exposed): Result<Exposed, SelectionError>
    decreases |ds|
  {
    if ds == [] then Ok(e)
    else if ds[0].action == Expand then
      match Expansion(b, e, ds[0].ref)
      case Err(x) => Err(x)
      case Ok(e') => Free(b, ds[1..], e')
    else if CatalogKey(ds[0].ref) !in e then Err(UnexposedReference)
    else Free(b, ds[1..], e)
  }

  function Spent(b: Build, ds: seq<Decision>): nat {
    if ds == [] then 0 else (if ds[0].action == Expand then ExpansionCost(b, ds[0].ref) else 0) + Spent(b, ds[1..])
  }

  function Expands(ds: seq<Decision>): bool {
    exists i | 0 <= i < |ds| :: ds[i].action == Expand
  }

  /** A replay succeeds exactly when its steps do and, if anything was expanded, the sum is within the budget. */
  lemma {:induction false} ReplayExactly(b: Build, ds: seq<Decision>, e: Exposed, spent: nat, r: Exposed)
    ensures Replay(b, ds, e, spent) == Ok(r)
            <==> Free(b, ds, e) == Ok(r) && (Expands(ds) ==> spent + Spent(b, ds) <= b.catalogBudget)
    decreases |ds|
  {
    if ds != [] {
      var rest := ds[1..];
      assert ds == [ds[0]] + rest;
      assert Expands(ds) <==> ds[0].action == Expand || Expands(rest) by {
        if Expands(rest) { var i :| 0 <= i < |rest| && rest[i].action == Expand; assert ds[i + 1].action == Expand; }
        if Expands(ds) && ds[0].action != Expand {
          var i :| 0 <= i < |ds| && ds[i].action == Expand;
          assert rest[i - 1].action == Expand;
        }
      }
      if ds[0].action == Expand {
        if Expansion(b, e, ds[0].ref).Ok? {
          ReplayExactly(b, rest, Expansion(b, e, ds[0].ref).value, spent + ExpansionCost(b, ds[0].ref), r);
          SpentOfNothing(b, rest);
        }
      } else {
        ReplayExactly(b, rest, e, spent, r);
      }
    }
  }

  lemma {:induction false} SpentOfNothing(b: Build, ds: seq<Decision>)
    ensures !Expands(ds) ==> Spent(b, ds) == 0
  {
    if ds != [] {
      assert Expands(ds[1..]) ==> Expands(ds) by {
        if Expands(ds[1..]) {
          var i :| 0 <= i < |ds| - 1 && ds[1..][i].action == Expand;
          assert ds[i + 1].action == Expand;
        }
      }
      assert ds[0].action == Expand ==> Expands(ds);
      SpentOfNothing(b, ds[1..]);
    }
  }

  /** A plan is accepted exactly when it fits the catalog it was made for and every choice in it holds. */
  lemma ValidExactly(b: Build, p: Plan)
    ensures Validate(b, p).Ok?
            <==> && p.discovery == b.discovery && p.input == b.input
                 && Free(b, p.decisions, Initial(b)).Ok?
                 && (Expands(p.decisions) ==>
                       (if b.discovery then b.directoryCost else 0) + Spent(b, p.decisions) <= b.catalogBudget)
                 && (forall item <- p.selected :: ItemHolds(Free(b, p.decisions, Initial(b)).value, p.decisions, item))
                 && DistinctItems(p.selected) && NoOverlap(b, p.selected) && !(p.fallback && p.selected != [])
  {
    var free := Free(b, p.decisions, Initial(b));
    var spent := if b.discovery then b.directoryCost else 0;
    var replay := Replay(b, p.decisions, Initial(b), spent);
    if replay.Ok? { ReplayExactly(b, p.decisions, Initial(b), spent, replay.value); }
    if free.Ok? {
      ReplayExactly(b, p.decisions, Initial(b), spent, free.value);
      ItemsExactly(free.value, p.decisions, {}, p.selected);
      assert (forall item <- p.selected :: ItemHolds(free.value, p.decisions, item))
        <==> forall i | 0 <= i < |p.selected| :: ItemHolds(free.value, p.decisions, p.selected[i]);
    }
    OverlapExactly(b, p.selected);
  }

  // ---------------------------------------------------------------------------
  // Where what is shown comes from
  // ---------------------------------------------------------------------------

  function Keys(ns: seq<Node>): set<string> {
    set n | n in ns :: n.Key()
  }

  ghost predicate Expanded(ds: seq<Decision>, key: string) {
    exists i | 0 <= i < |ds| :: ds[i].action == Expand && CatalogKey(ds[i].ref) == key
  }

  /** A way down the catalog from what was shown at first, by nodes that `ds` expands. */
  ghost predicate Trail(b: Build, ds: seq<Decision>, e0: Exposed, p: seq<string>) {
    && p != [] && p[0] in e0
    && forall i | 0 <= i < |p| - 1 ::
         Expanded(ds, p[i]) && p[i] in b.nodes && b.nodes[p[i]].Branch? && p[i + 1] in Keys(b.nodes[p[i]].children)
  }

  ghost predicate HasTrail(b: Build, ds: seq<Decision>, e0: Exposed, k: string, depth: nat) {
    exists p :: Trail(b, ds, e0, p) && p[|p| - 1] == k && depth == e0[p[0]] + |p| - 1
  }

  lemma {:induction false} ShallowShows(ns: seq<Node>, depth: nat, e: Exposed)
    ensures ShowShallow(ns, depth, e).Keys == e.Keys + Keys(ns)
    ensures forall k <- ShowShallow(ns, depth, e) ::
              if k in Keys(ns) then ShowShallow(ns, depth, e)[k] == depth else ShowShallow(ns, depth, e)[k] == e[k]
    decreases |ns|
  {
    if ns != [] {
      ShallowShows(ns[1..], depth, e[ns[0].Key() := depth]);
      assert ns == [ns[0]] + ns[1..];
      assert Keys(ns) == {ns[0].Key()} + Keys(ns[1..]);
    }
  }

  lemma TrailOn(b: Build, ds: seq<Decision>, e0: Exposed, key: string, depth: nat, k: string)
    requires HasTrail(b, ds, e0, key, depth) && Expanded(ds, key) && key in b.nodes && b.nodes[key].Branch?
    requires k in Keys(b.nodes[key].children)
    ensures HasTrail(b, ds, e0, k, depth + 1)
  {
    var p :| Trail(b, ds, e0, p) && p[|p| - 1] == key && depth == e0[p[0]] + |p| - 1;
    var q := p + [k];
    forall i | 0 <= i < |q| - 1
      ensures Expanded(ds, q[i]) && q[i] in b.nodes && b.nodes[q[i]].Branch? && q[i + 1] in Keys(b.nodes[q[i]].children)
    {
      if i < |p| - 1 { assert q[i] == p[i] && q[i + 1] == p[i + 1]; } else { assert q[i] == key; }
    }
    assert Trail(b, ds, e0, q) && q[|q| - 1] == k && depth + 1 == e0[q[0]] + |q| - 1;
  }

  /** Nothing shown is deeper than the limit. */
  ghost predicate Within(b: Build, e: Exposed) {
    forall k <- e :: e[k] <= b.maxDepth
  }

  /** Something that holds of a key and its depth, and passes on to the children of what `ds` expands. */
  type Mark = (string, nat) -> bool

  ghost predicate PassesOn(b: Build, ds: seq<Decision>, mark: Mark) {
    forall key, depth: nat, k | mark(key, depth) && Expanded(ds, key) && key in b.nodes && b.nodes[key].Branch?
                           && k in Keys(b.nodes[key].children) :: mark(k, depth + 1)
  }

  ghost predicate Marked(mark: Mark, e: Exposed) {
    forall k <- e :: mark(k, e[k])
  }

  lemma ShallowMarked(b: Build, ds: seq<Decision>, mark: Mark, e: Exposed, key: string)
    requires PassesOn(b, ds, mark) && Marked(mark, e) && Within(b, e) && Expandable(b, e, key) && Expanded(ds, key)
    ensures var r := ShowShallow(b.nodes[key].children, e[key] + 1, e); Marked(mark, r) && Within(b, r)
  {
    var cs := b.nodes[key].children;
    var r := ShowShallow(cs, e[key] + 1, e);
    ShallowShows(cs, e[key] + 1, e);
    assert mark(key, e[key]);
    forall k <- r ensures mark(k, r[k]) {
      if k in Keys(cs) { assert mark(k, e[key] + 1); }
    }
  }

  lemma {:induction false} FreeMarked(b: Build, all: seq<Decision>, mark: Mark, done: nat, e: Exposed)
    requires done <= |all| && PassesOn(b, all, mark) && Marked(mark, e) && Within(b, e) && Free(b, all[done..], e).Ok?
    ensures Marked(mark, Free(b, all[done..], e).value) && Within(b, Free(b, all[done..], e).value)
    decreases |all| - done
  {
    if done < |all| {
      var d := all[done];
      assert all[done..][1..] == all[done + 1..];
      if d.action == Expand {
        var key := CatalogKey(d.ref);
        assert Expanded(all, key);
        ShallowMarked(b, all, mark, e, key);
        FreeMarked(b, all, mark, done + 1, ShowShallow(b.nodes[key].children, e[key] + 1, e));
      } else {
        FreeMarked(b, all, mark, done + 1, e);
      }
    }
  }

  ghost function TrailMark(b: Build, ds: seq<Decision>, e0: Exposed): Mark {
    (k: string, depth: nat) => HasTrail(b, ds, e0, k, depth)
  }

  /** Trails pass on to the children of what is expanded. */
  lemma TrailsPassOn(b: Build, ds: seq<Decision>, e0: Exposed)
    ensures PassesOn(b, ds, TrailMark(b, ds, e0))
  {
    forall key, depth: nat, k | HasTrail(b, ds, e0, key, depth) && Expanded(ds, key) && key in b.nodes
        && b.nodes[key].Branch?
                                && k in Keys(b.nodes[key].children)
      ensures HasTrail(b, ds, e0, k, depth + 1)
    {
      TrailOn(b, ds, e0, key, depth, k);
    }
  }

  lemma TrailsStart(b: Build, ds: seq<Decision>, e0: Exposed)
    ensures Marked(TrailMark(b, ds, e0), e0)
  {
    forall k <- e0 ensures HasTrail(b, ds, e0, k, e0[k]) {
      assert Trail(b, ds, e0, [k]) && [k][|[k]| - 1] == k;
    }
  }

  /**
   * Whatever an accepted plan chose was shown by the first directory or by a trail of the plan's
   * own expansions, no deeper than the limit; nothing is chosen twice or both whole and in part;
   * and the expansions are paid for within the directory budget.
   */
  lemma AcceptedLaw(b: Build, p: Plan)
    requires Validate(b, p).Ok? && Within(b, Initial(b))
    ensures forall item <- p.selected ::
              exists depth: nat :: depth <= b.maxDepth
                  && HasTrail(b, p.decisions, Initial(b), CatalogKey(item.ref), depth)
    ensures DistinctItems(p.selected) && NoOverlap(b, p.selected)
    ensures Expands(p.decisions) ==>
              (if b.discovery then b.directoryCost else 0) + Spent(b, p.decisions) <= b.catalogBudget
    ensures forall item <- p.selected :: item.ref.Fragment? || item.ref.Source?
  {
    ValidExactly(b, p);
    var e0, ds := Initial(b), p.decisions;
    var mark := TrailMark(b, ds, e0);
    TrailsStart(b, ds, e0);
    TrailsPassOn(b, ds, e0);
    assert ds[0..] == ds;
    FreeMarked(b, ds, mark, 0, e0);
    var e := Free(b, ds, e0).value;
    forall item <- p.selected
      ensures exists depth: nat :: depth <= b.maxDepth && HasTrail(b, ds, e0, CatalogKey(item.ref), depth)
    {
      assert ItemHolds(e, ds, item);
      var key := CatalogKey(item.ref);
      assert mark(key, e[key]) && HasTrail(b, ds, e0, key, e[key]);
    }
  }
}
