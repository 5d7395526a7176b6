/** What a selector has been shown and when a plan is accepted, told step by step. */
module ReplayLaws {
  import opened Common
  import opened Selection
  import opened SelectionLaws

  // ---------------------------------------------------------------------------
  // What is shown at first
  // ---------------------------------------------------------------------------

  /** A node's key and how deep it stands. */
  datatype Sight = Sight(key: string, depth: nat)

  /** The nodes of a forest, each before its children, in order. */
  ghost function Sights(ns: seq<Node>, depth: nat): seq<Sight>
    decreases ns, 1
  {
    if ns == [] then [] else SightsOf(ns[0], depth) + Sights(ns[1..], depth)
  }

  ghost function SightsOf(n: Node, depth: nat): seq<Sight>
    decreases n, 0
  {
    [Sight(CatalogKey(n.ref), depth)] + if n.Branch? then Sights(n.children, depth + 1) else []
  }

  /** `e` after `seen`: each key at the depth it was last seen, and otherwise as it was. */
  ghost function Seen(e: Exposed, seen: seq<Sight>): Exposed {
    if seen == [] then e else Seen(e, seen[..|seen| - 1])[seen[|seen| - 1].key := seen[|seen| - 1].depth]
  }

  lemma {:induction false} SeenConcat(e: Exposed, a: seq<Sight>, b: seq<Sight>)
    ensures Seen(e, a + b) == Seen(Seen(e, a), b)
    decreases |b|
  {
    if b == [] {
      assert a + b == a;
    } else {
      assert (a + b)[..|a + b| - 1] == a + b[..|b| - 1];
      SeenConcat(e, a, b[..|b| - 1]);
    }
  }

  lemma {:induction false} ShowIsSeen(n: Node, depth: nat, e: Exposed)
    ensures Show(n, depth, e) == Seen(e, SightsOf(n, depth))
    decreases n, 0
  {
    var own := Sight(CatalogKey(n.ref), depth);
    assert Seen(e, [own]) == e[own.key := depth] by {
      assert [own][..0] == [];
    }
    if n.Branch? {
      ShowAllIsSeen(n.children, depth + 1, e[own.key := depth]);
      SeenConcat(e, [own], Sights(n.children, depth + 1));
    } else {
      assert [own] + [] == [own];
    }
  }

  lemma {:induction false} ShowAllIsSeen(ns: seq<Node>, depth: nat, e: Exposed)
    ensures ShowAll(ns, depth, e) == Seen(e, Sights(ns, depth))
    decreases ns, 1
  {
    if ns != [] {
      ShowIsSeen(ns[0], depth, e);
      ShowAllIsSeen(ns[1..], depth, Show(ns[0], depth, e));
      SeenConcat(e, SightsOf(ns[0], depth), Sights(ns[1..], depth));
    }
  }

  /** `k` was last seen at `depth`. */
  ghost predicate LastSeen(seen: seq<Sight>, k: string, depth: nat) {
    exists i :: 0 <= i < |seen| && seen[i] == Sight(k, depth) && forall j | i < j < |seen| :: seen[j].key != k
  }

  lemma {:induction false} SeenLast(seen: seq<Sight>, k: string, depth: nat)
    ensures k in Seen(map[], seen) && Seen(map[], seen)[k] == depth <==> LastSeen(seen, k, depth)
    decreases |seen|
  {
    if seen != [] {
      var last, front := |seen| - 1, seen[..|seen| - 1];
      SeenLast(front, k, depth);
      if seen[last].key == k {
        if seen[last].depth == depth { assert seen[last] == Sight(k, depth); }
      } else {
        if i :| 0 <= i < |seen| && seen[i] == Sight(k, depth) && forall j | i < j < |seen| :: seen[j].key != k {
          assert front[i] == seen[i] && forall j | i < j < |front| :: front[j] == seen[j];
        }
        if i :| 0 <= i < |front| && front[i] == Sight(k, depth) && forall j | i < j < |front| :: front[j].key != k {
          assert seen[i] == front[i] && forall j | i < j < |front| :: seen[j] == front[j];
        }
      }
    }
  }

  /** The directory shows each of its nodes, the last of several with one key, as deep as it stands. */
  lemma InitialExactly(b: Build, k: string, depth: nat)
    ensures k in Initial(b) && Initial(b)[k] == depth <==> LastSeen(Sights(b.candidates, 0), k, depth)
  {
    ShowAllIsSeen(b.candidates, 0, map[]);
    SeenLast(Sights(b.candidates, 0), k, depth);
  }

  // ---------------------------------------------------------------------------
  // Step by step
  // ---------------------------------------------------------------------------

  /** A decision takes what has been shown from `e` to `f`. */
  ghost predicate Steps(b: Build, d: Decision, e: Exposed, f: Exposed) {
    var key := CatalogKey(d.ref);
    && key in e
    && if d.action == Expand then
         && key in b.nodes && b.nodes[key].Branch? && e[key] < b.maxDepth
         && f.Keys == e.Keys + Shallow(b, key)
         && forall k <- f :: f[k] == if k in Shallow(b, key) then e[key] + 1 else e[k]
       else f == e
  }

  /** The keys of the children of a branch. */
  ghost function Shallow(b: Build, key: string): set<string>
    requires key in b.nodes && b.nodes[key].Branch?
  {
    set n | n in b.nodes[key].children :: CatalogKey(n.ref)
  }

  lemma StepExactly(b: Build, d: Decision, e: Exposed, f: Exposed)
    ensures Free(b, [d], e) == Ok(f) <==> Steps(b, d, e, f)
  {
    var key := CatalogKey(d.ref);
    assert [d][1..] == [];
    if d.action == Expand && Expandable(b, e, key) {
      var g := ShowShallow(b.nodes[key].children, e[key] + 1, e);
      ShallowShows(b.nodes[key].children, e[key] + 1, e);
      ChildKeys(b.nodes[key].children);
      assert Keys(b.nodes[key].children) == Shallow(b, key);
      if Steps(b, d, e, f) {
        assert f.Keys == g.Keys;
        forall k <- f ensures f[k] == g[k] {}
        assert f == g;
      }
    }
  }

  lemma ChildKeys(ns: seq<Node>)
    ensures Keys(ns) == set n | n in ns :: CatalogKey(n.ref)
  {
  }

  /** What has been shown before and after each decision. */
  ghost predicate Run(b: Build, ds: seq<Decision>, es: seq<Exposed>) {
    |es| == |ds| + 1 && forall i | 0 <= i < |ds| :: Steps(b, ds[i], es[i], es[i + 1])
  }

  lemma FreeCons(b: Build, ds: seq<Decision>, e: Exposed)
    requires ds != []
    ensures var first := Free(b, [ds[0]], e);
            Free(b, ds, e) == if first.Ok? then Free(b, ds[1..], first.value) else first
  {
    assert [ds[0]][1..] == [];
  }

  lemma {:induction false} RunOfFree(b: Build, ds: seq<Decision>, e: Exposed) returns (es: seq<Exposed>)
    requires Free(b, ds, e).Ok?
    ensures Run(b, ds, es) && es[0] == e && es[|ds|] == Free(b, ds, e).value
    decreases |ds|
  {
    if ds == [] {
      es := [e];
    } else {
      FreeCons(b, ds, e);
      var next := Free(b, [ds[0]], e).value;
      StepExactly(b, ds[0], e, next);
      var rest := RunOfFree(b, ds[1..], next);
      es := [e] + rest;
      forall i | 0 <= i < |ds| ensures Steps(b, ds[i], es[i], es[i + 1]) {
        if i > 0 { assert ds[i] == ds[1..][i - 1] && es[i] == rest[i - 1] && es[i + 1] == rest[i]; }
      }
    }
  }

  lemma {:induction false} FreeOfRun(b: Build, ds: seq<Decision>, es: seq<Exposed>)
    requires Run(b, ds, es)
    ensures Free(b, ds, es[0]) == Ok(es[|ds|])
    decreases |ds|
  {
    if ds != [] {
      assert Steps(b, ds[0], es[0], es[1]);
      StepExactly(b, ds[0], es[0], es[1]);
      FreeCons(b, ds, es[0]);
      forall i | 0 <= i < |ds| - 1 ensures Steps(b, ds[1..][i], es[1..][i], es[1..][i + 1]) {
        assert Steps(b, ds[i + 1], es[i + 1], es[i + 2]);
      }
      FreeOfRun(b, ds[1..], es[1..]);
    }
  }

  // ---------------------------------------------------------------------------
  // Costs and last words
  // ---------------------------------------------------------------------------

  /** What each decision costs: an expansion its children, anything else nothing. */
  ghost predicate Charges(b: Build, ds: seq<Decision>, cs: seq<nat>) {
    && |cs| == |ds|
    && forall i | 0 <= i < |ds| ::
         var key := CatalogKey(ds[i].ref);
         cs[i] == if ds[i].action == Expand && key in b.nodes && b.nodes[key].Branch?
                  then b.cost(ds[i].ref, b.nodes[key].children) else 0
  }

  ghost function Total(cs: seq<nat>): nat {
    if cs == [] then 0 else cs[0] + Total(cs[1..])
  }

  lemma {:induction false} SpentExactly(b: Build, ds: seq<Decision>) returns (cs: seq<nat>)
    ensures Charges(b, ds, cs) && Spent(b, ds) == Total(cs)
  {
    cs := [];
    if ds != [] {
      var rest := SpentExactly(b, ds[1..]);
      var first := if ds[0].action == Expand then ExpansionCost(b, ds[0].ref) else 0;
      cs := [first] + rest;
      assert forall i | 0 < i < |ds| :: ds[i] == ds[1..][i - 1] && cs[i] == rest[i - 1];
      assert cs[1..] == rest;
    }
  }

  lemma {:induction false} ChargesOnce(b: Build, ds: seq<Decision>, cs: seq<nat>, ks: seq<nat>)
    requires Charges(b, ds, cs) && Charges(b, ds, ks)
    ensures cs == ks
  {
  }

  /** The `i`th decision is the last to select or reject the reference. */
  ghost predicate LastWord(ds: seq<Decision>, key: string, i: int) {
    && 0 <= i < |ds| && About(ds[i], key)
    && forall j | i < j < |ds| :: !About(ds[j], key)
  }

  ghost predicate About(d: Decision, key: string) {
    d.action != Expand && CatalogKey(d.ref) == key
  }

  /** Something was decided about a reference, and the last word was to reject it. */
  ghost predicate RejectedInTheEnd(ds: seq<Decision>, key: string) {
    exists i :: LastWord(ds, key, i) && ds[i].action == Reject
  }

  lemma LastWordBefore(ds: seq<Decision>, key: string, i: int)
    requires ds != [] && !About(ds[|ds| - 1], key)
    ensures LastWord(ds, key, i) <==> LastWord(ds[..|ds| - 1], key, i)
  {
    var front := ds[..|ds| - 1];
    assert forall j | 0 <= j < |front| :: front[j] == ds[j];
    if LastWord(front, key, i) {
      forall j | i < j < |ds| ensures !About(ds[j], key) {
        assert j < |front| ==> !About(front[j], key);
      }
    }
  }

  lemma {:induction false} FinalExactly(ds: seq<Decision>, key: string)
    ensures FinalDecision(ds, key) == Some(Reject) <==> RejectedInTheEnd(ds, key)
    decreases |ds|
  {
    if ds != [] {
      var last, front := |ds| - 1, ds[..|ds| - 1];
      if About(ds[last], key) {
        assert LastWord(ds, key, last);
        forall i | LastWord(ds, key, i) ensures i == last {}
      } else {
        FinalExactly(front, key);
        forall i ensures LastWord(ds, key, i) <==> LastWord(front, key, i) { LastWordBefore(ds, key, i); }
      }
    }
  }

  // ---------------------------------------------------------------------------
  // Acceptance
  // ---------------------------------------------------------------------------

  /** An item shown in the end, not rejected in the end, a fragment or a source, in the form its kind asks for. */
  ghost predicate MayBeChosen(e: Exposed, ds: seq<Decision>, item: Item) {
    && CatalogKey(item.ref) in e && !RejectedInTheEnd(ds, CatalogKey(item.ref))
    && ((item.ref.Fragment? && item.form == Body)
        || (item.ref.Source? && item.ref.section.None? && item.form == Body)
        || (item.ref.Source? && item.ref.section.Some? && item.form == Section))
  }

  /** No source is taken both whole and in part, among what is in directly and what is chosen. */
  ghost predicate WholeOrPart(b: Build, items: seq<Item>) {
    forall id, section :: !(TakenIn(b, items, Source(id, None)) && TakenIn(b, items, Source(id, Some(section))))
  }

  ghost predicate TakenIn(b: Build, items: seq<Item>, ref: Ref) {
    ref in b.direct || exists i :: 0 <= i < |items| && items[i].ref == ref
  }

  lemma {:induction false} RefsListed(items: seq<Item>)
    ensures |RefsOf(items)| == |items| && forall i | 0 <= i < |items| :: RefsOf(items)[i] == items[i].ref
  {
    if items != [] { RefsListed(items[1..]); }
  }

  lemma TakenExactly(b: Build, items: seq<Item>, ref: Ref)
    ensures TakenIn(b, items, ref) <==> ref in b.direct + RefsOf(items)
  {
    RefsListed(items);
    if i :| 0 <= i < |items| && items[i].ref == ref { assert RefsOf(items)[i] == ref; }
  }

  lemma OverlapIsBoth(b: Build, items: seq<Item>)
    ensures NoOverlap(b, items) <==> WholeOrPart(b, items)
  {
    forall ref ensures TakenIn(b, items, ref) <==> ref in b.direct + RefsOf(items) { TakenExactly(b, items, ref); }
    var refs := b.direct + RefsOf(items);
    if WholeOrPart(b, items) {
      forall r <- refs, q <- refs | r.Source? && q.Source? && r.section.None? && q.section.Some? ensures r.id != q.id {
        assert r == Source(r.id, None) && q == Source(q.id, Some(q.section.value));
        assert TakenIn(b, items, r) && TakenIn(b, items, q);
      }
    }
    if NoOverlap(b, items) {
      forall id, section
        ensures !(TakenIn(b, items, Source(id, None)) && TakenIn(b, items, Source(id, Some(section))))
      {
        var r, q := Source(id, None), Source(id, Some(section));
        assert r in refs && q in refs ==> r.id != q.id;
      }
    }
  }

  lemma ChosenExactly(e: Exposed, ds: seq<Decision>, item: Item)
    ensures ItemHolds(e, ds, item) <==> MayBeChosen(e, ds, item)
  {
    FinalExactly(ds, CatalogKey(item.ref));
  }

  /**
   * A plan is accepted exactly when it is for this catalog; its decisions can be run from the
   * directory, each about something shown, each expansion of a branch that is not too deep; what
   * was expanded, if anything, and the directory that was read cost no more than the budget; every
   * item may be chosen, none twice, no source whole and in part; and a fallback chooses nothing.
   */
  lemma AcceptedExactly(b: Build, p: Plan)
    ensures Validate(b, p).Ok?
            <==> && p.discovery == b.discovery && p.input == b.input
                 && (exists es, cs ::
                       && Run(b, p.decisions, es) && es[0] == Initial(b) && Charges(b, p.decisions, cs)
                       && ((exists i :: 0 <= i < |p.decisions| && p.decisions[i].action == Expand) ==>
                             (if b.discovery then b.directoryCost else 0) + Total(cs) <= b.catalogBudget)
                       && forall item <- p.selected :: MayBeChosen(es[|p.decisions|], p.decisions, item))
                 && (forall i, j | 0 <= i < j < |p.selected| ::
                       CatalogKey(p.selected[i].ref) != CatalogKey(p.selected[j].ref))
                 && WholeOrPart(b, p.selected) && (p.fallback ==> p.selected == [])
  {
    ValidExactly(b, p);
    OverlapIsBoth(b, p.selected);
    var ds := p.decisions;
    var cs := SpentExactly(b, ds);
    forall e, item ensures ItemHolds(e, ds, item) <==> MayBeChosen(e, ds, item) { ChosenExactly(e, ds, item); }
    if Free(b, ds, Initial(b)).Ok? {
      var es := RunOfFree(b, ds, Initial(b));
      assert Run(b, ds, es) && es[0] == Initial(b) && Charges(b, ds, cs);
    }
    forall es, ks | Run(b, ds, es) && es[0] == Initial(b) && Charges(b, ds, ks)
      ensures Free(b, ds, Initial(b)) == Ok(es[|ds|]) && ks == cs
    {
      FreeOfRun(b, ds, es);
      ChargesOnce(b, ds, cs, ks);
    }
  }

  // ---------------------------------------------------------------------------
  // Keys
  // ---------------------------------------------------------------------------

  /** Identifiers in which the separators of keys do not occur where they would be ambiguous. */
  ghost predicate PlainRef(ref: Ref) {
    (ref.Source? ==> '/' !in ref.id) && (ref.Story? ==> ':' !in ref.kind)
  }

  lemma SameSplit(a: string, b: string, c: string, d: string, x: char)
    requires x !in a && x !in c && a + [x] + b == c + [x] + d
    ensures a == c && b == d
  {
    var s, t := a + [x] + b, c + [x] + d;
    assert s[|a|] == x && t[|c|] == x;
    assert forall i | 0 <= i < |a| :: s[i] == a[i];
    assert forall i | 0 <= i < |c| :: t[i] == c[i];
    assert |a| == |c|;
    assert a == s[..|a|] && c == t[..|c|] && b == s[|a| + 1..] && d == t[|c| + 1..];
  }

  /** The name of a kind of reference, and what identifies it within the kind. */
  ghost function KindName(ref: Ref): string {
    match ref case Work(_) => "work" case Fragment(_) => "fragment" case GroupRef(_) => "group"
    case Source(_, _) => "source" case Story(_, _) => "story"
  }

  ghost function Rest(ref: Ref): string {
    match ref case Work(id) => id case Fragment(id) => id case GroupRef(id) => id
    case Source(id, section) => id + (match section case None => "" case Some(s) => "/section:" + s)
    case Story(kind, id) => kind + ":" + id
  }

  lemma KeySplits(ref: Ref)
    ensures CatalogKey(ref) == KindName(ref) + ":" + Rest(ref) && ':' !in KindName(ref)
  {
    match ref
    case Work(id) => assert "work:" == "work" + ":";
    case Fragment(id) => assert "fragment:" == "fragment" + ":";
    case GroupRef(id) => assert "group:" == "group" + ":";
    case Source(id, section) => assert "source:" == "source" + ":";
    case Story(kind, id) => assert "story:" == "story" + ":";
  }

  lemma SectionsSplit(r: Ref, q: Ref)
    requires r.Source? && q.Source? && '/' !in r.id && '/' !in q.id && Rest(r) == Rest(q)
    ensures r == q
  {
    var tail := "section:";
    RestOfSource(r);
    RestOfSource(q);
    if r.section.Some? && q.section.Some? {
      SameSplit(r.id, tail + r.section.value, q.id, tail + q.section.value, '/');
      assert r.section.value == (tail + r.section.value)[8..] && q.section.value == (tail + q.section.value)[8..];
    }
  }

  lemma RestOfSource(r: Ref)
    requires r.Source?
    ensures r.section.Some? ==> Rest(r) == r.id + "/" + ("section:" + r.section.value) && '/' in Rest(r)
    ensures r.section.None? ==> Rest(r) == r.id
  {
    if r.section.Some? {
      assert "/section:" == "/" + "section:";
      assert Rest(r) == r.id + "/" + ("section:" + r.section.value);
      assert Rest(r)[|r.id|] == '/';
    } else {
      assert r.id + "" == r.id;
    }
  }

  /** Two references have one key only when they are one reference. */
  lemma KeysIdentifyRefs(r: Ref, q: Ref)
    requires PlainRef(r) && PlainRef(q) && CatalogKey(r) == CatalogKey(q)
    ensures r == q
  {
    KeySplits(r);
    KeySplits(q);
    SameSplit(KindName(r), Rest(r), KindName(q), Rest(q), ':');
    match r
    case Work(_) =>
    case Fragment(_) =>
    case GroupRef(_) =>
    case Source(_, _) => SectionsSplit(r, q);
    case Story(_, _) => SameSplit(r.kind, r.id, q.kind, q.id, ':');
  }
}
