/**
 * The order in which a policy's modules are emitted: depth first, imports in the order they are
 * declared, each module once and after everything it imports.
 */
module Flatten {
  import opened Common
  import opened Graph

  /** Modules that have been entered, and those that have been emitted, in order. */
  datatype Emission = Emission(entered: set<Key>, emitted: seq<Key>)

  /** Emits a module after its imports, unless it has been entered before. */
  function Emit(g: Inputs, k: Key, e: Emission): (r: Emission)
    requires k in g
    ensures e.entered <= r.entered && k in r.entered
    decreases g.Keys - e.entered, 0
  {
    if k in e.entered then e
    else
      var r := EmitImports(g, k, 0, Emission(e.entered + {k}, e.emitted));
      Emission(r.entered, r.emitted + [k])
  }

  function EmitImports(g: Inputs, k: Key, i: nat, e: Emission): (r: Emission)
    requires k in g && i <= |g[k].deps|
    ensures e.entered <= r.entered
    decreases g.Keys - e.entered, 1 + |g[k].deps| - i
  {
    if i == |g[k].deps| then e
    else
      match g[k].deps[i].pin
      case None => EmitImports(g, k, i + 1, e)
      case Some(pin) =>
        if pin.release in g then EmitImports(g, k, i + 1, Emit(g, pin.release, e))
        else EmitImports(g, k, i + 1, e)
  }

  /** Each module is emitted once, and after everything it imports. */
  ghost predicate DependencyFirst(g: Inputs, s: seq<Key>) {
    && NoDup(s)
    && forall i, b | 0 <= i < |s| && Edge(g, s[i], b) :: b in s[..i]
  }

  /** What has been entered and not yet emitted is `open`; the emitted part is in good order. */
  ghost predicate Steady(g: Inputs, e: Emission, open: set<Key>) {
    && open <= e.entered && Elems(e.emitted) == e.entered - open && DependencyFirst(g, e.emitted)
  }

  lemma EmitOne(g: Inputs, s: seq<Key>, k: Key)
    requires DependencyFirst(g, s) && k !in s && forall b | Edge(g, k, b) :: b in s
    ensures DependencyFirst(g, s + [k])
  {
    var t := s + [k];
    forall i, b | 0 <= i < |t| && Edge(g, t[i], b) ensures b in t[..i] {
      if i < |s| { assert t[..i] == s[..i]; } else { assert t[..i] == s; }
    }
  }

  /** Emitting a module whose height is below all that is open keeps the order good. */
  lemma {:induction false} EmitSteady(g: Inputs, h: map<Key, nat>, k: Key, e: Emission, open: set<Key>)
    requires Heights(g, h) && k in h && Steady(g, e, open) && forall a <- open :: a in h && h[a] > h[k]
    ensures Steady(g, Emit(g, k, e), open) && k in Emit(g, k, e).emitted
    ensures e.emitted <= Emit(g, k, e).emitted
    decreases g.Keys - e.entered, 0
  {
    assert NodeOk(g, k);
    if k in e.entered {
      assert k in Elems(e.emitted);
    } else {
      var start := Emission(e.entered + {k}, e.emitted);
      assert k !in Elems(e.emitted);
      assert Elems(start.emitted) == start.entered - (open + {k});
      ImportsSteady(g, h, k, 0, start, open + {k});
      var r := EmitImports(g, k, 0, start);
      assert k !in Elems(r.emitted);
      assert Has(g, k, 0, r.emitted);
      forall b | Edge(g, k, b) ensures b in r.emitted {
        var i :| 0 <= i < |g[k].deps| && LeadsTo(g, g[k].deps[i], b);
      }
      EmitOne(g, r.emitted, k);
      assert Elems(r.emitted + [k]) == Elems(r.emitted) + {k};
    }
  }

  lemma EmitNext(g: Inputs, k: Key, i: nat, e: Emission, next: Key)
    requires k in g && i < |g[k].deps| && LeadsTo(g, g[k].deps[i], next)
    ensures EmitImports(g, k, i, e) == EmitImports(g, k, i + 1, Emit(g, next, e))
  {
  }

  /** The imports from the `i`th on have been emitted. */
  ghost predicate Has(g: Inputs, k: Key, i: nat, s: seq<Key>)
    requires k in g
  {
    forall j | i <= j < |g[k].deps| :: g[k].deps[j].pin.Some? && g[k].deps[j].pin.value.release in s
  }

  lemma {:induction false} ImportsSteady(g: Inputs, h: map<Key, nat>, k: Key, i: nat, e: Emission, open: set<Key>)
    requires Heights(g, h) && k in h && i <= |g[k].deps| && Steady(g, e, open)
    requires forall a <- open :: a in h && h[a] >= h[k]
    ensures Steady(g, EmitImports(g, k, i, e), open) && e.emitted <= EmitImports(g, k, i, e).emitted
    ensures Has(g, k, i, EmitImports(g, k, i, e).emitted)
    decreases g.Keys - e.entered, 1 + |g[k].deps| - i
  {
    if i < |g[k].deps| {
      assert NodeOk(g, k) && DepFault(g, g[k].deps[i]).None?;
      var next := g[k].deps[i].pin.value.release;
      assert next in h && h[next] < h[k];
      EmitNext(g, k, i, e, next);
      EmitSteady(g, h, next, e, open);
      var mid := Emit(g, next, e);
      ImportsSteady(g, h, k, i + 1, mid, open);
      HasFirst(g, k, i, mid.emitted, EmitImports(g, k, i + 1, mid).emitted);
    }
  }

  lemma HasFirst(g: Inputs, k: Key, i: nat, s: seq<Key>, t: seq<Key>)
    requires k in g && i < |g[k].deps| && g[k].deps[i].pin.Some? && g[k].deps[i].pin.value.release in s
    requires s <= t && Has(g, k, i + 1, t)
    ensures Has(g, k, i, t)
  {
    assert forall x <- s :: x in t;
  }

  lemma {:induction false} EmitInReach(g: Inputs, root: Key, k: Key, e: Emission)
    requires k in Reach(g, root) && e.entered <= Reach(g, root)
    ensures Emit(g, k, e).entered <= Reach(g, root)
    decreases g.Keys - e.entered, 0
  {
    if k !in e.entered {
      ImportsInReach(g, root, k, 0, Emission(e.entered + {k}, e.emitted));
    }
  }

  lemma {:induction false} ImportsInReach(g: Inputs, root: Key, k: Key, i: nat, e: Emission)
    requires k in Reach(g, root) && i <= |g[k].deps| && e.entered <= Reach(g, root)
    ensures EmitImports(g, k, i, e).entered <= Reach(g, root)
    decreases g.Keys - e.entered, 1 + |g[k].deps| - i
  {
    if i < |g[k].deps| {
      var dep := g[k].deps[i];
      if dep.pin.Some? && dep.pin.value.release in g {
        var next := dep.pin.value.release;
        assert LeadsTo(g, dep, next) && Edge(g, k, next);
        EdgeInReach(g, root, k, next);
        EmitInReach(g, root, next, e);
        ImportsInReach(g, root, k, i + 1, Emit(g, next, e));
      } else {
        ImportsInReach(g, root, k, i + 1, e);
      }
    }
  }

  lemma EdgeInReach(g: Inputs, root: Key, a: Key, b: Key)
    requires a in Reach(g, root) && Edge(g, a, b)
    ensures b in Reach(g, root)
  {
    var p :| IsPath(g, p) && p[0] == root && Last(p) == a;
    var q := p + [b];
    assert IsPath(g, q);
    PathToIn(g, root, q);
  }

  /** What holds every import of what it holds, holds all that is in reach. */
  lemma {:induction false} EmittedReach(g: Inputs, s: seq<Key>, p: seq<Key>)
    requires DependencyFirst(g, s) && IsPath(g, p) && p[0] in s
    ensures Last(p) in s
    decreases |p|
  {
    if |p| > 1 {
      PathTail(g, p);
      var i :| 0 <= i < |s| && s[i] == p[0];
      assert p[1] in s[..i];
      EmittedReach(g, s, p[1..]);
    }
  }

  /**
   * From a root with a height, exactly the modules in reach are emitted, each once, each after
   * everything it imports, and the root last.
   */
  lemma EmitLaw(g: Inputs, h: map<Key, nat>, root: Key)
    requires Heights(g, h) && root in h
    ensures var s := Emit(g, root, Emission({}, [])).emitted;
            && Elems(s) == Reach(g, root) && DependencyFirst(g, s) && s != [] && Last(s) == root
  {
    var e := Emission({}, []);
    assert NodeOk(g, root) && IsPath(g, [root]);
    PathToIn(g, root, [root]);
    EmitSteady(g, h, root, e, {});
    EmitInReach(g, root, root, e);
    var s := Emit(g, root, e).emitted;
    forall k <- Reach(g, root) ensures k in Elems(s) {
      var p :| IsPath(g, p) && p[0] == root && Last(p) == k;
      EmittedReach(g, s, p);
    }
  }

  // ---------------------------------------------------------------------------
  // The order of emission
  // ---------------------------------------------------------------------------

  /** Everything below a module and then the module, import by import as declared, again wherever it is imported. */
  ghost function Post(g: Inputs, h: map<Key, nat>, k: Key): seq<Key>
    requires Heights(g, h) && k in h
    decreases h[k], 1, 0
  {
    assert NodeOk(g, k);
    PostImports(g, h, k, 0) + [k]
  }

  ghost function PostImports(g: Inputs, h: map<Key, nat>, k: Key, i: nat): seq<Key>
    requires Heights(g, h) && k in h && k in g && i <= |g[k].deps|
    decreases h[k], 0, 1 + |g[k].deps| - i
  {
    if i == |g[k].deps| then []
    else
      var next := ImportAt(g, h, k, i);
      Post(g, h, next) + PostImports(g, h, k, i + 1)
  }

  ghost function ImportAt(g: Inputs, h: map<Key, nat>, k: Key, i: nat): (next: Key)
    requires Heights(g, h) && k in h && k in g && i < |g[k].deps|
    ensures next in h && h[next] < h[k] && LeadsTo(g, g[k].deps[i], next)
  {
    assert NodeOk(g, k) && DepFault(g, g[k].deps[i]).None?;
    g[k].deps[i].pin.value.release
  }

  lemma {:induction false} PostIsLower(g: Inputs, h: map<Key, nat>, k: Key)
    requires Heights(g, h) && k in h
    ensures forall x <- Post(g, h, k) :: x in h && h[x] <= h[k]
    decreases h[k], 1, 0
  {
    assert NodeOk(g, k);
    PostImportsAreLower(g, h, k, 0);
  }

  lemma {:induction false} PostImportsAreLower(g: Inputs, h: map<Key, nat>, k: Key, i: nat)
    requires Heights(g, h) && k in h && k in g && i <= |g[k].deps|
    ensures forall x <- PostImports(g, h, k, i) :: x in h && h[x] < h[k]
    decreases h[k], 0, 1 + |g[k].deps| - i
  {
    if i < |g[k].deps| {
      PostIsLower(g, h, ImportAt(g, h, k, i));
      PostImportsAreLower(g, h, k, i + 1);
    }
  }

  /** What holds each import of what it holds, holds everything below what it holds. */
  lemma {:induction false} PostIsHeld(g: Inputs, h: map<Key, nat>, s: seq<Key>, k: Key)
    requires Heights(g, h) && k in h && DependencyFirst(g, s) && k in s
    ensures Elems(Post(g, h, k)) <= Elems(s)
    decreases h[k], 1, 0
  {
    assert NodeOk(g, k);
    PostImportsAreHeld(g, h, s, k, 0);
  }

  lemma {:induction false} PostImportsAreHeld(g: Inputs, h: map<Key, nat>, s: seq<Key>, k: Key, i: nat)
    requires Heights(g, h) && k in h && k in g && DependencyFirst(g, s) && k in s && i <= |g[k].deps|
    ensures Elems(PostImports(g, h, k, i)) <= Elems(s)
    decreases h[k], 0, 1 + |g[k].deps| - i
  {
    if i < |g[k].deps| {
      var next := ImportAt(g, h, k, i);
      var at :| 0 <= at < |s| && s[at] == k;
      assert Edge(g, s[at], next);
      assert next in s[..at];
      PostIsHeld(g, h, s, next);
      PostImportsAreHeld(g, h, s, k, i + 1);
    }
  }

  /** `now` is `was` and then, in order, what is new in `more`. */
  ghost predicate GrowsBy(was: seq<Key>, more: seq<Key>, now: seq<Key>) {
    now == was + Drop(Dedupe(more), Elems(was))
  }

  lemma GrowsNot(was: seq<Key>, more: seq<Key>)
    requires Elems(more) <= Elems(was)
    ensures GrowsBy(was, more, was)
  {
    DedupeFacts(more);
    KeepNone(Dedupe(more), Elems(Dedupe(more)) - Elems(was));
  }

  lemma GrowsOne(was: seq<Key>, more: seq<Key>, now: seq<Key>, k: Key)
    requires GrowsBy(was, more, now) && k !in more && k !in was
    ensures GrowsBy(was, more + [k], now + [k])
  {
    DedupeFacts(more);
    assert (more + [k])[..|more|] == more;
    assert k in Dedupe(more) <==> k in Elems(Dedupe(more));
    var d := Dedupe(more);
    var e := Elems(d + [k]) - Elems(was);
    assert Elems(d + [k]) == Elems(d) + {k};
    KeepConcat(d, [k], e);
    KeepAgree(d, Elems(d) - Elems(was), e);
    KeepAll([k], e);
    Regroup(was, Drop(d, Elems(was)), [k]);
  }

  lemma GrowsElems(was: seq<Key>, more: seq<Key>, now: seq<Key>)
    requires GrowsBy(was, more, now)
    ensures Elems(now) == Elems(was) + Elems(more)
  {
    DedupeFacts(more);
    DropElems(Dedupe(more), Elems(was));
    assert Elems(was + Drop(Dedupe(more), Elems(was))) == Elems(was) + Elems(Drop(Dedupe(more), Elems(was)));
  }

  lemma GrowsTwice(a: seq<Key>, p: seq<Key>, b: seq<Key>, q: seq<Key>, c: seq<Key>)
    requires GrowsBy(a, p, b) && GrowsBy(b, q, c)
    ensures GrowsBy(a, p + q, c)
  {
    var d, f := Dedupe(p), Dedupe(q);
    DedupeConcat(p, q);
    DedupeFacts(p);
    DedupeFacts(q);
    GrowsElems(a, p, b);
    var g := Drop(f, Elems(p));
    DropElems(f, Elems(p));
    var e := Elems(d + g) - Elems(a);
    assert Elems(d + g) == Elems(d) + Elems(g);
    KeepConcat(d, g, e);
    KeepAgree(d, e, Elems(d) - Elems(a));
    KeepKeep(f, Elems(f) - Elems(p), e);
    KeepAgree(f, (Elems(f) - Elems(p)) * e, Elems(f) - Elems(b));
    Regroup(a, Drop(d, Elems(a)), Drop(f, Elems(b)));
  }

  /** A module, and everything below it, is emitted at its first place in the whole walk. */
  lemma {:induction false} EmitGrows(g: Inputs, h: map<Key, nat>, k: Key, e: Emission, open: set<Key>)
    requires Heights(g, h) && k in h && Steady(g, e, open) && forall a <- open :: a in h && h[a] > h[k]
    ensures GrowsBy(e.emitted, Post(g, h, k), Emit(g, k, e).emitted)
    decreases g.Keys - e.entered, 0
  {
    assert NodeOk(g, k);
    if k in e.entered {
      assert k in Elems(e.emitted);
      PostIsHeld(g, h, e.emitted, k);
      GrowsNot(e.emitted, Post(g, h, k));
    } else {
      var start := Emission(e.entered + {k}, e.emitted);
      assert k !in Elems(e.emitted);
      assert Elems(start.emitted) == start.entered - (open + {k});
      ImportsGrow(g, h, k, 0, start, open + {k});
      PostImportsAreLower(g, h, k, 0);
      GrowsOne(e.emitted, PostImports(g, h, k, 0), EmitImports(g, k, 0, start).emitted, k);
    }
  }

  lemma {:induction false} ImportsGrow(g: Inputs, h: map<Key, nat>, k: Key, i: nat, e: Emission, open: set<Key>)
    requires Heights(g, h) && k in h && k in g && i <= |g[k].deps| && Steady(g, e, open)
    requires forall a <- open :: a in h && h[a] >= h[k]
    ensures GrowsBy(e.emitted, PostImports(g, h, k, i), EmitImports(g, k, i, e).emitted)
    decreases g.Keys - e.entered, 1 + |g[k].deps| - i
  {
    if i == |g[k].deps| {
      GrowsNot(e.emitted, []);
    } else {
      var next := ImportAt(g, h, k, i);
      EmitNext(g, k, i, e, next);
      EmitGrows(g, h, next, e, open);
      EmitSteady(g, h, next, e, open);
      var mid := Emit(g, next, e);
      ImportsGrow(g, h, k, i + 1, mid, open);
      GrowsTwice(e.emitted, Post(g, h, next), mid.emitted, PostImports(g, h, k, i + 1),
                 EmitImports(g, k, i + 1, mid).emitted);
    }
  }

  /**
   * The modules of a policy come in the order of the whole walk, imports in the order they are
   * declared and a module after them, each at its first place in that walk.
   */
  lemma EmitOrder(g: Inputs, h: map<Key, nat>, root: Key)
    requires Heights(g, h) && root in h
    ensures NodeOk(g, root) && Emit(g, root, Emission({}, [])).emitted == Dedupe(Post(g, h, root))
  {
    assert NodeOk(g, root);
    EmitGrows(g, h, root, Emission({}, []), {});
    var all := Dedupe(Post(g, h, root));
    KeepAll(all, Elems(all) - Elems([]));
  }
}
