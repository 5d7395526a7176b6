/** What the scopes of an accepted build and an accepted policy are, told by releases, dependencies and chains. */
module GraphLaws {
  import opened Common
  import opened Graph
  import opened GraphRun
  import opened Scope
  import opened FlattenWalk

  // ---------------------------------------------------------------------------
  // Scopes
  // ---------------------------------------------------------------------------

  lemma MaterialPins(g: Inputs, a: Key, b: Key)
    ensures Edge(Material(g), a, b) <==> Pins(g, true, a, b)
  {
    if a in g {
      var all, kept := g[a].deps, Material(g)[a].deps;
      FilterMembers(NotDerived(), all);
      if Edge(Material(g), a, b) {
        var i :| 0 <= i < |kept| && LeadsTo(Material(g), kept[i], b);
        assert kept[i] in all;
        var j :| 0 <= j < |all| && all[j] == kept[i];
        assert all[j].domain != Derivation;
      }
      if Pins(g, true, a, b) {
        var i :| 0 <= i < |all| && all[i].domain != Derivation && all[i].pin.Some? && all[i].pin.value.release == b;
        FilterHolds(NotDerived(), all, i);
        var j :| 0 <= j < |kept| && kept[j] == all[i];
        assert LeadsTo(Material(g), kept[j], b);
      }
    }
  }

  lemma MaterialUsed(g: Inputs, root: Key, k: Key)
    ensures Used(g, true, root, k) <==> k in Reach(Material(g), root)
  {
    var m := Material(g);
    forall a, b ensures Edge(m, a, b) <==> Pins(g, true, a, b) { MaterialPins(g, a, b); }
    if Used(g, true, root, k) {
      var p :| Chain(g, true, p) && p[0] == root && p[|p| - 1] == k;
      assert IsPath(m, p);
      PathToIn(m, root, p);
      assert Last(p) == k;
    }
    if k in Reach(m, root) {
      var p :| IsPath(m, p) && p[0] == root && Last(p) == k;
      assert Chain(g, true, p) && p[|p| - 1] == k;
    }
  }

  /** Of what `root` uses without going through derivations, no two releases have one name. */
  ghost predicate OneOfEachName(g: Inputs, root: Key) {
    forall a <- g, b <- g | Used(g, true, root, a) && Used(g, true, root, b) && g[a].ref == g[b].ref :: a == b
  }

  lemma NamesExactly(g: Inputs, root: Key)
    ensures OnePerRef(Material(g), Reach(Material(g), root)) <==> OneOfEachName(g, root)
  {
    var m := Material(g);
    forall k ensures Used(g, true, root, k) <==> k in Reach(m, root) { MaterialUsed(g, root, k); }
    if OnePerRef(m, Reach(m, root)) {
      forall a <- g, b <- g | Used(g, true, root, a) && Used(g, true, root, b) && g[a].ref == g[b].ref ensures a == b {
        assert m[a].ref == m[b].ref;
      }
    }
  }

  /** A release that a used one derives from. */
  ghost predicate Source(g: Inputs, root: Key, h: Key) {
    exists k, i ::
      && k in g && Used(g, false, root, k) && 0 <= i < |g[k].deps| && g[k].deps[i].domain == Derivation
      && g[k].deps[i].pin.Some? && g[k].deps[i].pin.value.release == h
  }

  lemma SourcesExactly(g: Inputs, root: Key, h: Key)
    ensures h in Historical(g, Reach(g, root)) <==> Source(g, root, h)
  {
    forall k ensures Used(g, false, root, k) <==> k in Reach(g, root) { UsedIsReach(g, root, k); }
  }

  /**
   * A legal build's scopes hold exactly when, in what the root uses and in what each source uses,
   * derivations left aside, every name stands for one release.
   */
  lemma ScopesExactly(g: Inputs, root: Key)
    ensures ScopesHold(g, root)
            <==> OneOfEachName(g, root) && forall h | Source(g, root, h) :: OneOfEachName(g, h)
  {
    var m := Material(g);
    NamesExactly(g, root);
    forall h ensures h in Historical(g, Reach(g, root)) <==> Source(g, root, h) { SourcesExactly(g, root, h); }
    forall h ensures SourceHolds(m, h) <==> OneOfEachName(g, h) { NamesExactly(g, h); }
  }

  // ---------------------------------------------------------------------------
  // Policies
  // ---------------------------------------------------------------------------

  /** A policy is accepted exactly when it is a legal build in which every name stands for one release. */
  lemma AcceptableExactly(g: Inputs, root: Key)
    ensures Acceptable(g, root)
            <==> && root in g && AllMet(g, root) && ChainsWithin(g, root) && 1 + |UsedDeps(g, root)| <= 5000
                 && forall a <- g, b <- g ::
                      Used(g, false, root, a) && Used(g, false, root, b) && g[a].ref == g[b].ref ==> a == b
  {
    LegalExactly(g, root);
    forall k ensures Used(g, false, root, k) <==> k in Reach(g, root) { UsedIsReach(g, root, k); }
  }

  /** One dependency that is not met, anywhere in what is used, refuses the build and the policy. */
  lemma UnmetRefuses(g: Inputs, root: Key, k: Key, i: nat)
    requires k in g && Used(g, false, root, k) && i < |g[k].deps| && !Met(g, g[k].deps[i])
    ensures !Legal(g, root) && !Acceptable(g, root)
  {
    LegalExactly(g, root);
    AcceptableExactly(g, root);
  }

  /** The first thing that is amiss with a dependency, in the order of the checks, is what is reported. */
  lemma FaultIsFirst(g: Inputs, dep: Dep)
    ensures DepFault(g, dep) == None <==> Met(g, dep)
    ensures dep.pin.None? <==> DepFault(g, dep) == Some(Unpinned)
    ensures dep.pin.Some? && dep.pin.value.release !in g <==> DepFault(g, dep) == Some(Missing)
    ensures dep.pin.Some? && dep.pin.value.release in g ==>
              var target := g[dep.pin.value.release];
              && (target.ref != dep.ref <==> DepFault(g, dep) == Some(RefMismatch))
              && (target.ref == dep.ref && target.digest != dep.pin.value.digest
                  <==> DepFault(g, dep) == Some(DigestMismatch))
              && (target.ref == dep.ref && target.digest == dep.pin.value.digest
                  && dep.accepts != Any && dep.accepts != Only(target.kind)
                  <==> DepFault(g, dep) == Some(TypeMismatch))
  {
  }
}
