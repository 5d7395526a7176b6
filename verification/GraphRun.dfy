/** The depth-first walk that checks a build: each release once, with cached heights and a visit count. */
module GraphRun {
  import opened Common
  import opened Graph

  /** The fields of a walk, as values, and what holds of them while `path` is being visited. */
  datatype Walk = Walk(nodes: set<Key>, heights: map<Key, nat>, walked: set<(Key, nat)>)
  {
    ghost predicate Sound(g: Inputs, root: Key, path: seq<Key>) {
      && Heights(g, heights) && nodes == heights.Keys + Elems(path) && heights.Keys !! Elems(path)
      && nodes <= Reach(g, root)
      && Edges(g, heights.Keys) <= walked <= Edges(g, nodes)
    }

    /** Nothing recorded is lost, and only releases new to the walk have had dependencies walked. */
    ghost predicate Extends(before: Walk) {
      && before.nodes <= nodes && before.walked <= walked
      && (forall k <- before.heights :: k in heights && heights[k] == before.heights[k])
      && (forall e <- walked - before.walked :: e.0 !in before.nodes)
    }
  }

  /** Dependencies walked so far, with the release in progress above the highest of their targets. */
  ghost predicate Progress(g: Inputs, w: Walk, key: Key, i: nat, height: nat)
    requires key in g && i <= |g[key].deps|
  {
    && (forall j | 0 <= j < i :: DepFault(g, g[key].deps[j]).None?)
    && (forall j | 0 <= j < i :: Target(g, key, j) in w.heights && w.heights[Target(g, key, j)] < height)
    && (height > 0 ==> exists j | 0 <= j < i :: w.heights[Target(g, key, j)] == height - 1)
    && (forall j | 0 <= j < |g[key].deps| :: (key, j) in w.walked <==> j < i)
  }

  function Target(g: Inputs, key: Key, j: nat): Key
    requires key in g && j < |g[key].deps| && DepFault(g, g[key].deps[j]).None?
  {
    g[key].deps[j].pin.value.release
  }

  lemma EdgesGrow(g: Inputs, s: set<Key>, t: set<Key>)
    requires s <= t
    ensures Edges(g, s) <= Edges(g, t)
  {
  }

  lemma TooManyIsIllegal(g: Inputs, root: Key, w: Walk, path: seq<Key>)
    requires w.Sound(g, root, path) && 1 + |w.walked| > MAX_GRAPH_INSTANCES
    ensures !Legal(g, root)
  {
    EdgesGrow(g, w.nodes, Reach(g, root));
    SubsetCard(w.walked, Edges(g, Reach(g, root)));
  }

  lemma TooDeepIsIllegal(g: Inputs, root: Key, h: map<Key, nat>, path: seq<Key>)
    requires Heights(g, h) && IsPath(g, path) && path[0] == root
    requires |path| - 1 + (if Last(path) in h then h[Last(path)] else 0) > MAX_GRAPH_DEPTH
    ensures !Legal(g, root)
  {
    if Last(path) in h {
      var more := LongestPath(g, h, Last(path));
      PathJoin(g, path, more);
      assert |path + more[1..]| - 1 > MAX_GRAPH_DEPTH;
    }
  }

  lemma UnsoundIsIllegal(g: Inputs, root: Key, path: seq<Key>)
    requires IsPath(g, path) && path[0] == root && !NodeOk(g, Last(path))
    ensures !Legal(g, root)
  {
    PathToIn(g, root, path);
  }

  lemma CycleFound(g: Inputs, root: Key, ancestors: seq<Key>, key: Key)
    requires IsPath(g, ancestors + [key]) && (ancestors + [key])[0] == root && key in ancestors
    ensures !Legal(g, root)
  {
    var i :| 0 <= i < |ancestors| && ancestors[i] == key;
    CycleIsIllegal(g, root, ancestors + [key], i);
  }

  lemma FinishFalls(g: Inputs, w: Walk, key: Key, height: nat)
    requires Heights(g, w.heights) && NodeOk(g, key) && key !in w.heights
    requires Progress(g, w, key, |g[key].deps|, height)
    ensures AllOk(g, w.heights[key := height]) && Falls(g, w.heights[key := height])
  {
    var h := w.heights[key := height];
    forall k <- h, i | 0 <= i < |g[k].deps|
      ensures g[k].deps[i].pin.value.release in h && h[g[k].deps[i].pin.value.release] < h[k]
    {
      if k == key {
        assert Target(g, key, i) in w.heights;
      } else {
        assert g[k].deps[i].pin.value.release in w.heights;
      }
    }
  }

  lemma FinishRests(g: Inputs, w: Walk, key: Key, height: nat, k: Key)
    requires Heights(g, w.heights) && NodeOk(g, key) && key !in w.heights
    requires Progress(g, w, key, |g[key].deps|, height)
    requires AllOk(g, w.heights[key := height]) && Falls(g, w.heights[key := height])
    requires k in w.heights[key := height]
    ensures Rests(g, w.heights[key := height], k)
  {
    var h := w.heights[key := height];
    if k == key && height > 0 {
      var j :| 0 <= j < |g[key].deps| && w.heights[Target(g, key, j)] == height - 1;
      assert h[g[k].deps[j].pin.value.release] == h[k] - 1;
    } else if k != key && h[k] > 0 {
      assert Rests(g, w.heights, k);
      var i :| 0 <= i < |g[k].deps| && w.heights[g[k].deps[i].pin.value.release] == w.heights[k] - 1;
      assert g[k].deps[i].pin.value.release in w.heights;
      assert h[g[k].deps[i].pin.value.release] == h[k] - 1;
    }
  }

  /** A release whose dependencies have all been walked takes its height. */
  lemma Finish(g: Inputs, w: Walk, key: Key, height: nat)
    requires Heights(g, w.heights) && NodeOk(g, key) && key !in w.heights
    requires Progress(g, w, key, |g[key].deps|, height)
    ensures Heights(g, w.heights[key := height])
  {
    FinishFalls(g, w, key, height);
    var h := w.heights[key := height];
    forall k <- h ensures Rests(g, h, k) {
      FinishRests(g, w, key, height, k);
    }
  }

  /** A release is entered: it is in progress, and none of its dependencies have been walked. */
  lemma Enter(g: Inputs, root: Key, w: Walk, ancestors: seq<Key>, key: Key)
    requires w.Sound(g, root, ancestors) && key !in w.nodes && key in Reach(g, root)
    ensures var w' := w.(nodes := w.nodes + {key});
            w'.Sound(g, root, ancestors + [key]) && w'.Extends(w) && Progress(g, w', key, 0, 0)
  {
    assert Elems(ancestors + [key]) == Elems(ancestors) + {key};
    EdgesGrow(g, w.nodes, w.nodes + {key});
    forall j | 0 <= j < |g[key].deps| ensures (key, j) !in w.walked {
      assert (key, j) !in Edges(g, w.nodes);
    }
  }

  /** One more dependency is walked. */
  lemma WalkOne(g: Inputs, root: Key, w: Walk, path: seq<Key>, key: Key, i: nat, height: nat)
    requires w.Sound(g, root, path) && key in w.nodes && key in g && i < |g[key].deps| && Progress(g, w, key, i, height)
    ensures var w' := w.(walked := w.walked + {(key, i)});
            w'.Sound(g, root, path) && |w'.walked| == |w.walked| + 1
            && (forall j | 0 <= j < |g[key].deps| :: (key, j) in w'.walked <==> j <= i)
  {
    assert (key, i) in Edges(g, w.nodes);
    assert (key, i) !in w.walked;
  }

  /** After the target has been visited, the release in progress stands above it as well. */
  lemma Climb(g: Inputs, before: Walk, after: Walk, key: Key, i: nat, height: nat, height': nat)
    requires key in g && i < |g[key].deps| && key in before.nodes && after.Extends(before)
    requires Progress(g, before.(walked := before.walked - {(key, i)}), key, i, height)
    requires (key, i) in before.walked && DepFault(g, g[key].deps[i]).None? && Target(g, key, i) in after.heights
    requires height' == if height > after.heights[Target(g, key, i)] then height
             else 1 + after.heights[Target(g, key, i)]
    ensures Progress(g, after, key, i + 1, height')
  {
    assert forall e <- after.walked - before.walked :: e.0 != key;
    forall j | 0 <= j < |g[key].deps| ensures (key, j) in after.walked <==> j < i + 1 {
      assert (key, j) !in after.walked - before.walked;
    }
    if height' > 0 {
      if height' == height {
        var j :| 0 <= j < i && before.heights[Target(g, key, j)] == height - 1;
        assert after.heights[Target(g, key, j)] == height' - 1;
      } else {
        assert after.heights[Target(g, key, i)] == height' - 1;
      }
    }
  }

  /** The release is left: it has its height and is no longer in progress. */
  lemma Leave(g: Inputs, root: Key, w: Walk, ancestors: seq<Key>, key: Key, height: nat)
    requires w.Sound(g, root, ancestors + [key]) && NodeOk(g, key) && key !in Elems(ancestors)
    requires Progress(g, w, key, |g[key].deps|, height)
    ensures w.(heights := w.heights[key := height]).Sound(g, root, ancestors)
  {
    assert Elems(ancestors + [key]) == Elems(ancestors) + {key};
    Finish(g, w, key, height);
    var h := w.heights[key := height];
    assert h.Keys == w.heights.Keys + {key};
    forall e | e in Edges(g, h.Keys) ensures e in w.walked {
      if e.0 != key { assert e in Edges(g, w.heights.Keys); }
    }
  }

  lemma LeftExtends(before: Walk, last: Walk, key: Key, height: nat)
    requires last.Extends(before) && key !in before.heights
    ensures last.(heights := last.heights[key := height]).Extends(before)
  {
  }

  lemma PathOn(g: Inputs, path: seq<Key>, target: Key)
    requires IsPath(g, path) && Edge(g, Last(path), target)
    ensures IsPath(g, path + [target]) && (path + [target])[0] == path[0]
  {
  }

  lemma StillExtends(before: Walk, start: Walk, after: Walk, key: Key, i: nat)
    requires start.Extends(before) && key !in before.nodes
    requires after.Extends(start.(walked := start.walked + {(key, i)}))
    ensures after.Extends(before)
  {
    Extended(before, start.(walked := start.walked + {(key, i)}), after);
  }

  lemma Extended(a: Walk, b: Walk, c: Walk)
    requires b.Extends(a) && c.Extends(b)
    ensures c.Extends(a)
  {
    forall e <- c.walked - a.walked ensures e.0 !in a.nodes {
      if e !in b.walked { assert e in c.walked - b.walked; } else { assert e in b.walked - a.walked; }
    }
  }

  // ---------------------------------------------------------------------------
  // The walk
  // ---------------------------------------------------------------------------

  /** Each yanked release that has been entered has been warned of once. */
  ghost predicate Warns(g: Inputs, nodes: set<Key>, warnings: seq<Key>) {
    NoDup(warnings) && nodes <= g.Keys && Elems(warnings) == set k | k in nodes && g[k].yanked
  }

  lemma WarnOne(g: Inputs, nodes: set<Key>, warnings: seq<Key>, key: Key)
    requires Warns(g, nodes, warnings) && key in g && key !in nodes
    ensures Warns(g, nodes + {key}, if g[key].yanked then warnings + [key] else warnings)
  {
    assert key !in Elems(warnings);
    assert Elems(warnings + [key]) == Elems(warnings) + {key};
  }

  class Builder {
    const g: Inputs
    var nodes: set<Key>
    var heights: map<Key, nat>
    var visits: nat
    var warnings: seq<Key>
    ghost var walked: set<(Key, nat)>

    ghost function State(): Walk
      reads this
    {
      Walk(nodes, heights, walked)
    }

    ghost predicate Warned()
      reads this
    {
      Warns(g, nodes, warnings)
    }

    constructor (inputs: Inputs)
      ensures g == inputs && State() == Walk({}, map[], {}) && visits == 0 && Warned()
    {
      g, nodes, heights, visits, warnings := inputs, {}, map[], 0, [];
      walked := {};
    }

    /**
     * Visits a release, `ancestors` being those that led to it. It fails only when the build is
     * not legal; when it succeeds the release has its height, within the depth that is left.
     */
    method Visit(key: Key, ancestors: seq<Key>, ghost root: Key) returns (r: Result<(), GraphError>)
      requires key in g && IsPath(g, ancestors + [key]) && (ancestors + [key])[0] == root
      requires State().Sound(g, root, ancestors) && visits == |walked| && Warned()
      modifies this
      decreases g.Keys - nodes, 1
      ensures r.Err? ==> !Legal(g, root)
      ensures r.Ok? ==> State().Sound(g, root, ancestors) && State().Extends(old(State())) && visits == |walked| + 1
      ensures r.Ok? ==> key in heights && |ancestors| + heights[key] <= MAX_GRAPH_DEPTH
      ensures r.Ok? ==> visits <= MAX_GRAPH_INSTANCES && Warned()
    {
      var rel := g[key];
      ghost var path := ancestors + [key];
      PathToIn(g, root, path);
      if rel.stateFault.Some? {
        UnsoundIsIllegal(g, root, path);
        return Err(rel.stateFault.value);
      }
      if key in ancestors {
        CycleFound(g, root, ancestors, key);
        return Err(Cycle);
      }
      visits := visits + 1;
      if visits > MAX_GRAPH_INSTANCES {
        TooManyIsIllegal(g, root, State(), ancestors);
        return Err(TooLarge);
      }
      if |ancestors| + (if key in heights then heights[key] else 0) > MAX_GRAPH_DEPTH {
        TooDeepIsIllegal(g, root, heights, path);
        return Err(TooDeep);
      }
      if key in nodes { return Ok(()); }
      if rel.fault.Some? {
        UnsoundIsIllegal(g, root, path);
        return Err(rel.fault.value);
      }
      r := VisitDeps(key, ancestors, root);
    }

    /** Walks one dependency of a release in progress; the result is the height the release then needs. */
    method VisitDep(key: Key, ancestors: seq<Key>, i: nat, height: nat, ghost root: Key, ghost before: Walk)
        returns (r: Result<nat, GraphError>)
      requires key in g && i < |g[key].deps| && key in nodes && key !in before.nodes && State().Extends(before)
      requires IsPath(g, ancestors + [key]) && (ancestors + [key])[0] == root
      requires State().Sound(g, root, ancestors + [key]) && Progress(g, State(), key, i, height)
      requires visits == |walked| + 1 <= MAX_GRAPH_INSTANCES && |ancestors| + height <= MAX_GRAPH_DEPTH && Warned()
      modifies this
      decreases g.Keys - nodes, 2
      ensures r.Err? ==> !Legal(g, root)
      ensures r.Ok? ==> State().Sound(g, root, ancestors + [key]) && State().Extends(before) && key in nodes
      ensures r.Ok? ==> Progress(g, State(), key, i + 1, r.value) && |ancestors| + r.value <= MAX_GRAPH_DEPTH
      ensures r.Ok? ==> visits == |walked| + 1 <= MAX_GRAPH_INSTANCES && Warned()
    {
      var dep := g[key].deps[i];
      ghost var path, start := ancestors + [key], State();
      if dep.pin.None? {
        UnsoundIsIllegal(g, root, path);
        return Err(Unpinned);
      }
      var target := dep.pin.value.release;
      if target !in g {
        UnsoundIsIllegal(g, root, path);
        return Err(Missing);
      }
      WalkOne(g, root, start, path, key, i, height);
      walked := walked + {(key, i)};
      ghost var mid := State();
      assert LeadsTo(g, dep, target) && Edge(g, key, target);
      PathOn(g, path, target);
      var child := Visit(target, ancestors + [key], root);
      if child.Err? { return Err(child.error); }
      if DepFault(g, dep).Some? {
        UnsoundIsIllegal(g, root, path);
        return Err(DepFault(g, dep).value);
      }
      var next := if height > heights[target] then height else 1 + heights[target];
      Climb(g, mid, State(), key, i, height, next);
      StillExtends(before, start, State(), key, i);
      r := Ok(next);
    }

    /** A release is entered, and warned of when it is yanked. */
    method EnterRelease(key: Key, ghost ancestors: seq<Key>, ghost root: Key)
      requires key in g && key !in nodes && Warned() && IsPath(g, ancestors + [key])
      requires (ancestors + [key])[0] == root && State().Sound(g, root, ancestors)
      modifies this
      ensures State() == old(State()).(nodes := old(nodes) + {key}) && visits == old(visits) && Warned()
      ensures State().Sound(g, root, ancestors + [key]) && State().Extends(old(State()))
      ensures Progress(g, State(), key, 0, 0)
    {
      PathToIn(g, root, ancestors + [key]);
      Enter(g, root, State(), ancestors, key);
      WarnOne(g, nodes, warnings, key);
      if g[key].yanked { warnings := warnings + [key]; }
      nodes := nodes + {key};
    }

    /** Walks the dependencies of a release that has been entered; the result is its height. */
    method WalkDeps(key: Key, ancestors: seq<Key>, ghost root: Key, ghost before: Walk)
        returns (r: Result<nat, GraphError>)
      requires key in g && key !in before.nodes && nodes == before.nodes + {key} && State().Extends(before)
      requires IsPath(g, ancestors + [key]) && (ancestors + [key])[0] == root
      requires State().Sound(g, root, ancestors + [key]) && Progress(g, State(), key, 0, 0)
      requires visits == |walked| + 1 <= MAX_GRAPH_INSTANCES && |ancestors| <= MAX_GRAPH_DEPTH && Warned()
      modifies this
      decreases g.Keys - nodes, 3
      ensures r.Err? ==> !Legal(g, root)
      ensures r.Ok? ==> State().Sound(g, root, ancestors + [key]) && State().Extends(before)
      ensures r.Ok? ==> Progress(g, State(), key, |g[key].deps|, r.value) && |ancestors| + r.value <= MAX_GRAPH_DEPTH
      ensures r.Ok? ==> visits == |walked| + 1 <= MAX_GRAPH_INSTANCES && Warned()
    {
      var height, i := 0, 0;
      while i < |g[key].deps|
        invariant i <= |g[key].deps| && key in nodes
        invariant State().Sound(g, root, ancestors + [key]) && State().Extends(before)
        invariant Progress(g, State(), key, i, height)
        invariant visits == |walked| + 1 <= MAX_GRAPH_INSTANCES && |ancestors| + height <= MAX_GRAPH_DEPTH && Warned()
      {
        var next := VisitDep(key, ancestors, i, height, root, before);
        if next.Err? { return Err(next.error); }
        height, i := next.value, i + 1;
      }
      r := Ok(height);
    }

    /** A release whose dependencies have been walked takes its height. */
    method LeaveRelease(key: Key, ghost ancestors: seq<Key>, height: nat, ghost root: Key, ghost before: Walk)
      requires key in g && key !in before.heights && key !in Elems(ancestors) && NodeOk(g, key)
      requires State().Sound(g, root, ancestors + [key]) && State().Extends(before)
      requires Progress(g, State(), key, |g[key].deps|, height)
      modifies this`heights
      ensures State() == old(State()).(heights := old(heights)[key := height])
      ensures State().Sound(g, root, ancestors) && State().Extends(before)
    {
      Leave(g, root, State(), ancestors, key, height);
      LeftExtends(before, State(), key, height);
      heights := heights[key := height];
      assert State() == old(State()).(heights := old(heights)[key := height]);
    }

    method VisitDeps(key: Key, ancestors: seq<Key>, ghost root: Key) returns (r: Result<(), GraphError>)
      requires key in g && IsPath(g, ancestors + [key]) && (ancestors + [key])[0] == root
      requires g[key].stateFault.None? && g[key].fault.None? && key !in nodes && |ancestors| <= MAX_GRAPH_DEPTH
      requires State().Sound(g, root, ancestors) && visits == |walked| + 1 <= MAX_GRAPH_INSTANCES && Warned()
      modifies this
      decreases g.Keys - nodes, 0
      ensures r.Err? ==> !Legal(g, root)
      ensures r.Ok? ==> State().Sound(g, root, ancestors) && State().Extends(old(State())) && visits == |walked| + 1
      ensures r.Ok? ==> key in heights && |ancestors| + heights[key] <= MAX_GRAPH_DEPTH
      ensures r.Ok? ==> visits <= MAX_GRAPH_INSTANCES && Warned()
    {
      ghost var before := State();
      EnterRelease(key, ancestors, root);
      var height := WalkDeps(key, ancestors, root, before);
      if height.Err? { return Err(height.error); }
      LeaveRelease(key, ancestors, height.value, root, before);
      r := Ok(());
    }
  }

  // ---------------------------------------------------------------------------
  // The whole walk
  // ---------------------------------------------------------------------------

  /** A finished walk has visited exactly what is in reach, and the build is legal. */
  lemma WalkedAll(g: Inputs, root: Key, w: Walk)
    requires w.Sound(g, root, []) && root in w.heights && w.heights[root] <= MAX_GRAPH_DEPTH
    requires 1 + |w.walked| <= MAX_GRAPH_INSTANCES
    ensures w.nodes == w.heights.Keys == Reach(g, root) && w.walked == Edges(g, Reach(g, root))
    ensures Legal(g, root)
  {
    assert w.nodes == w.heights.Keys;
    forall k <- Reach(g, root) ensures k in w.heights {
      var p :| IsPath(g, p) && p[0] == root && Last(p) == k;
      PathsAreShort(g, w.heights, p);
    }
    forall p | IsPath(g, p) && p[0] == root ensures |p| - 1 <= MAX_GRAPH_DEPTH {
      PathsAreShort(g, w.heights, p);
    }
  }

  /** How far from `k` one can go. */
  ghost predicate IsLongest(g: Inputs, k: Key, n: nat) {
    && (exists p :: IsPath(g, p) && p[0] == k && |p| - 1 == n)
    && (forall p | IsPath(g, p) && p[0] == k :: |p| - 1 <= n)
  }

  lemma HeightIsLongest(g: Inputs, h: map<Key, nat>, k: Key)
    requires Heights(g, h) && k in h
    ensures IsLongest(g, k, h[k])
  {
    var p := LongestPath(g, h, k);
    assert IsPath(g, p) && p[0] == k && |p| - 1 == h[k];
    forall q | IsPath(g, q) && q[0] == k ensures |q| - 1 <= h[k] {
      PathsAreShort(g, h, q);
    }
  }

  /**
   * A build is accepted exactly when it is legal: everything it uses is sound with every dependency
   * met, and it is neither too deep nor too large. Then the walk has found exactly the releases in
   * reach, walked each of their dependencies once, knows how far each can go, and has warned once
   * of each that is yanked.
   */
  method WalkGraph(g: Inputs, root: Key)
      returns (r: Result<set<Key>, GraphError>, heights: map<Key, nat>, warnings: seq<Key>)
    requires root in g
    ensures r.Ok? <==> Legal(g, root)
    ensures r.Ok? <==> AllMet(g, root) && ChainsWithin(g, root) && 1 + |UsedDeps(g, root)| <= 5000
    ensures r.Ok? ==> Warns(g, Reach(g, root), warnings)
    ensures r.Ok? ==> r.value == Reach(g, root) == heights.Keys && forall k <- heights :: IsLongest(g, k, heights[k])
  {
    LegalExactly(g, root);
    var b := new Builder(g);
    assert IsPath(g, [root]) && [] + [root] == [root];
    assert b.State().Sound(g, root, []) by {
      assert Edges(g, {}) == {} && b.heights.Keys == {};
    }
    var done := b.Visit(root, [], root);
    heights, warnings := b.heights, b.warnings;
    if done.Err? { return Err(done.error), heights, warnings; }
    WalkedAll(g, root, b.State());
    forall k <- heights ensures IsLongest(g, k, heights[k]) {
      HeightIsLongest(g, heights, k);
    }
    r := Ok(b.nodes);
  }
}
