/** Within what a build uses, each name stands for one release; sources a release derives from are their own scopes. */
module Scope {
  import opened Common
  import opened Graph
  import opened GraphRun

  function NotDerived(): Dep -> bool {
    (d: Dep) => d.domain != Derivation
  }

  /** The build without the sources its releases derive from. */
  function Material(g: Inputs): (m: Inputs)
    ensures m.Keys == g.Keys
  {
    map k | k in g :: g[k].(deps := Filter(NotDerived(), g[k].deps))
  }

  ghost predicate OnePerRef(g: Inputs, s: set<Key>)
    requires s <= g.Keys
  {
    forall a <- s, b <- s :: g[a].ref == g[b].ref ==> a == b
  }

  /** Every release in reach of `root` leads only to releases there are. */
  ghost predicate Complete(g: Inputs, root: Key) {
    root in g && forall k <- Reach(g, root), i | 0 <= i < |g[k].deps| ::
      g[k].deps[i].pin.Some? && g[k].deps[i].pin.value.release in g
  }

  function Next(g: Inputs, k: Key, i: nat): Option<Key>
    requires k in g && i < |g[k].deps|
  {
    match g[k].deps[i].pin case None => None case Some(pin) => Some(pin.release)
  }

  lemma NextInReach(g: Inputs, root: Key, k: Key, i: nat)
    requires Complete(g, root) && k in Reach(g, root) && i < |g[k].deps|
    ensures Next(g, k, i).Some? && Next(g, k, i).value in Reach(g, root)
  {
    var next := g[k].deps[i].pin.value.release;
    var p :| IsPath(g, p) && p[0] == root && Last(p) == k;
    assert LeadsTo(g, g[k].deps[i], next) && Edge(g, k, next);
    PathOn(g, p, next);
    PathToIn(g, root, p + [next]);
  }

  /** What is closed under dependencies and holds `root` holds everything in its reach. */
  lemma {:induction false} ClosedHolds(g: Inputs, s: set<Key>, p: seq<Key>)
    requires IsPath(g, p) && p[0] in s
    requires forall k <- s, i | k in g && 0 <= i < |g[k].deps| :: Next(g, k, i).Some? && Next(g, k, i).value in s
    ensures Last(p) in s
    decreases |p|
  {
    if |p| > 1 {
      PathTail(g, p);
      var i :| 0 <= i < |g[p[0]].deps| && LeadsTo(g, g[p[0]].deps[i], p[1]);
      assert Next(g, p[0], i) == Some(p[1]);
      ClosedHolds(g, s, p[1..]);
    }
  }

  class Members {
    const g: Inputs
    var members: set<Key>
    var byRef: map<string, Key>

    constructor (inputs: Inputs)
      ensures g == inputs && members == {} && byRef == map[]
    {
      g, members, byRef := inputs, {}, map[];
    }

    /** Members are in reach, and each is the one its name stands for. */
    ghost predicate Valid(root: Key)
      reads this
    {
      && members <= Reach(g, root)
      && (forall k <- members :: g[k].ref in byRef && byRef[g[k].ref] == k)
      && (forall r <- byRef :: byRef[r] in members && g[byRef[r]].ref == r)
    }

    /** All dependencies of `k` are members. */
    ghost predicate Settled(k: Key)
      reads this
    {
      k in g && forall i | 0 <= i < |g[k].deps| :: Next(g, k, i).Some? && Next(g, k, i).value in members
    }

    method Walk(k: Key, ghost root: Key) returns (ok: bool)
      requires Complete(g, root) && k in Reach(g, root) && Valid(root)
      modifies this
      decreases g.Keys - members
      ensures ok ==> Valid(root) && k in members && old(members) <= members
      ensures ok ==> forall m <- members - old(members) :: Settled(m)
      ensures !ok ==> !OnePerRef(g, Reach(g, root))
    {
      var ref := g[k].ref;
      if ref in byRef && byRef[ref] != k {
        assert byRef[ref] in Reach(g, root);
        return false;
      }
      if k in members { return true; }
      ghost var before := members;
      byRef := byRef[ref := k];
      members := members + {k};
      var i := 0;
      while i < |g[k].deps|
        invariant i <= |g[k].deps| && Valid(root) && before + {k} <= members
        invariant forall j | 0 <= j < i :: Next(g, k, j).Some? && Next(g, k, j).value in members
        invariant forall m <- members - before - {k} :: Settled(m)
      {
        NextInReach(g, root, k, i);
        ghost var start := members;
        var child := Walk(Next(g, k, i).value, root);
        if !child { return false; }
        forall m <- members - before - {k} ensures Settled(m) {
          assert m in start ==> m in start - before - {k};
        }
        i := i + 1;
      }
      ok := true;
    }
  }

  /** A scope is accepted exactly when no name stands for two releases in it; its members are what is in reach. */
  method CheckScope(g: Inputs, root: Key) returns (ok: bool, members: set<Key>)
    requires Complete(g, root)
    ensures ok <==> OnePerRef(g, Reach(g, root))
    ensures ok ==> members == Reach(g, root)
  {
    var w := new Members(g);
    RootInReach(g, root);
    ok := w.Walk(root, root);
    members := w.members;
    if ok {
      assert forall m <- members :: w.Settled(m);
      forall k <- Reach(g, root) ensures k in members {
        var p :| IsPath(g, p) && p[0] == root && Last(p) == k;
        ClosedHolds(g, members, p);
      }
    }
  }

  lemma RootInReach(g: Inputs, root: Key)
    requires root in g
    ensures root in Reach(g, root)
  {
    assert IsPath(g, [root]);
    PathToIn(g, root, [root]);
  }

  // ---------------------------------------------------------------------------
  // A whole build
  // ---------------------------------------------------------------------------

  lemma MaterialEdge(g: Inputs, a: Key, b: Key)
    requires Edge(Material(g), a, b)
    ensures Edge(g, a, b)
  {
    var deps := Filter(NotDerived(), g[a].deps);
    FilterMembers(NotDerived(), g[a].deps);
    var i :| 0 <= i < |deps| && LeadsTo(Material(g), deps[i], b);
    assert deps[i] in g[a].deps;
    var j :| 0 <= j < |g[a].deps| && g[a].deps[j] == deps[i];
    assert LeadsTo(g, g[a].deps[j], b);
  }

  lemma MaterialPath(g: Inputs, p: seq<Key>)
    requires IsPath(Material(g), p)
    ensures IsPath(g, p)
  {
    forall i | 0 <= i < |p| - 1 ensures Edge(g, p[i], p[i + 1]) {
      MaterialEdge(g, p[i], p[i + 1]);
    }
  }

  lemma MaterialReach(g: Inputs, root: Key, h: Key, k: Key)
    requires h in Reach(g, root) && k in Reach(Material(g), h)
    ensures k in Reach(g, root)
  {
    var p :| IsPath(g, p) && p[0] == root && Last(p) == h;
    var q :| IsPath(Material(g), q) && q[0] == h && Last(q) == k;
    MaterialPath(g, q);
    PathJoin(g, p, q);
    PathToIn(g, root, p + q[1..]);
    assert Last(p + q[1..]) == k;
  }

  /** In a legal build every scope is complete. */
  lemma MaterialComplete(g: Inputs, root: Key, h: Key)
    requires Legal(g, root) && h in Reach(g, root)
    ensures Complete(Material(g), h)
  {
    var m := Material(g);
    forall k <- Reach(m, h), i | 0 <= i < |m[k].deps|
        ensures m[k].deps[i].pin.Some? && m[k].deps[i].pin.value.release in m {
      MaterialReach(g, root, h, k);
      FilterMembers(NotDerived(), g[k].deps);
      assert NodeOk(g, k) && m[k].deps[i] in g[k].deps;
      var j :| 0 <= j < |g[k].deps| && g[k].deps[j] == m[k].deps[i];
      assert DepFault(g, g[k].deps[j]).None?;
    }
  }

  /** The sources that the releases of a set derive from. */
  function Historical(g: Inputs, s: set<Key>): set<Key> {
    set k, i | k in s && k in g && 0 <= i < |g[k].deps| && g[k].deps[i].domain == Derivation && g[k].deps[i].pin.Some?
               :: g[k].deps[i].pin.value.release
  }

  lemma HistoricalInReach(g: Inputs, root: Key, h: Key)
    requires Legal(g, root) && h in Historical(g, Reach(g, root))
    ensures h in Reach(g, root)
  {
    var k, i :| k in Reach(g, root) && 0 <= i < |g[k].deps| && g[k].deps[i].pin.Some?
        && g[k].deps[i].pin.value.release == h;
    assert NodeOk(g, k) && DepFault(g, g[k].deps[i]).None?;
    var p :| IsPath(g, p) && p[0] == root && Last(p) == k;
    assert LeadsTo(g, g[k].deps[i], h) && Edge(g, k, h);
    PathOn(g, p, h);
    PathToIn(g, root, p + [h]);
  }

  /** The build's own scope and that of each of its sources have one release for each name. */
  ghost predicate ScopesHold(g: Inputs, root: Key) {
    && OnePerRef(Material(g), Reach(Material(g), root))
    && forall h <- Historical(g, Reach(g, root)) :: SourceHolds(Material(g), h)
  }

  ghost predicate SourceHolds(m: Inputs, h: Key) {
    OnePerRef(m, Reach(m, h))
  }

  /** Checks the scope of every source that the build derives from. */
  method CheckSources(g: Inputs, root: Key, historical: set<Key>) returns (ok: bool)
    requires Legal(g, root) && historical == Historical(g, Reach(g, root))
    ensures ok <==> forall h <- historical :: SourceHolds(Material(g), h)
  {
    var material := Material(g);
    var left := historical;
    while left != {}
      invariant left <= historical && forall h <- historical - left :: SourceHolds(material, h)
      decreases |left|
    {
      var h :| h in left;
      HistoricalInReach(g, root, h);
      MaterialComplete(g, root, h);
      var one, _ := CheckScope(material, h);
      if !one {
        assert !SourceHolds(material, h);
        return false;
      }
      left := left - {h};
    }
    ok := true;
  }

  /** A build passes exactly when its graph is legal and its scopes hold; the result is what it reaches. */
  method Build(g: Inputs, root: Key) returns (r: Result<set<Key>, GraphError>, warnings: seq<Key>)
    requires root in g
    ensures r.Ok? <==> Legal(g, root) && ScopesHold(g, root)
    ensures r.Ok? ==> r.value == Reach(g, root)
    ensures r.Ok? ==> Warns(g, Reach(g, root), warnings)
  {
    var walked, heights;
    walked, heights, warnings := WalkGraph(g, root);
    if walked.Err? { return walked, warnings; }
    RootInReach(g, root);
    MaterialComplete(g, root, root);
    var ok, members := CheckScope(Material(g), root);
    if !ok { return Err(DiamondConflict), warnings; }
    ok := CheckSources(g, root, Historical(g, walked.value));
    if !ok { return Err(DiamondConflict), warnings; }
    r := Ok(walked.value);
  }
}
