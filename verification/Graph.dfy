/**
 * The dependency graph of a build: releases that pin other releases. A build is legal when every
 * release it reaches is sound, no chain of dependencies is too long, and the whole is not too large.
 */
module Graph {
  import opened Common

  const MAX_GRAPH_DEPTH := 32

  const MAX_GRAPH_INSTANCES := 5000

  type Key = string

  datatype Domain = Content | Policy | Assembly | Test | Derivation

  datatype Kind = ContentKind | PresetKind | ModuleKind

  datatype Accepts = Only(kind: Kind) | Any

  datatype Pin = Pin(release: Key, digest: string)

  datatype Dep = Dep(domain: Domain, id: string, ref: string, pin: Option<Pin>, accepts: Accepts)

  datatype GraphError =
    | InvalidState | Cycle | TooLarge | TooDeep | CheckFailed | GivenDigestMismatch | Tombstoned
    | Unpinned | Missing | RefMismatch | DigestMismatch | TypeMismatch | DiamondConflict

  /** A release; its faults are what its own content and status give rise to, before its dependencies. */
  datatype Release = Release(
    ref: string, kind: Kind, digest: string, stateFault: Option<GraphError>, fault: Option<GraphError>,
    yanked: bool, deps: seq<Dep>)

  type Inputs = map<Key, Release>

  // ---------------------------------------------------------------------------
  // Sound releases
  // ---------------------------------------------------------------------------

  /** What is wrong with a dependency once its target is known to be sound itself. */
  function DepFault(g: Inputs, dep: Dep): Option<GraphError> {
    match dep.pin
    case None => Some(Unpinned)
    case Some(pin) =>
      if pin.release !in g then Some(Missing)
      else if g[pin.release].ref != dep.ref then Some(RefMismatch)
      else if g[pin.release].digest != pin.digest then Some(DigestMismatch)
      else if dep.accepts != Any && dep.accepts != Only(g[pin.release].kind) then Some(TypeMismatch)
      else None
  }

  predicate NodeOk(g: Inputs, k: Key) {
    && k in g && g[k].stateFault.None? && g[k].fault.None?
    && forall i | 0 <= i < |g[k].deps| :: DepFault(g, g[k].deps[i]).None?
  }

  /** The release a dependency leads to, if it leads to one. */
  predicate LeadsTo(g: Inputs, dep: Dep, k: Key) {
    dep.pin.Some? && dep.pin.value.release == k && k in g
  }

  predicate Edge(g: Inputs, a: Key, b: Key) {
    a in g && exists i | 0 <= i < |g[a].deps| :: LeadsTo(g, g[a].deps[i], b)
  }

  // ---------------------------------------------------------------------------
  // Paths
  // ---------------------------------------------------------------------------

  ghost predicate IsPath(g: Inputs, p: seq<Key>) {
    p != [] && p[0] in g && forall i | 0 <= i < |p| - 1 :: Edge(g, p[i], p[i + 1])
  }

  function Last<T>(p: seq<T>): T
    requires p != []
  {
    p[|p| - 1]
  }

  ghost predicate Reachable(g: Inputs, a: Key, b: Key) {
    exists p :: IsPath(g, p) && p[0] == a && Last(p) == b
  }

  ghost function Reach(g: Inputs, root: Key): set<Key> {
    set k | k in g && Reachable(g, root, k)
  }

  /** The dependencies of a set of releases, each with its owner. */
  ghost function Edges(g: Inputs, s: set<Key>): set<(Key, nat)> {
    set k, i | k in s && k in g && 0 <= i < |g[k].deps| :: (k, i)
  }

  /** What a build must be like. */
  ghost predicate Legal(g: Inputs, root: Key) {
    && root in g
    && (forall k <- Reach(g, root) :: NodeOk(g, k))
    && (forall p | IsPath(g, p) && p[0] == root :: |p| - 1 <= MAX_GRAPH_DEPTH)
    && 1 + |Edges(g, Reach(g, root))| <= MAX_GRAPH_INSTANCES
  }

  lemma EdgeInGraph(g: Inputs, a: Key, b: Key)
    requires Edge(g, a, b)
    ensures a in g && b in g
  {
  }

  lemma {:induction false} PathInGraph(g: Inputs, p: seq<Key>)
    requires IsPath(g, p)
    ensures forall k <- p :: k in g
  {
    forall i | 0 <= i < |p| ensures p[i] in g {
      if i > 0 { EdgeInGraph(g, p[i - 1], p[i]); }
    }
  }

  lemma PathJoin(g: Inputs, p: seq<Key>, q: seq<Key>)
    requires IsPath(g, p) && IsPath(g, q) && Last(p) == q[0]
    ensures IsPath(g, p + q[1..])
  {
    var r := p + q[1..];
    forall i | 0 <= i < |r| - 1 ensures Edge(g, r[i], r[i + 1]) {
      if i >= |p| - 1 {
        var j := i - (|p| - 1);
        assert r[i] == q[j] && r[i + 1] == q[j + 1];
      }
    }
  }

  lemma PathPart(g: Inputs, p: seq<Key>, i: nat, j: nat)
    requires IsPath(g, p) && i < j <= |p|
    ensures IsPath(g, p[i..j])
  {
    PathInGraph(g, p);
    var q := p[i..j];
    assert q[0] == p[i] && p[i] in p;
    forall k | 0 <= k < |q| - 1 ensures Edge(g, q[k], q[k + 1]) {
      assert q[k] == p[i + k] && q[k + 1] == p[i + k + 1];
    }
  }

  /** Going round a cycle again makes a longer path that ends on the same cycle. */
  lemma RoundAgain(g: Inputs, p: seq<Key>, i: nat) returns (q: seq<Key>)
    requires IsPath(g, p) && i < |p| - 1 && p[i] == Last(p)
    ensures IsPath(g, q) && q[0] == p[0] && |q| > |p| && q[i] == Last(q) && i < |q| - 1
  {
    var loop := p[i..];
    PathPart(g, p, i, |p|);
    assert p[i..|p|] == loop;
    PathJoin(g, p, loop);
    q := p + loop[1..];
    assert Last(q) == Last(loop) == Last(p);
  }

  /** A path that comes back to where it was can be made as long as one likes. */
  lemma {:induction false} CyclesAreEndless(g: Inputs, p: seq<Key>, i: nat, n: nat) returns (q: seq<Key>)
    requires IsPath(g, p) && i < |p| - 1 && p[i] == Last(p)
    ensures IsPath(g, q) && q[0] == p[0] && |q| > n
    decreases n + 1 - |p|
  {
    if |p| > n {
      q := p;
    } else {
      var r := RoundAgain(g, p, i);
      q := CyclesAreEndless(g, r, i, n);
    }
  }

  /** A build that reaches a cycle is not legal. */
  lemma CycleIsIllegal(g: Inputs, root: Key, p: seq<Key>, i: nat)
    requires IsPath(g, p) && p[0] == root && i < |p| - 1 && p[i] == Last(p)
    ensures !Legal(g, root)
  {
    var q := CyclesAreEndless(g, p, i, MAX_GRAPH_DEPTH + 1);
    assert |q| - 1 > MAX_GRAPH_DEPTH;
  }

  // ---------------------------------------------------------------------------
  // Heights
  // ---------------------------------------------------------------------------

  ghost predicate AllOk(g: Inputs, h: map<Key, nat>) {
    forall k <- h :: NodeOk(g, k)
  }

  /** Whatever is covered leads only to what is covered, and lower. */
  ghost predicate Falls(g: Inputs, h: map<Key, nat>)
    requires AllOk(g, h)
  {
    forall k <- h, i | 0 <= i < |g[k].deps| ::
      g[k].deps[i].pin.value.release in h && h[g[k].deps[i].pin.value.release] < h[k]
  }

  /** A release above the bottom stands one above something it leads to. */
  ghost predicate Rests(g: Inputs, h: map<Key, nat>, k: Key)
    requires AllOk(g, h) && k in h && Falls(g, h)
  {
    h[k] > 0 ==> exists i | 0 <= i < |g[k].deps| :: h[g[k].deps[i].pin.value.release] == h[k] - 1
  }

  /** `h` is a height for every release it covers: one above the highest it leads to, or the bottom. */
  ghost predicate Heights(g: Inputs, h: map<Key, nat>) {
    AllOk(g, h) && Falls(g, h) && forall k <- h :: Rests(g, h, k)
  }

  lemma HeightsStep(g: Inputs, h: map<Key, nat>, a: Key, b: Key)
    requires Heights(g, h) && a in h && Edge(g, a, b)
    ensures b in h && h[b] < h[a]
  {
    var i :| 0 <= i < |g[a].deps| && LeadsTo(g, g[a].deps[i], b);
    assert g[a].deps[i].pin.value.release in h;
  }

  lemma PathTail(g: Inputs, p: seq<Key>)
    requires IsPath(g, p) && |p| > 1
    ensures Edge(g, p[0], p[1]) && IsPath(g, p[1..]) && p == [p[0]] + p[1..] && Last(p[1..]) == Last(p)
  {
    PathPart(g, p, 1, |p|);
    assert p[1..|p|] == p[1..];
  }

  /** No path is longer than the height it starts from, and none leaves what is covered. */
  lemma {:induction false} PathsAreShort(g: Inputs, h: map<Key, nat>, p: seq<Key>)
    requires Heights(g, h) && IsPath(g, p) && p[0] in h
    ensures Last(p) in h && h[Last(p)] + (|p| - 1) <= h[p[0]]
    decreases |p|
  {
    if |p| > 1 {
      PathTail(g, p);
      HeightsStep(g, h, p[0], p[1]);
      PathsAreShort(g, h, p[1..]);
    }
  }

  /** And some path is that long. */
  lemma {:induction false} LongestPath(g: Inputs, h: map<Key, nat>, k: Key) returns (p: seq<Key>)
    requires Heights(g, h) && k in h
    ensures IsPath(g, p) && p[0] == k && |p| - 1 == h[k]
    decreases h[k]
  {
    if h[k] == 0 {
      p := [k];
    } else {
      assert Rests(g, h, k);
      var i :| 0 <= i < |g[k].deps| && h[g[k].deps[i].pin.value.release] == h[k] - 1;
      var next := g[k].deps[i].pin.value.release;
      var q := LongestPath(g, h, next);
      p := [k] + q;
      assert LeadsTo(g, g[k].deps[i], next);
      forall j | 0 <= j < |p| - 1 ensures Edge(g, p[j], p[j + 1]) {
        if j > 0 { assert p[j] == q[j - 1] && p[j + 1] == q[j]; }
      }
    }
  }

  lemma PathToIn(g: Inputs, root: Key, p: seq<Key>)
    requires IsPath(g, p) && p[0] == root
    ensures Last(p) in Reach(g, root)
  {
    PathInGraph(g, p);
    assert Last(p) in p;
  }

  // ---------------------------------------------------------------------------
  // Legal builds, told by dependencies and chains
  // ---------------------------------------------------------------------------

  /** A dependency has a pin that its target meets: name, digest and kind. */
  ghost predicate Met(g: Inputs, dep: Dep) {
    && dep.pin.Some? && dep.pin.value.release in g
    && g[dep.pin.value.release].ref == dep.ref
    && g[dep.pin.value.release].digest == dep.pin.value.digest
    && (dep.accepts == Any || dep.accepts == Only(g[dep.pin.value.release].kind))
  }

  /** Some dependency of `a`, or one that is no derivation when `material`, is pinned to `b`. */
  ghost predicate Pins(g: Inputs, material: bool, a: Key, b: Key) {
    a in g && b in g && exists i | 0 <= i < |g[a].deps| ::
      && (material ==> g[a].deps[i].domain != Derivation)
      && g[a].deps[i].pin.Some? && g[a].deps[i].pin.value.release == b
  }

  ghost predicate Chain(g: Inputs, material: bool, p: seq<Key>) {
    p != [] && p[0] in g && forall i | 0 <= i < |p| - 1 :: Pins(g, material, p[i], p[i + 1])
  }

  /** A chain of pins leads from `root` to `k`. */
  ghost predicate Used(g: Inputs, material: bool, root: Key, k: Key) {
    exists p :: Chain(g, material, p) && p[0] == root && p[|p| - 1] == k
  }

  lemma ChainIsPath(g: Inputs, p: seq<Key>)
    ensures Chain(g, false, p) <==> IsPath(g, p)
  {
    if Chain(g, false, p) {
      forall i | 0 <= i < |p| - 1 ensures Edge(g, p[i], p[i + 1]) {
        assert Pins(g, false, p[i], p[i + 1]);
        var j :| 0 <= j < |g[p[i]].deps| && g[p[i]].deps[j].pin.Some?
          && g[p[i]].deps[j].pin.value.release == p[i + 1];
        assert LeadsTo(g, g[p[i]].deps[j], p[i + 1]);
      }
    }
    if IsPath(g, p) {
      forall i | 0 <= i < |p| - 1 ensures Pins(g, false, p[i], p[i + 1]) {
        assert Edge(g, p[i], p[i + 1]);
        var j :| 0 <= j < |g[p[i]].deps| && LeadsTo(g, g[p[i]].deps[j], p[i + 1]);
      }
    }
  }

  lemma UsedIsReach(g: Inputs, root: Key, k: Key)
    ensures Used(g, false, root, k) <==> k in Reach(g, root)
  {
    if Used(g, false, root, k) {
      var p :| Chain(g, false, p) && p[0] == root && p[|p| - 1] == k;
      ChainIsPath(g, p);
      PathToIn(g, root, p);
      assert Last(p) == k;
    }
    if k in Reach(g, root) {
      var p :| IsPath(g, p) && p[0] == root && Last(p) == k;
      ChainIsPath(g, p);
      assert p[|p| - 1] == k;
    }
  }

  /** Every release a build uses is sound, and every one of its dependencies is met. */
  ghost predicate AllMet(g: Inputs, root: Key) {
    forall k <- g | Used(g, false, root, k) ::
      && g[k].stateFault == None && g[k].fault == None
      && forall i | 0 <= i < |g[k].deps| :: Met(g, g[k].deps[i])
  }

  ghost predicate ChainsWithin(g: Inputs, root: Key) {
    forall p | Chain(g, false, p) && p[0] == root :: |p| <= 33
  }

  /** The dependencies of everything a build uses. */
  ghost function UsedDeps(g: Inputs, root: Key): set<(Key, nat)> {
    set k, i | k in g && 0 <= i < |g[k].deps| && Used(g, false, root, k) :: (k, i)
  }

  lemma NodeIsMet(g: Inputs, k: Key)
    requires k in g
    ensures NodeOk(g, k) <==> g[k].stateFault == None && g[k].fault == None
                              && forall i | 0 <= i < |g[k].deps| :: Met(g, g[k].deps[i])
  {
    forall i | 0 <= i < |g[k].deps| ensures DepFault(g, g[k].deps[i]).None? <==> Met(g, g[k].deps[i]) {}
  }

  /**
   * A build is legal exactly when its root is given, everything it uses is sound with every
   * dependency met, no chain of pins has more than 32 links, and there are at most 5000 visits:
   * one for the root and one for each dependency used.
   */
  lemma LegalExactly(g: Inputs, root: Key)
    ensures Legal(g, root)
            <==> root in g && AllMet(g, root) && ChainsWithin(g, root) && 1 + |UsedDeps(g, root)| <= 5000
  {
    forall k ensures Used(g, false, root, k) <==> k in Reach(g, root) { UsedIsReach(g, root, k); }
    forall p ensures Chain(g, false, p) <==> IsPath(g, p) { ChainIsPath(g, p); }
    forall k | k in g
      ensures NodeOk(g, k) <==> g[k].stateFault == None && g[k].fault == None
                                && forall i | 0 <= i < |g[k].deps| :: Met(g, g[k].deps[i])
    {
      NodeIsMet(g, k);
    }
    assert UsedDeps(g, root) == Edges(g, Reach(g, root));
  }
}
