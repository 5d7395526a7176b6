/**
 * The walk that flattens a policy, as a function from state to state: it checks versions, depth
 * and size, fills the lock, and emits modules. Each thing it promises is proved by itself.
 */
module FlattenWalk {
  import opened Common
  import opened Graph
  import opened GraphRun
  import opened Scope
  import opened Flatten

  datatype State = State(
    visited: set<Key>, heights: map<Key, nat>, visits: nat, versions: map<string, Key>, lock: seq<Key>,
        emitted: seq<Key>)

  function HeightOf(h: map<Key, nat>, k: Key): nat {
    if k in h then h[k] else 0
  }

  function Higher(height: nat, below: nat): nat {
    if height > below then height else 1 + below
  }

  function Visit(g: Inputs, key: Key, ancestors: seq<Key>, s: State): (r: Result<State, GraphError>)
    requires key in g
    ensures r.Ok? ==> s.visited <= r.value.visited && key in r.value.visited
    decreases g.Keys - s.visited, 1
  {
    if key in ancestors then Err(Cycle)
    else if g[key].ref in s.versions && s.versions[g[key].ref] != key then Err(DiamondConflict)
    else
      var s1 := s.(versions := s.versions[g[key].ref := key], visits := s.visits + 1);
      if s1.visits > MAX_GRAPH_INSTANCES then Err(TooLarge)
      else if |ancestors| + HeightOf(s.heights, key) > MAX_GRAPH_DEPTH then Err(TooDeep)
      else if key in s.visited then Ok(s1)
      else
        match Imports(g, key, ancestors + [key], 0, 0, s1.(visited := s1.visited + {key}))
        case Err(e) => Err(e)
        case Ok((s2, height)) => Ok(s2.(heights := s2.heights[key := height], emitted := s2.emitted + [key]))
  }

  /** What is wrong with an import before its target is visited. */
  function ImportFault(g: Inputs, path: seq<Key>, dep: Dep): Option<GraphError> {
    match dep.pin
    case None => Some(Unpinned)
    case Some(pin) =>
      if pin.release in path then Some(Cycle)
      else if pin.release !in g then Some(Missing)
      else if g[pin.release].fault.Some? then g[pin.release].fault
      else DepFault(g, dep)
  }

  /** A target is put in the lock when it is first seen. */
  function Locked(s: State, target: Key): State {
    if target in s.visited then s else s.(lock := s.lock + [target])
  }

  function Imports(g: Inputs, key: Key, path: seq<Key>, i: nat, height: nat, s: State)
      : (r: Result<(State, nat), GraphError>)
    requires key in g && i <= |g[key].deps|
    ensures r.Ok? ==> s.visited <= r.value.0.visited
    decreases g.Keys - s.visited, 2 + |g[key].deps| - i
  {
    if i == |g[key].deps| then Ok((s, height))
    else
      match ImportFault(g, path, g[key].deps[i])
      case Some(e) => Err(e)
      case None =>
        var target := g[key].deps[i].pin.value.release;
        match Visit(g, target, path, Locked(s, target))
        case Err(e) => Err(e)
        case Ok(s') => Imports(g, key, path, i + 1, Higher(height, HeightOf(s'.heights, target)), s')
  }

  // ---------------------------------------------------------------------------
  // Emission
  // ---------------------------------------------------------------------------

  function EmissionOf(s: State): Emission {
    Emission(s.visited, s.emitted)
  }

  lemma {:induction false} VisitEmits(g: Inputs, key: Key, ancestors: seq<Key>, s: State)
    requires key in g && Visit(g, key, ancestors, s).Ok?
    ensures EmissionOf(Visit(g, key, ancestors, s).value) == Emit(g, key, EmissionOf(s))
    decreases g.Keys - s.visited, 1
  {
    if key !in s.visited {
      var s1 := s.(versions := s.versions[g[key].ref := key], visits := s.visits + 1);
      ImportsEmit(g, key, ancestors + [key], 0, 0, s1.(visited := s1.visited + {key}));
    }
  }

  lemma {:induction false} ImportsEmit(g: Inputs, key: Key, path: seq<Key>, i: nat, height: nat, s: State)
    requires key in g && i <= |g[key].deps| && Imports(g, key, path, i, height, s).Ok?
    ensures EmissionOf(Imports(g, key, path, i, height, s).value.0) == EmitImports(g, key, i, EmissionOf(s))
    decreases g.Keys - s.visited, 2 + |g[key].deps| - i
  {
    if i < |g[key].deps| {
      var target := g[key].deps[i].pin.value.release;
      VisitEmits(g, target, path, Locked(s, target));
      var s' := Visit(g, target, path, Locked(s, target)).value;
      ImportsEmit(g, key, path, i + 1, Higher(height, HeightOf(s'.heights, target)), s');
    }
  }

  // ---------------------------------------------------------------------------
  // The lock
  // ---------------------------------------------------------------------------

  /** The lock names what has been visited, but for the root, each once. */
  ghost predicate Locks(s: State, visited: set<Key>, root: Key) {
    NoDup(s.lock) && Elems(s.lock) == visited - {root}
  }

  lemma LockOne(s: State, root: Key, target: Key)
    requires Locks(s, s.visited, root) && target != root
    ensures Locks(Locked(s, target), s.visited + {target}, root)
  {
    assert target in s.lock <==> target in Elems(s.lock);
    assert Elems(s.lock + [target]) == Elems(s.lock) + {target};
    if target in s.visited { assert s.visited + {target} == s.visited; }
  }

  lemma {:induction false} VisitLocks(g: Inputs, root: Key, key: Key, ancestors: seq<Key>, s: State)
    requires key in g && Visit(g, key, ancestors, s).Ok? && (ancestors + [key])[0] == root
    requires Locks(s, s.visited + {key}, root)
    ensures Locks(Visit(g, key, ancestors, s).value, Visit(g, key, ancestors, s).value.visited, root)
    decreases g.Keys - s.visited, 1
  {
    if key in s.visited {
      assert s.visited + {key} == s.visited;
    } else {
      var s1 := s.(versions := s.versions[g[key].ref := key], visits := s.visits + 1);
      ImportsLock(g, root, key, ancestors + [key], 0, 0, s1.(visited := s1.visited + {key}));
    }
  }

  lemma {:induction false} ImportsLock(g: Inputs, root: Key, key: Key, path: seq<Key>, i: nat, height: nat, s: State)
    requires key in g && i <= |g[key].deps| && Imports(g, key, path, i, height, s).Ok?
    requires path != [] && path[0] == root && Locks(s, s.visited, root)
    ensures var r := Imports(g, key, path, i, height, s).value.0; Locks(r, r.visited, root)
    decreases g.Keys - s.visited, 2 + |g[key].deps| - i
  {
    if i < |g[key].deps| {
      var target := g[key].deps[i].pin.value.release;
      assert root in path && target !in path;
      LockOne(s, root, target);
      VisitLocks(g, root, target, path, Locked(s, target));
      var s' := Visit(g, target, path, Locked(s, target)).value;
      ImportsLock(g, root, key, path, i + 1, Higher(height, HeightOf(s'.heights, target)), s');
    }
  }

  // ---------------------------------------------------------------------------
  // Acceptance
  // ---------------------------------------------------------------------------

  /** What the schema of policies promises: imports are pinned, and a policy has no state of its own. */
  ghost predicate PolicyInputs(g: Inputs) {
    forall k <- g :: g[k].stateFault.None? && forall i | 0 <= i < |g[k].deps| :: g[k].deps[i].pin.Some?
  }

  /** The build is legal, and in it each name stands for one release. */
  ghost predicate Acceptable(g: Inputs, root: Key) {
    Legal(g, root) && OnePerRef(g, Reach(g, root))
  }

  function WalkOf(s: State, walked: set<(Key, nat)>): Walk {
    Walk(s.visited, s.heights, walked)
  }

  /** Names stand for what has been visited. */
  ghost predicate Versions(g: Inputs, root: Key, s: State) {
    && (forall k <- s.visited :: k in g && g[k].ref in s.versions && s.versions[g[k].ref] == k)
    && (forall r <- s.versions :: s.versions[r] in Reach(g, root) && g[s.versions[r]].ref == r)
  }

  /** The walk is sound so far, and its visits are the dependencies walked and `extra` more. */
  ghost predicate Good(g: Inputs, root: Key, path: seq<Key>, s: State, walked: set<(Key, nat)>, extra: nat) {
    && WalkOf(s, walked).Sound(g, root, path) && Versions(g, root, s)
    && s.visits == |walked| + extra <= MAX_GRAPH_INSTANCES
  }

  /** What a visit promises: an error only for what is not acceptable, else a sound walk and a height. */
  ghost predicate Visited(g: Inputs, root: Key, ancestors: seq<Key>, key: Key, before: Walk,
                          r: Result<State, GraphError>,
                          walked: set<(Key, nat)>)
  {
    if r.Err? then !Acceptable(g, root)
    else
      && Good(g, root, ancestors, r.value, walked, 1) && WalkOf(r.value, walked).Extends(before)
      && key in r.value.heights && |ancestors| + r.value.heights[key] <= MAX_GRAPH_DEPTH
  }

  /** A release in progress, `i` of its imports walked, stands at `height` within the depth that is left. */
  ghost predicate Underway(g: Inputs, root: Key, ancestors: seq<Key>, key: Key, i: nat, height: nat, s: State,
                           walked: set<(Key, nat)>, before: Walk)
  {
    && key in g && i <= |g[key].deps| && key in s.visited && key !in before.nodes
    && Good(g, root, ancestors + [key], s, walked, 1) && WalkOf(s, walked).Extends(before)
    && Progress(g, WalkOf(s, walked), key, i, height) && |ancestors| + height <= MAX_GRAPH_DEPTH
  }

  lemma ConflictIsUnacceptable(g: Inputs, root: Key, s: State, key: Key)
    requires key in Reach(g, root) && Versions(g, root, s) && g[key].ref in s.versions && s.versions[g[key].ref] != key
    ensures !Acceptable(g, root)
  {
    assert s.versions[g[key].ref] in Reach(g, root);
  }

  /** A visit fails only when the policy is not acceptable; otherwise it leaves the walk sound. */
  lemma {:induction false} VisitSound(g: Inputs, root: Key, key: Key, ancestors: seq<Key>, s: State,
      walked: set<(Key, nat)>)
      returns (walked': set<(Key, nat)>)
    requires PolicyInputs(g) && key in g && g[key].fault.None?
    requires IsPath(g, ancestors + [key]) && (ancestors + [key])[0] == root
    requires Good(g, root, ancestors, s, walked, 0)
    ensures Visited(g, root, ancestors, key, WalkOf(s, walked), Visit(g, key, ancestors, s), walked')
    decreases g.Keys - s.visited, 1
  {
    walked' := walked;
    var path := ancestors + [key];
    PathToIn(g, root, path);
    if key in ancestors {
      CycleFound(g, root, ancestors, key);
    } else if g[key].ref in s.versions && s.versions[g[key].ref] != key {
      ConflictIsUnacceptable(g, root, s, key);
    } else if s.visits + 1 > MAX_GRAPH_INSTANCES {
      TooManyIsIllegal(g, root, WalkOf(s, walked), ancestors);
    } else if |ancestors| + HeightOf(s.heights, key) > MAX_GRAPH_DEPTH {
      TooDeepIsIllegal(g, root, s.heights, path);
    } else if key !in s.visited {
      walked' := EnterSound(g, root, key, ancestors, s, walked);
    }
  }

  lemma {:induction false} EnterSound(g: Inputs, root: Key, key: Key, ancestors: seq<Key>, s: State,
      walked: set<(Key, nat)>)
      returns (walked': set<(Key, nat)>)
    requires PolicyInputs(g) && key in g && g[key].fault.None? && key !in s.visited && key !in ancestors
    requires IsPath(g, ancestors + [key]) && (ancestors + [key])[0] == root
    requires Good(g, root, ancestors, s, walked, 0) && s.visits < MAX_GRAPH_INSTANCES && |ancestors| <= MAX_GRAPH_DEPTH
    requires g[key].ref in s.versions ==> s.versions[g[key].ref] == key
    ensures Visited(g, root, ancestors, key, WalkOf(s, walked), Visit(g, key, ancestors, s), walked')
    decreases g.Keys - s.visited, 0
  {
    walked' := walked;
    var path, before := ancestors + [key], WalkOf(s, walked);
    var s2 := Entered(g, key, s);
    PathToIn(g, root, path);
    Enter(g, root, before, ancestors, key);
    NewVersion(g, root, s, key);
    VisitEnters(g, key, ancestors, s);
    var after := ImportsSound(g, root, key, ancestors, 0, 0, s2, walked, before);
    var r := Imports(g, key, path, 0, 0, s2);
    if r.Ok? {
      walked' := after;
      LeaveGood(g, root, key, ancestors, r.value.0, r.value.1, after, before);
    }
  }

  function Entered(g: Inputs, key: Key, s: State): State
    requires key in g
  {
    s.(versions := s.versions[g[key].ref := key], visits := s.visits + 1, visited := s.visited + {key})
  }

  /** A release that is new is visited by walking its imports. */
  lemma VisitEnters(g: Inputs, key: Key, ancestors: seq<Key>, s: State)
    requires key in g && key !in ancestors && key !in s.visited && s.visits < MAX_GRAPH_INSTANCES
    requires |ancestors| + HeightOf(s.heights, key) <= MAX_GRAPH_DEPTH
    requires g[key].ref in s.versions ==> s.versions[g[key].ref] == key
    ensures var r := Imports(g, key, ancestors + [key], 0, 0, Entered(g, key, s));
            Visit(g, key, ancestors, s)
            == if r.Err? then Err(r.error)
               else Ok(r.value.0.(heights := r.value.0.heights[key := r.value.1], emitted := r.value.0.emitted + [key]))
  {
    var s1 := s.(versions := s.versions[g[key].ref := key], visits := s.visits + 1);
    assert s1.(visited := s1.visited + {key}) == Entered(g, key, s);
  }

  lemma NewVersion(g: Inputs, root: Key, s: State, key: Key)
    requires Versions(g, root, s) && key in Reach(g, root)
             && (g[key].ref in s.versions ==> s.versions[g[key].ref] == key)
    ensures Versions(g, root, Entered(g, key, s))
  {
  }

  lemma LeaveGood(g: Inputs, root: Key, key: Key, ancestors: seq<Key>, s: State, height: nat, walked: set<(Key, nat)>,
      before: Walk)
    requires PolicyInputs(g) && key in g && g[key].fault.None? && key !in ancestors
    requires Underway(g, root, ancestors, key, |g[key].deps|, height, s, walked, before)
    requires before.heights.Keys <= before.nodes
    ensures var r := s.(heights := s.heights[key := height], emitted := s.emitted + [key]);
            Visited(g, root, ancestors, key, before, Ok(r), walked)
  {
    assert NodeOk(g, key);
    Leave(g, root, WalkOf(s, walked), ancestors, key, height);
  }

  /** An import with a fault is a fault of the policy. */
  lemma FaultIsUnacceptable(g: Inputs, root: Key, path: seq<Key>, key: Key, i: nat)
    requires PolicyInputs(g) && IsPath(g, path) && path[0] == root && key == Last(path)
    requires key in g && i < |g[key].deps| && ImportFault(g, path, g[key].deps[i]).Some?
    ensures !Acceptable(g, root)
  {
    var dep := g[key].deps[i];
    var target := dep.pin.value.release;
    if target !in g || DepFault(g, dep).Some? {
      UnsoundIsIllegal(g, root, path);
    } else {
      assert LeadsTo(g, dep, target) && Edge(g, key, target);
      PathOn(g, path, target);
      if target in path { CycleFound(g, root, path, target); } else { UnsoundIsIllegal(g, root, path + [target]); }
    }
  }

  /** The imports from the `i`th on are walked by visiting its target and then walking the others. */
  lemma ImportsUnfold(g: Inputs, key: Key, path: seq<Key>, i: nat, height: nat, s: State)
    requires key in g && i < |g[key].deps|
    ensures var dep := g[key].deps[i];
            if ImportFault(g, path, dep).Some? then Imports(g, key, path, i, height, s)
                == Err(ImportFault(g, path, dep).value)
            else
              var target := dep.pin.value.release;
              var r := Visit(g, target, path, Locked(s, target));
              Imports(g, key, path, i, height, s)
              == if r.Err? then Err(r.error)
                 else Imports(g, key, path, i + 1, Higher(height, HeightOf(r.value.heights, target)), r.value)
  {
  }

  lemma {:induction false} ImportsSound(g: Inputs, root: Key, key: Key, ancestors: seq<Key>, i: nat, height: nat,
      s: State,
                                        walked: set<(Key, nat)>, before: Walk)
      returns (walked': set<(Key, nat)>)
    requires PolicyInputs(g) && IsPath(g, ancestors + [key]) && (ancestors + [key])[0] == root
    requires Underway(g, root, ancestors, key, i, height, s, walked, before)
    ensures var r := Imports(g, key, ancestors + [key], i, height, s);
            if r.Err? then !Acceptable(g, root)
            else Underway(g, root, ancestors, key, |g[key].deps|, r.value.1, r.value.0, walked', before)
    decreases g.Keys - s.visited, 2 + |g[key].deps| - i
  {
    walked' := walked;
    if i < |g[key].deps| {
      var path := ancestors + [key];
      ImportsUnfold(g, key, path, i, height, s);
      if ImportFault(g, path, g[key].deps[i]).Some? {
        FaultIsUnacceptable(g, root, path, key, i);
      } else {
        var r, mid, next := ImportStep(g, root, key, ancestors, i, height, s, walked, before);
        if r.Ok? {
          walked' := ImportsSound(g, root, key, ancestors, i + 1, next, r.value, mid, before);
        }
      }
    }
  }

  /** Before its target is visited, one more import is walked. */
  lemma StepIn(g: Inputs, root: Key, key: Key, ancestors: seq<Key>, i: nat, height: nat, s: State,
      walked: set<(Key, nat)>,
               before: Walk)
    requires IsPath(g, ancestors + [key]) && (ancestors + [key])[0] == root
    requires Underway(g, root, ancestors, key, i, height, s, walked, before) && i < |g[key].deps|
    requires ImportFault(g, ancestors + [key], g[key].deps[i]).None?
    ensures var target := Target(g, key, i);
            && target in g && g[target].fault.None? && IsPath(g, ancestors + [key] + [target])
            && Good(g, root, ancestors + [key], Locked(s, target), walked + {(key, i)}, 0)
            && (key, i) !in walked
  {
    var target := Target(g, key, i);
    assert LeadsTo(g, g[key].deps[i], target) && Edge(g, key, target);
    PathOn(g, ancestors + [key], target);
    WalkOne(g, root, WalkOf(s, walked), ancestors + [key], key, i, height);
  }

  /** After its target has been visited, the release stands above it. */
  lemma StepOut(g: Inputs, root: Key, key: Key, ancestors: seq<Key>, i: nat, height: nat, s: State,
      walked: set<(Key, nat)>,
                before: Walk, r: State, walked': set<(Key, nat)>)
    requires Underway(g, root, ancestors, key, i, height, s, walked, before) && i < |g[key].deps| && (key, i) !in walked
    requires ImportFault(g, ancestors + [key], g[key].deps[i]).None?
    requires Visited(g, root, ancestors + [key], Target(g, key, i), WalkOf(s, walked + {(key, i)}), Ok(r), walked')
    ensures Underway(g, root, ancestors, key, i + 1,
                     Higher(height, HeightOf(r.heights, Target(g, key, i))), r, walked', before)
  {
    var start, mid, after := WalkOf(s, walked), WalkOf(s, walked + {(key, i)}), WalkOf(r, walked');
    assert mid == start.(walked := start.walked + {(key, i)});
    assert mid.(walked := mid.walked - {(key, i)}) == start by { assert walked + {(key, i)} - {(key, i)} == walked; }
    Climb(g, mid, after, key, i, height, Higher(height, HeightOf(r.heights, Target(g, key, i))));
    StillExtends(before, start, after, key, i);
  }

  lemma {:induction false} ImportStep(g: Inputs, root: Key, key: Key, ancestors: seq<Key>, i: nat, height: nat,
      s: State,
                                      walked: set<(Key, nat)>, before: Walk)
      returns (r: Result<State, GraphError>, walked': set<(Key, nat)>, next: nat)
    requires PolicyInputs(g) && IsPath(g, ancestors + [key]) && (ancestors + [key])[0] == root
    requires Underway(g, root, ancestors, key, i, height, s, walked, before) && i < |g[key].deps|
    requires ImportFault(g, ancestors + [key], g[key].deps[i]).None?
    ensures r == Visit(g, Target(g, key, i), ancestors + [key], Locked(s, Target(g, key, i)))
    ensures r.Err? ==> !Acceptable(g, root)
    ensures r.Ok? ==> next == Higher(height, HeightOf(r.value.heights, Target(g, key, i)))
                      && Underway(g, root, ancestors, key, i + 1, next, r.value, walked', before)
    decreases g.Keys - s.visited, 2
  {
    var path, target := ancestors + [key], Target(g, key, i);
    StepIn(g, root, key, ancestors, i, height, s, walked, before);
    walked' := VisitSound(g, root, target, path, Locked(s, target), walked + {(key, i)});
    r := Visit(g, target, path, Locked(s, target));
    next := 0;
    if r.Ok? {
      assert WalkOf(Locked(s, target), walked + {(key, i)}) == WalkOf(s, walked + {(key, i)});
      StepOut(g, root, key, ancestors, i, height, s, walked, before, r.value, walked');
      next := Higher(height, HeightOf(r.value.heights, target));
    }
  }
}
