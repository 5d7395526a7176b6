/** Flattening a policy: the walk over its modules, and the blocks it gathers. */
module FlattenRun {
  import opened Common
  import opened Graph
  import opened GraphRun
  import opened Scope
  import opened Flatten
  import opened FlattenWalk

  /** A block as declared in a module, with the position it has by default. */
  datatype Declared = Declared(id: string, text: string, position: string)

  /** A block of the flattened policy: with a name of its own, and the module it comes from. */
  datatype Block = Block(id: string, origin: Key, declared: Declared)

  type Bodies = Key -> seq<Declared>

  /** Blocks of modules carry the module's name; those of the policy itself do not. */
  function BlockId(g: Inputs, k: Key, id: string): string
    requires k in g
  {
    if g[k].kind == ModuleKind then g[k].ref + "#" + id else id
  }

  function Named(g: Inputs, k: Key, ds: seq<Declared>): (bs: seq<Block>)
    requires k in g
    ensures |bs| == |ds|
    ensures forall i | 0 <= i < |ds| :: bs[i] == Block(BlockId(g, k, ds[i].id), k, ds[i])
  {
    if ds == [] then [] else [Block(BlockId(g, k, ds[0].id), k, ds[0])] + Named(g, k, ds[1..])
  }

  /** The blocks of modules one after another, each module's in the order of declaration. */
  function BlocksOf(g: Inputs, bodies: Bodies, s: seq<Key>): seq<Block>
    requires forall k <- s :: k in g
  {
    if s == [] then []
    else BlocksOf(g, bodies, s[..|s| - 1]) + Named(g, s[|s| - 1], bodies(s[|s| - 1]))
  }

  lemma BlocksOfMore(g: Inputs, bodies: Bodies, s: seq<Key>, k: Key)
    requires (forall x <- s :: x in g) && k in g
    ensures BlocksOf(g, bodies, s + [k]) == BlocksOf(g, bodies, s) + Named(g, k, bodies(k))
  {
    assert (s + [k])[..|s|] == s;
  }

  class Flattener {
    const g: Inputs
    const bodies: Bodies
    var visited: set<Key>
    var heights: map<Key, nat>
    var visits: nat
    var versions: map<string, Key>
    var lock: seq<Key>
    var blocks: seq<Block>
    ghost var emitted: seq<Key>

    ghost function Now(): State
      reads this
    {
      State(visited, heights, visits, versions, lock, emitted)
    }

    /** The blocks are those of the modules emitted so far. */
    ghost predicate Valid()
      reads this
    {
      (forall k <- emitted :: k in g) && blocks == BlocksOf(g, bodies, emitted)
    }

    constructor (inputs: Inputs, contents: Bodies)
      ensures g == inputs && bodies == contents && Now() == State({}, map[], 0, map[], [], []) && Valid()
    {
      g, bodies, visited, heights, visits, versions, lock, blocks := inputs, contents, {}, map[], 0, map[], [], [];
      emitted := [];
    }

    method Visit(key: Key, ancestors: seq<Key>) returns (r: Result<(), GraphError>)
      requires key in g && Valid()
      modifies this
      decreases g.Keys - visited, 1
      ensures var spec := FlattenWalk.Visit(g, key, ancestors, old(Now()));
              if spec.Err? then r == Err(spec.error) else r.Ok? && Now() == spec.value && Valid()
    {
      ghost var before := Now();
      if key in ancestors { return Err(Cycle); }
      var ref := g[key].ref;
      if ref in versions && versions[ref] != key { return Err(DiamondConflict); }
      versions, visits := versions[ref := key], visits + 1;
      if visits > MAX_GRAPH_INSTANCES { return Err(TooLarge); }
      if |ancestors| + HeightOf(heights, key) > MAX_GRAPH_DEPTH { return Err(TooDeep); }
      if key in visited { return Ok(()); }
      VisitEnters(g, key, ancestors, before);
      visited := visited + {key};
      assert Now() == Entered(g, key, before);
      r := EmitModule(key, ancestors + [key]);
    }

    /** Walks the imports of a module that has been entered, then gives it its height and emits its blocks. */
    method EmitModule(key: Key, path: seq<Key>) returns (r: Result<(), GraphError>)
      requires key in g && Valid()
      modifies this
      decreases g.Keys - visited, 4
      ensures var spec := Imports(g, key, path, 0, 0, old(Now()));
              if spec.Err? then r == Err(spec.error)
              else
                && r.Ok? && Valid()
                && Now() == spec.value.0.(heights := spec.value.0.heights[key := spec.value.1],
                                          emitted := spec.value.0.emitted + [key])
    {
      var height := VisitImports(key, path);
      if height.Err? { return Err(height.error); }
      BlocksOfMore(g, bodies, emitted, key);
      heights, blocks := heights[key := height.value], blocks + Named(g, key, bodies(key));
      emitted := emitted + [key];
      r := Ok(());
    }

    /** Walks the imports of a module in order; the result is its height. */
    method VisitImports(key: Key, path: seq<Key>) returns (r: Result<nat, GraphError>)
      requires key in g && Valid()
      modifies this
      decreases g.Keys - visited, 3
      ensures var spec := Imports(g, key, path, 0, 0, old(Now()));
              if spec.Err? then r == Err(spec.error) else r == Ok(spec.value.1) && Now() == spec.value.0 && Valid()
    {
      ghost var start, goal := Now(), Imports(g, key, path, 0, 0, Now());
      var height, i := 0, 0;
      while i < |g[key].deps|
        invariant i <= |g[key].deps| && start.visited <= visited && Valid()
        invariant goal == Imports(g, key, path, i, height, Now())
      {
        ImportsUnfold(g, key, path, i, height, Now());
        var next := VisitImport(key, path, i);
        if next.Err? { return Err(next.error); }
        height, i := Higher(height, next.value), i + 1;
      }
      r := Ok(height);
    }

    /** Checks one import, locks its target when that is new, and visits it; the result is the target's height. */
    method VisitImport(key: Key, path: seq<Key>, i: nat) returns (r: Result<nat, GraphError>)
      requires key in g && i < |g[key].deps| && Valid()
      modifies this
      decreases g.Keys - visited, 2
      ensures var dep, before := g[key].deps[i], old(Now());
              if ImportFault(g, path, dep).Some? then r == Err(ImportFault(g, path, dep).value)
              else
                var target := dep.pin.value.release;
                var spec := FlattenWalk.Visit(g, target, path, Locked(before, target));
                if spec.Err? then r == Err(spec.error)
                else r == Ok(HeightOf(spec.value.heights, target)) && Now() == spec.value && Valid()
    {
      var fault := ImportFault(g, path, g[key].deps[i]);
      if fault.Some? { return Err(fault.value); }
      var target := g[key].deps[i].pin.value.release;
      if target !in visited { lock := lock + [target]; }
      var child := Visit(target, path);
      if child.Err? { return Err(child.error); }
      r := Ok(HeightOf(heights, target));
    }
  }

  // ---------------------------------------------------------------------------
  // A whole policy
  // ---------------------------------------------------------------------------

  /** The modules of a policy in the order they are emitted. */
  function Order(g: Inputs, root: Key): seq<Key>
    requires root in g
  {
    Emit(g, root, Emission({}, [])).emitted
  }

  lemma WalkStarts(g: Inputs, root: Key)
    requires root in g
    ensures Good(g, root, [], State({}, map[], 0, map[], [], []), {}, 0) && IsPath(g, [] + [root])
    ensures Locks(State({}, map[], 0, map[], [], []), {} + {root}, root)
  {
    assert Edges(g, {}) == {};
    assert [] + [root] == [root];
  }

  /** A walk that succeeds from the root shows the policy acceptable, and gives the order its laws. */
  lemma WalkEnds(g: Inputs, root: Key, s: State, walked: set<(Key, nat)>)
    requires root in g && Good(g, root, [], s, walked, 1) && root in s.heights && s.heights[root] <= MAX_GRAPH_DEPTH
    ensures Acceptable(g, root) && s.visited == Reach(g, root)
    ensures Elems(Order(g, root)) == Reach(g, root) && DependencyFirst(g, Order(g, root))
    ensures Order(g, root) != [] && Last(Order(g, root)) == root
  {
    WalkedAll(g, root, WalkOf(s, walked));
    EmitLaw(g, s.heights, root);
    forall a <- Reach(g, root), b <- Reach(g, root) | g[a].ref == g[b].ref ensures a == b {
      assert s.versions[g[a].ref] == a && s.versions[g[b].ref] == b;
    }
  }

  /**
   * A policy is flattened exactly when it is acceptable. Its modules then come in dependency order,
   * each module in reach once and after everything it imports; the blocks are theirs in order of
   * declaration; the lock names each imported module once.
   */
  method FlattenPolicy(g: Inputs, bodies: Bodies, root: Key)
      returns (r: Result<seq<Block>, GraphError>, lock: seq<Key>)
    requires PolicyInputs(g) && root in g
    ensures r.Ok? <==> Acceptable(g, root)
    ensures r.Ok? ==>
              && Elems(Order(g, root)) == Reach(g, root) && DependencyFirst(g, Order(g, root))
              && Order(g, root) != [] && Last(Order(g, root)) == root
              && (forall k <- Order(g, root) :: k in g) && r.value == BlocksOf(g, bodies, Order(g, root))
              && NoDup(lock) && Elems(lock) == Reach(g, root) - {root}
  {
    WalkStarts(g, root);
    if g[root].fault.Some? {
      assert Last([root]) == root && [root][0] == root && [] + [root] == [root];
      UnsoundIsIllegal(g, root, [root]);
      return Err(g[root].fault.value), [];
    }
    var f := new Flattener(g, bodies);
    ghost var start := f.Now();
    var done := f.Visit(root, []);
    lock := f.lock;
    ghost var walked := VisitSound(g, root, root, [], start, {});
    if done.Err? { return Err(done.error), lock; }
    WalkEnds(g, root, f.Now(), walked);
    VisitEmits(g, root, [], start);
    VisitLocks(g, root, root, [], start);
    r := Ok(f.blocks);
  }
}
