/** Which block a placement names and where every block ends up, told by imports, declarations and places. */
module PresetLaws {
  import opened Common
  import opened Graph
  import opened Scope
  import opened FlattenRun
  import opened Preset

  // ---------------------------------------------------------------------------
  // The block at the end of a path
  // ---------------------------------------------------------------------------

  /** The names with a slash between each two. */
  ghost function WithSlashes(names: seq<string>): string {
    if names == [] then "" else if |names| == 1 then names[0] else names[0] + "/" + WithSlashes(names[1..])
  }

  /** A path is its names with slashes between them, and no name holds a slash. */
  lemma {:induction false} SplitExactly(path: string)
    ensures WithSlashes(Split(path)) == path && forall i | 0 <= i < |Split(path)| :: '/' !in Split(path)[i]
  {
    if path != "" {
      var rest := Split(path[1..]);
      SplitExactly(path[1..]);
      if path[0] == '/' {
        assert ([""] + rest)[1..] == rest;
        assert WithSlashes([""] + rest) == "" + "/" + WithSlashes(rest);
      } else {
        assert ([[path[0]] + rest[0]] + rest[1..])[1..] == rest[1..];
        assert rest[0] in rest;
      }
    }
  }

  /** The import named `id` leads somewhere. */
  ghost predicate Leading(g: Inputs, dep: Dep, id: string) {
    dep.id == id && dep.pin.Some? && dep.pin.value.release in g
  }

  /** The `i`th is the last import named `id` that leads somewhere. */
  ghost predicate LastNamed(g: Inputs, deps: seq<Dep>, id: string, i: int) {
    0 <= i < |deps| && Leading(g, deps[i], id) && forall j | i < j < |deps| :: !Leading(g, deps[j], id)
  }

  /** The import of `k` named `id`, the last one if there are several, pins `next`. */
  ghost predicate Imports(g: Inputs, k: Key, id: string, next: Key) {
    k in g && exists i :: LastNamed(g, g[k].deps, id, i) && g[k].deps[i].pin.value.release == next
  }

  /** Going from `root` along the imports, in order, leads through the releases `ks`. */
  ghost predicate Route(g: Inputs, root: Key, imports: seq<string>, ks: seq<Key>) {
    && |ks| == |imports| + 1 && ks[0] == root
    && forall j | 0 <= j < |imports| :: Imports(g, ks[j], imports[j], ks[j + 1])
  }

  /** The `i`th is the last block declared as `id`. */
  ghost predicate LastDeclared(ds: seq<Declared>, id: string, i: int) {
    0 <= i < |ds| && ds[i].id == id && forall j | i < j < |ds| :: ds[j].id != id
  }

  /** `d` is the block declared as `id`, the last one if there are several. */
  ghost predicate Declares(ds: seq<Declared>, id: string, d: Declared) {
    exists i :: LastDeclared(ds, id, i) && ds[i] == d
  }

  lemma LastNamedFront(g: Inputs, deps: seq<Dep>, id: string, i: int)
    requires deps != [] && !Leading(g, deps[|deps| - 1], id)
    ensures LastNamed(g, deps, id, i) <==> LastNamed(g, deps[..|deps| - 1], id, i)
  {
    var front := deps[..|deps| - 1];
    assert forall j | 0 <= j < |front| :: front[j] == deps[j];
    if LastNamed(g, front, id, i) {
      forall j | i < j < |deps| ensures !Leading(g, deps[j], id) {
        assert j < |front| ==> !Leading(g, front[j], id);
      }
    }
  }

  lemma {:induction false} ImportFound(g: Inputs, deps: seq<Dep>, id: string, next: Key)
    ensures ImportOf(g, deps, id) == Some(next)
            <==> exists i :: LastNamed(g, deps, id, i) && deps[i].pin.value.release == next
    decreases |deps|
  {
    if deps != [] {
      var last, front := |deps| - 1, deps[..|deps| - 1];
      if Leading(g, deps[last], id) {
        assert LastNamed(g, deps, id, last);
        forall i | LastNamed(g, deps, id, i) ensures i == last {}
      } else {
        ImportFound(g, front, id, next);
        forall i ensures LastNamed(g, deps, id, i) <==> LastNamed(g, front, id, i) { LastNamedFront(g, deps, id, i); }
      }
    }
  }

  lemma LastDeclaredFront(ds: seq<Declared>, id: string, i: int)
    requires ds != [] && ds[|ds| - 1].id != id
    ensures LastDeclared(ds, id, i) <==> LastDeclared(ds[..|ds| - 1], id, i)
  {
    var front := ds[..|ds| - 1];
    assert forall j | 0 <= j < |front| :: front[j] == ds[j];
    if LastDeclared(front, id, i) {
      forall j | i < j < |ds| ensures ds[j].id != id {
        assert j < |front| ==> front[j].id != id;
      }
    }
  }

  lemma {:induction false} DeclaredFound(ds: seq<Declared>, id: string, d: Declared)
    ensures DeclaredAs(ds, id) == Some(d) <==> Declares(ds, id, d)
    decreases |ds|
  {
    if ds != [] {
      var last, front := |ds| - 1, ds[..|ds| - 1];
      if ds[last].id == id {
        assert LastDeclared(ds, id, last);
        forall i | LastDeclared(ds, id, i) ensures i == last {}
      } else {
        DeclaredFound(front, id, d);
        forall i ensures LastDeclared(ds, id, i) <==> LastDeclared(front, id, i) { LastDeclaredFront(ds, id, i); }
      }
    }
  }

  lemma ImportExactly(g: Inputs, k: Key, id: string, next: Key)
    requires k in g
    ensures ImportOf(g, g[k].deps, id) == Some(next) <==> Imports(g, k, id, next)
  {
    ImportFound(g, g[k].deps, id, next);
  }

  lemma {:induction false} RouteFound(g: Inputs, k: Key, imports: seq<string>) returns (ks: seq<Key>)
    requires k in g && Follow(g, k, imports).Some?
    ensures Route(g, k, imports, ks) && ks[|imports|] == Follow(g, k, imports).value
    decreases |imports|
  {
    if imports == [] {
      ks := [k];
    } else {
      var next := ImportOf(g, g[k].deps, imports[0]).value;
      ImportExactly(g, k, imports[0], next);
      var rest := RouteFound(g, next, imports[1..]);
      ks := [k] + rest;
      forall j | 0 <= j < |imports| ensures Imports(g, ks[j], imports[j], ks[j + 1]) {
        if j > 0 { assert Imports(g, rest[j - 1], imports[1..][j - 1], rest[j]); }
      }
    }
  }

  lemma {:induction false} RouteFollows(g: Inputs, k: Key, imports: seq<string>, ks: seq<Key>)
    requires k in g && Route(g, k, imports, ks)
    ensures Follow(g, k, imports) == Some(ks[|imports|])
    decreases |imports|
  {
    if imports != [] {
      assert Imports(g, ks[0], imports[0], ks[1]);
      ImportExactly(g, k, imports[0], ks[1]);
      forall j | 0 <= j < |imports| - 1 ensures Imports(g, ks[1..][j], imports[1..][j], ks[1..][j + 1]) {
        assert Imports(g, ks[j + 1], imports[j + 1], ks[j + 2]);
      }
      RouteFollows(g, ks[1], imports[1..], ks[1..]);
    }
  }

  /** `b` is what `k` declares as `id`; blocks of modules carry the module's name. */
  ghost predicate BlockOf(g: Inputs, bodies: Bodies, k: Key, id: string, b: Block) {
    && k in g && b.origin == k && Declares(bodies(k), id, b.declared)
    && b.id == if g[k].kind == ModuleKind then g[k].ref + "#" + id else id
  }

  /**
   * A placement names the block `b` exactly when its imports, followed one after another from the
   * root, lead to a release that declares `b` under the last name of the path, which is not empty.
   */
  lemma BlockAtExactly(g: Inputs, bodies: Bodies, root: Key, p: Placement, b: Block)
    requires root in g
    ensures BlockAt(g, bodies, root, p) == Some(b)
            <==> p.BlockName() != "" && exists ks ::
                   Route(g, root, p.Way(), ks) && BlockOf(g, bodies, ks[|p.Way()|], p.BlockName(), b)
  {
    var end := Follow(g, root, p.Way());
    if end.Some? {
      var k := end.value;
      DeclaredFound(bodies(k), p.BlockName(), b.declared);
      if BlockAt(g, bodies, root, p) == Some(b) {
        DeclaredIsIn(bodies(k), p.BlockName());
        DeclaredFound(bodies(k), p.BlockName(), DeclaredAs(bodies(k), p.BlockName()).value);
        var ks := RouteFound(g, root, p.Way());
        assert BlockOf(g, bodies, ks[|p.Way()|], p.BlockName(), b);
      }
    }
    if p.BlockName() != "" {
      forall ks | Route(g, root, p.Way(), ks) && BlockOf(g, bodies, ks[|p.Way()|], p.BlockName(), b)
        ensures BlockAt(g, bodies, root, p) == Some(b)
      {
        RouteFollows(g, root, p.Way(), ks);
        DeclaredFound(bodies(ks[|p.Way()|]), p.BlockName(), b.declared);
        var i :| 0 <= i < |bodies(b.origin)| && bodies(b.origin)[i] == b.declared && b.declared.id == p.BlockName();
      }
    }
  }

  // ---------------------------------------------------------------------------
  // The blocks of a policy
  // ---------------------------------------------------------------------------

  /** The blocks of one release, in the order it declares them. */
  ghost predicate OwnBlocks(g: Inputs, bodies: Bodies, k: Key, seg: seq<Block>) {
    && k in g && |seg| == |bodies(k)|
    && forall j | 0 <= j < |seg| ::
         && seg[j].origin == k && seg[j].declared == bodies(k)[j]
         && seg[j].id == if g[k].kind == ModuleKind then g[k].ref + "#" + bodies(k)[j].id else bodies(k)[j].id
  }

  /** The blocks of a policy are those of its releases, one release after another. */
  lemma {:induction false} BlocksExactly(g: Inputs, bodies: Bodies, s: seq<Key>) returns (segs: seq<seq<Block>>)
    requires forall k <- s :: k in g
    ensures BlocksOf(g, bodies, s) == Flat(segs) && |segs| == |s|
    ensures forall i | 0 <= i < |s| :: OwnBlocks(g, bodies, s[i], segs[i])
    decreases |s|
  {
    segs := [];
    if s != [] {
      var last := s[|s| - 1];
      var front := BlocksExactly(g, bodies, s[..|s| - 1]);
      var own := Named(g, last, bodies(last));
      segs := front + [own];
      FlatConcat(front, [own]);
      assert Flat([own]) == own + Flat([]);
      assert OwnBlocks(g, bodies, last, own);
      forall i | 0 <= i < |s| ensures OwnBlocks(g, bodies, s[i], segs[i]) {
        if i < |s| - 1 { assert OwnBlocks(g, bodies, s[..|s| - 1][i], front[i]); }
      }
    }
  }

  // ---------------------------------------------------------------------------
  // Where everything stands
  // ---------------------------------------------------------------------------

  /** The name of a placed block: its own, the position, and the placement's name or again the position. */
  ghost function NameOf(b: Block, p: Placement): string {
    b.id + "~" + p.at + "~" + if p.alias.Some? then p.alias.value else p.at
  }

  /** The block each placement names, no two under one name. */
  ghost predicate Answers(g: Inputs, bodies: Bodies, root: Key, ps: seq<Placement>, bs: seq<Block>)
    requires root in g
  {
    && |bs| == |ps| && (forall i | 0 <= i < |ps| :: BlockAt(g, bodies, root, ps[i]) == Some(bs[i]))
    && forall i, j | 0 <= i < j < |ps| :: NameOf(bs[i], ps[i]) != NameOf(bs[j], ps[j])
  }

  /** A block that no placement names. */
  ghost function Unnamed(bs: seq<Block>): Block -> bool {
    (b: Block) => forall c <- bs :: c.id != b.id
  }

  /** The placed blocks `bs` in the order of their placements, then the blocks at `ks` where they stand by default. */
  ghost predicate Stands(ps: seq<Placement>, bs: seq<Block>, blocks: seq<Block>, ks: seq<nat>, out: seq<Placed>) {
    && |bs| == |ps| && |out| == |ps| + |ks| && (forall k <- ks :: k < |blocks|)
    && (forall i | 0 <= i < |ps| :: out[i] == Placed(NameOf(bs[i], ps[i]), bs[i], ps[i].at, Some(ps[i])))
    && forall i | 0 <= i < |ks| ::
         ks[i] < |blocks|
         && out[|ps| + i] == Placed(blocks[ks[i]].id, blocks[ks[i]], blocks[ks[i]].declared.position, None)
  }

  lemma {:induction false} NamesListed(bs: seq<Block>, ps: seq<Placement>)
    requires |bs| == |ps|
    ensures |PlacedIds(bs, ps)| == |bs| && forall i | 0 <= i < |bs| :: PlacedIds(bs, ps)[i] == NameOf(bs[i], ps[i])
  {
    if bs != [] { NamesListed(bs[1..], ps[1..]); }
  }

  lemma {:induction false} ExplicitListed(bs: seq<Block>, ps: seq<Placement>)
    requires |bs| == |ps|
    ensures |Explicit(bs, ps)| == |bs|
    ensures forall i | 0 <= i < |bs| ::
              Explicit(bs, ps)[i] == Placed(NameOf(bs[i], ps[i]), bs[i], ps[i].at, Some(ps[i]))
  {
    if bs != [] { ExplicitListed(bs[1..], ps[1..]); }
  }

  lemma {:induction false} DefaultListed(blocks: seq<Block>, bs: seq<Block>, from: nat)
    requires from <= |blocks|
    ensures var ks, out := PlacesFrom(Unnamed(bs), blocks, from), Default(blocks[from..], Ids(bs));
            && |out| == |ks|
            && forall i | 0 <= i < |ks| ::
                 && ks[i] < |blocks|
                 && out[i] == Placed(blocks[ks[i]].id, blocks[ks[i]], blocks[ks[i]].declared.position, None)
    decreases |blocks| - from
  {
    if from < |blocks| {
      DefaultListed(blocks, bs, from + 1);
      assert blocks[from..][1..] == blocks[from + 1..];
      assert Unnamed(bs)(blocks[from]) <==> blocks[from].id !in Ids(bs);
    }
  }

  /** The blocks that `find` gives, no two under one name. */
  ghost predicate Found(find: Finder, ps: seq<Placement>, bs: seq<Block>) {
    && |bs| == |ps| && (forall i | 0 <= i < |ps| :: find(ps[i]) == Some(bs[i]))
    && forall i, j | 0 <= i < j < |ps| :: NameOf(bs[i], ps[i]) != NameOf(bs[j], ps[j])
  }

  lemma FoundLast(find: Finder, ps: seq<Placement>, bs: seq<Block>)
    requires ps != [] && |bs| == |ps|
    ensures var last := |ps| - 1;
            Found(find, ps, bs)
            <==> && Found(find, ps[..last], bs[..last]) && find(ps[last]) == Some(bs[last])
                 && forall i | 0 <= i < last :: NameOf(bs[i], ps[i]) != NameOf(bs[last], ps[last])
  {
    var last := |ps| - 1;
    assert forall i | 0 <= i < last :: bs[..last][i] == bs[i] && ps[..last][i] == ps[i];
  }

  lemma {:induction false} ChosenExactly(find: Finder, ps: seq<Placement>, bs: seq<Block>)
    ensures Chosen(find, ps) == Ok(bs) <==> Found(find, ps, bs)
    decreases |ps|
  {
    if ps == [] {
      assert |bs| == 0 <==> bs == [];
    } else if |bs| == |ps| {
      ChosenExactly(find, ps[..|ps| - 1], bs[..|ps| - 1]);
      ChosenLastName(find, ps, bs);
      FoundLast(find, ps, bs);
    } else if Chosen(find, ps).Ok? {
      ChosenLength(find, ps);
    }
  }

  lemma ChosenLastName(find: Finder, ps: seq<Placement>, bs: seq<Block>)
    requires ps != [] && |bs| == |ps|
    ensures var last := |ps| - 1;
            Chosen(find, ps) == Ok(bs)
            <==> && Chosen(find, ps[..last]) == Ok(bs[..last]) && find(ps[last]) == Some(bs[last])
                 && forall i | 0 <= i < last :: NameOf(bs[i], ps[i]) != NameOf(bs[last], ps[last])
  {
    var last := |ps| - 1;
    assert bs == bs[..last] + [bs[last]];
    NameGiven(bs[..last], ps[..last], bs[last], ps[last]);
    assert forall i | 0 <= i < last :: NameOf(bs[..last][i], ps[..last][i]) == NameOf(bs[i], ps[i]);
    var front := Chosen(find, ps[..last]);
    if front.Ok? && find(ps[last]).Some? {
      ChosenLength(find, ps[..last]);
      var all := front.value + [find(ps[last]).value];
      assert all == bs <==> front.value == bs[..last] && find(ps[last]).value == bs[last];
    }
  }

  lemma NameGiven(bs: seq<Block>, ps: seq<Placement>, b: Block, p: Placement)
    requires |bs| == |ps|
    ensures PlacedId(b, p) in PlacedIds(bs, ps) <==> exists i :: 0 <= i < |bs| && NameOf(bs[i], ps[i]) == NameOf(b, p)
  {
    NamesListed(bs, ps);
    assert PlacedId(b, p) == NameOf(b, p);
    if i :| 0 <= i < |bs| && NameOf(bs[i], ps[i]) == NameOf(b, p) {
      assert PlacedIds(bs, ps)[i] == NameOf(b, p);
    }
  }

  /**
   * Placing gives `out` exactly when every placement names a block, no two under one name, and
   * `out` holds those blocks at the positions of their placements, in order, and then the blocks
   * that no placement names, in order, at the positions they have by default.
   */
  lemma PlaceExactly(g: Inputs, bodies: Bodies, root: Key, blocks: seq<Block>, ps: seq<Placement>, out: seq<Placed>)
    requires root in g
    ensures Place(g, bodies, root, blocks, ps) == Ok(out)
            <==> exists bs, ks ::
                   && Answers(g, bodies, root, ps, bs)
                   && Places(Unnamed(bs), blocks, ks) && Stands(ps, bs, blocks, ks, out)
  {
    var find := FinderOf(g, bodies, root);
    if Place(g, bodies, root, blocks, ps) == Ok(out) {
      var bs := Chosen(find, ps).value;
      ChosenExactly(find, ps, bs);
      var ks := PlaceStands(blocks, bs, ps);
      assert Answers(g, bodies, root, ps, bs);
    }
    forall bs, ks | && Answers(g, bodies, root, ps, bs)
                    && Places(Unnamed(bs), blocks, ks) && Stands(ps, bs, blocks, ks, out)
      ensures Place(g, bodies, root, blocks, ps) == Ok(out)
    {
      ChosenExactly(find, ps, bs);
      var ls := PlaceStands(blocks, bs, ps);
      PlacesUnique(Unnamed(bs), blocks, ks, ls);
      StandsOnce(ps, bs, blocks, ks, out, Explicit(bs, ps) + Default(blocks, Ids(bs)));
    }
  }

  lemma StandsOnce(ps: seq<Placement>, bs: seq<Block>, blocks: seq<Block>, ks: seq<nat>, a: seq<Placed>, b: seq<Placed>)
    requires Stands(ps, bs, blocks, ks, a) && Stands(ps, bs, blocks, ks, b)
    ensures a == b
  {
    forall i | 0 <= i < |a| ensures a[i] == b[i] {
      if i >= |ps| { assert ks[i - |ps|] < |blocks|; }
    }
  }

  lemma PlaceStands(blocks: seq<Block>, bs: seq<Block>, ps: seq<Placement>) returns (ks: seq<nat>)
    requires |bs| == |ps|
    ensures Places(Unnamed(bs), blocks, ks) && Stands(ps, bs, blocks, ks, Explicit(bs, ps) + Default(blocks, Ids(bs)))
  {
    ks := PlacesOf(Unnamed(bs), blocks);
    assert blocks[0..] == blocks;
    DefaultListed(blocks, bs, 0);
    ExplicitListed(bs, ps);
  }

  lemma {:induction false} PlacesUnique<T>(p: T -> bool, s: seq<T>, ks: seq<nat>, ls: seq<nat>)
    requires Places(p, s, ks) && Places(p, s, ls)
    ensures ks == ls
  {
    forall k ensures k in ks <==> k in ls {
      if k in ks { assert p(s[k]); }
      if k in ls { assert p(s[k]); }
    }
    AscendingUnique(ks, ls);
  }

  lemma InitMember(ks: seq<nat>, k: nat)
    requires ks != [] && Ascending(ks)
    ensures k in ks[..|ks| - 1] <==> k in ks && k != ks[|ks| - 1]
  {
    assert ks == ks[..|ks| - 1] + [ks[|ks| - 1]];
    if k in ks[..|ks| - 1] {
      var i :| 0 <= i < |ks| - 1 && ks[i] == k;
    }
  }

  lemma SameLast(ks: seq<nat>, ls: seq<nat>)
    requires Ascending(ks) && Ascending(ls) && ks != [] && ls != [] && forall k :: k in ks <==> k in ls
    ensures ks[|ks| - 1] == ls[|ls| - 1]
  {
    var k, l := ks[|ks| - 1], ls[|ls| - 1];
    assert k in ks && l in ls;
    var i :| 0 <= i < |ls| && ls[i] == k;
    var j :| 0 <= j < |ks| && ks[j] == l;
  }

  lemma {:induction false} AscendingUnique(ks: seq<nat>, ls: seq<nat>)
    requires Ascending(ks) && Ascending(ls) && forall k :: k in ks <==> k in ls
    ensures ks == ls
    decreases |ks|
  {
    if ls != [] { assert ls[0] in ls; }
    if ks != [] {
      assert ks[0] in ks;
      SameLast(ks, ls);
      var m, n := |ks| - 1, |ls| - 1;
      forall k ensures k in ks[..m] <==> k in ls[..n] {
        InitMember(ks, k);
        InitMember(ls, k);
      }
      AscendingUnique(ks[..m], ls[..n]);
      assert ks == ks[..m] + [ks[m]] && ls == ls[..n] + [ls[n]];
    }
  }

  /**
   * When placing fails, there is a first placement at fault: all before it name blocks under
   * different names, and it names none, or one under a name already given.
   */
  lemma {:induction false} PlaceFails(g: Inputs, bodies: Bodies, root: Key, blocks: seq<Block>, ps: seq<Placement>)
    returns (i: nat, bs: seq<Block>)
    requires root in g && Place(g, bodies, root, blocks, ps).Err?
    ensures i < |ps| && Answers(g, bodies, root, ps[..i], bs)
    ensures var b := BlockAt(g, bodies, root, ps[i]);
            if b.None? then Place(g, bodies, root, blocks, ps) == Err(PlacementMissing)
            else Place(g, bodies, root, blocks, ps) == Err(DuplicatePlacement)
                 && exists j :: 0 <= j < i && NameOf(bs[j], ps[j]) == NameOf(b.value, ps[i])
    decreases |ps|
  {
    var find, last := FinderOf(g, bodies, root), |ps| - 1;
    var front := ps[..last];
    if Chosen(find, front).Err? {
      i, bs := PlaceFails(g, bodies, root, blocks, front);
      assert front[..i] == ps[..i];
    } else {
      i, bs := last, Chosen(find, front).value;
      ChosenExactly(find, front, bs);
      if find(ps[last]).Some? {
        NameGiven(bs, front, find(ps[last]).value, ps[last]);
        var j :| 0 <= j < |bs| && NameOf(bs[j], front[j]) == NameOf(find(ps[last]).value, ps[last]);
        assert NameOf(bs[j], ps[j]) == NameOf(find(ps[last]).value, ps[last]);
      }
    }
  }
}
