/** Placing the blocks of a flattened policy: where placements say, and otherwise where blocks stand by default. */
module Preset {
  import opened Common
  import opened Graph
  import opened Scope
  import opened Flatten
  import opened FlattenWalk
  import opened FlattenRun

  /** `path.split("/")`. */
  function Split(path: string): (r: seq<string>)
    ensures r != []
  {
    if path == "" then [""]
    else
      var rest := Split(path[1..]);
      if path[0] == '/' then [""] + rest else [[path[0]] + rest[0]] + rest[1..]
  }

  /** Puts the block at the end of a path of imports somewhere, perhaps under a name. */
  datatype Placement = Placement(path: string, at: string, alias: Option<string>)
  {
    /** The names of the imports on the way. */
    function Way(): seq<string> {
      Split(path)[..|Split(path)| - 1]
    }

    function BlockName(): string {
      Split(path)[|Split(path)| - 1]
    }
  }

  datatype Placed = Placed(id: string, block: Block, position: string, placement: Option<Placement>)

  datatype PlaceError = PlacementMissing | DuplicatePlacement

  // ---------------------------------------------------------------------------
  // Finding blocks
  // ---------------------------------------------------------------------------

  /** The release an import of a module leads to; of two imports with one name, the later. */
  function ImportOf(g: Inputs, deps: seq<Dep>, id: string): Option<Key> {
    if deps == [] then None
    else
      var d := deps[|deps| - 1];
      if d.id == id && d.pin.Some? && d.pin.value.release in g then Some(d.pin.value.release)
      else ImportOf(g, deps[..|deps| - 1], id)
  }

  function Follow(g: Inputs, k: Key, imports: seq<string>): Option<Key>
    requires k in g
    decreases |imports|
  {
    if imports == [] then Some(k)
    else
      match ImportOf(g, g[k].deps, imports[0])
      case None => None
      case Some(next) => if next in g then Follow(g, next, imports[1..]) else None
  }

  function DeclaredAs(ds: seq<Declared>, id: string): Option<Declared> {
    if ds == [] then None
    else if ds[|ds| - 1].id == id then Some(ds[|ds| - 1])
    else DeclaredAs(ds[..|ds| - 1], id)
  }

  function BlockAt(g: Inputs, bodies: Bodies, root: Key, p: Placement): Option<Block>
    requires root in g
  {
    match Follow(g, root, p.Way())
    case None => None
    case Some(k) =>
      if p.BlockName() == "" || k !in g then None
      else
        match DeclaredAs(bodies(k), p.BlockName())
        case None => None
        case Some(d) => Some(Block(BlockId(g, k, d.id), k, d))
  }

  // ---------------------------------------------------------------------------
  // Placing
  // ---------------------------------------------------------------------------

  type Finder = Placement -> Option<Block>

  function FinderOf(g: Inputs, bodies: Bodies, root: Key): Finder
    requires root in g
  {
    (p: Placement) => BlockAt(g, bodies, root, p)
  }

  /** The block each placement names, in their order; none may be missing. */
  function Chosen(find: Finder, ps: seq<Placement>): Result<seq<Block>, PlaceError>
    decreases |ps|
  {
    if ps == [] then Ok([])
    else
      var last := |ps| - 1;
      match Chosen(find, ps[..last])
      case Err(e) => Err(e)
      case Ok(bs) =>
        match find(ps[last])
        case None => Err(PlacementMissing)
        case Some(b) => if PlacedId(b, ps[last]) in PlacedIds(bs, ps[..last]) then Err(DuplicatePlacement)
            else Ok(bs + [b])
  }

  function PlacedId(b: Block, p: Placement): string {
    b.id + "~" + p.at + "~" + (match p.alias case None => p.at case Some(a) => a)
  }

  function PlacedIds(bs: seq<Block>, ps: seq<Placement>): (r: seq<string>) {
    if bs == [] || ps == [] then [] else [PlacedId(bs[0], ps[0])] + PlacedIds(bs[1..], ps[1..])
  }

  function Explicit(bs: seq<Block>, ps: seq<Placement>): seq<Placed> {
    if bs == [] || ps == [] then []
    else [Placed(PlacedId(bs[0], ps[0]), bs[0], ps[0].at, Some(ps[0]))] + Explicit(bs[1..], ps[1..])
  }

  function Ids(bs: seq<Block>): set<string> {
    set b | b in bs :: b.id
  }

  function Default(bs: seq<Block>, taken: set<string>): seq<Placed> {
    if bs == [] then []
    else if bs[0].id in taken then Default(bs[1..], taken)
    else [Placed(bs[0].id, bs[0], bs[0].declared.position, None)] + Default(bs[1..], taken)
  }

  /** Placements first, in their order; then, in theirs, the blocks that no placement names. */
  function Place(g: Inputs, bodies: Bodies, root: Key, blocks: seq<Block>, ps: seq<Placement>)
      : Result<seq<Placed>, PlaceError>
    requires root in g
  {
    match Chosen(FinderOf(g, bodies, root), ps)
    case Err(e) => Err(e)
    case Ok(bs) => Ok(Explicit(bs, ps) + Default(blocks, Ids(bs)))
  }

  // ---------------------------------------------------------------------------
  // Every block is placed
  // ---------------------------------------------------------------------------

  function Times(out: seq<Placed>, b: Block): nat {
    if out == [] then 0 else (if out[0].block == b then 1 else 0) + Times(out[1..], b)
  }

  function TimesIn(bs: seq<Block>, b: Block): nat {
    if bs == [] then 0 else (if bs[0] == b then 1 else 0) + TimesIn(bs[1..], b)
  }

  /** No two blocks have the same identifier. */
  ghost predicate DistinctIds(bs: seq<Block>) {
    forall i, j | 0 <= i < j < |bs| :: bs[i].id != bs[j].id
  }

  lemma {:induction false} TimesConcat(a: seq<Placed>, c: seq<Placed>, b: Block)
    ensures Times(a + c, b) == Times(a, b) + Times(c, b)
  {
    if a == [] {
      assert a + c == c;
    } else {
      assert (a + c)[1..] == a[1..] + c;
      TimesConcat(a[1..], c, b);
    }
  }

  lemma {:induction false} ExplicitTimes(bs: seq<Block>, ps: seq<Placement>, b: Block)
    requires |bs| == |ps|
    ensures Times(Explicit(bs, ps), b) == TimesIn(bs, b)
  {
    if bs != [] {
      ExplicitTimes(bs[1..], ps[1..], b);
      assert Explicit(bs, ps)[1..] == Explicit(bs[1..], ps[1..]);
    }
  }

  lemma {:induction false} DefaultTimes(bs: seq<Block>, taken: set<string>, b: Block)
    requires DistinctIds(bs)
    ensures Times(Default(bs, taken), b) == if b in bs && b.id !in taken then 1 else 0
  {
    if bs != [] {
      assert forall j | 0 <= j < |bs| - 1 :: bs[1..][j] == bs[j + 1];
      DefaultTimes(bs[1..], taken, b);
      assert bs == [bs[0]] + bs[1..];
      if bs[0].id !in taken {
        assert Default(bs, taken)[1..] == Default(bs[1..], taken);
        assert bs[0] !in bs[1..];
      }
    }
  }

  lemma {:induction false} ChosenLength(find: Finder, ps: seq<Placement>)
    requires Chosen(find, ps).Ok?
    ensures var bs := Chosen(find, ps).value;
            |bs| == |ps| && forall i | 0 <= i < |ps| :: find(ps[i]) == Some(bs[i])
    decreases |ps|
  {
    if ps != [] { ChosenLength(find, ps[..|ps| - 1]); }
  }

  lemma {:induction false} TimesAbsent(bs: seq<Block>, b: Block)
    ensures TimesIn(bs, b) > 0 <==> b in bs
  {
    if bs != [] {
      TimesAbsent(bs[1..], b);
      assert bs == [bs[0]] + bs[1..];
    }
  }

  /**
   * When placing succeeds, every block of the policy stands in the result once for each placement
   * that names it, or once by default when none does; and every placement has its block, in order.
   */
  lemma PlaceLaw(g: Inputs, bodies: Bodies, root: Key, blocks: seq<Block>, ps: seq<Placement>)
    requires root in g && DistinctIds(blocks) && Place(g, bodies, root, blocks, ps).Ok?
    requires forall p <- ps :: BlockAt(g, bodies, root, p).Some? ==> BlockAt(g, bodies, root, p).value in blocks
    ensures var out, bs := Place(g, bodies, root, blocks, ps).value, Chosen(FinderOf(g, bodies, root), ps).value;
            && |bs| == |ps| && (forall i | 0 <= i < |ps| :: BlockAt(g, bodies, root, ps[i]) == Some(bs[i]))
            && (forall b <- blocks :: Times(out, b) == if b in bs then TimesIn(bs, b) else 1)
  {
    var bs := Chosen(FinderOf(g, bodies, root), ps).value;
    ChosenLength(FinderOf(g, bodies, root), ps);
    forall b <- blocks
      ensures Times(Explicit(bs, ps) + Default(blocks, Ids(bs)), b) == if b in bs then TimesIn(bs, b) else 1
    {
      TimesConcat(Explicit(bs, ps), Default(blocks, Ids(bs)), b);
      ExplicitTimes(bs, ps, b);
      DefaultTimes(blocks, Ids(bs), b);
      TimesAbsent(bs, b);
      NamedIsTaken(blocks, bs, b);
    }
  }

  lemma NamedIsTaken(blocks: seq<Block>, bs: seq<Block>, b: Block)
    requires DistinctIds(blocks) && b in blocks && forall c <- bs :: c in blocks
    ensures b.id in Ids(bs) <==> b in bs
  {
    if b.id in Ids(bs) {
      var c :| c in bs && c.id == b.id;
      var i :| 0 <= i < |blocks| && blocks[i] == b;
      var j :| 0 <= j < |blocks| && blocks[j] == c;
    }
  }

  // ---------------------------------------------------------------------------
  // Blocks of an accepted policy
  // ---------------------------------------------------------------------------

  lemma {:induction false} BlockIsDeclared(g: Inputs, bodies: Bodies, s: seq<Key>, b: Block)
    requires forall k <- s :: k in g
    ensures b in BlocksOf(g, bodies, s)
            <==> b.origin in s && b.declared in bodies(b.origin) && b.id == BlockId(g, b.origin, b.declared.id)
    decreases |s|
  {
    if s != [] {
      var k := s[|s| - 1];
      BlockIsDeclared(g, bodies, s[..|s| - 1], b);
      assert s == s[..|s| - 1] + [k];
      NamedHolds(g, k, bodies(k), b);
      var before, own := BlocksOf(g, bodies, s[..|s| - 1]), Named(g, k, bodies(k));
      assert b in before + own <==> b in before || b in own;
    }
  }

  lemma NamedHolds(g: Inputs, k: Key, ds: seq<Declared>, b: Block)
    requires k in g
    ensures b in Named(g, k, ds) <==> b.origin == k && b.declared in ds && b.id == BlockId(g, k, b.declared.id)
  {
    var bs := Named(g, k, ds);
    if b.origin == k && b.declared in ds && b.id == BlockId(g, k, b.declared.id) {
      var i :| 0 <= i < |ds| && ds[i] == b.declared;
      assert bs[i] == b;
    }
  }

  lemma {:induction false} ImportIsEdge(g: Inputs, k: Key, deps: seq<Dep>, id: string)
    requires k in g && deps <= g[k].deps && ImportOf(g, deps, id).Some?
    ensures Edge(g, k, ImportOf(g, deps, id).value)
    decreases |deps|
  {
    var d := deps[|deps| - 1];
    if d.id == id && d.pin.Some? && d.pin.value.release in g {
      assert g[k].deps[|deps| - 1] == d && LeadsTo(g, d, d.pin.value.release);
    } else {
      ImportIsEdge(g, k, deps[..|deps| - 1], id);
    }
  }

  lemma {:induction false} FollowInReach(g: Inputs, root: Key, k: Key, imports: seq<string>)
    requires k in Reach(g, root) && Follow(g, k, imports).Some?
    ensures Follow(g, k, imports).value in Reach(g, root)
    decreases |imports|
  {
    if imports != [] {
      var next := ImportOf(g, g[k].deps, imports[0]).value;
      ImportIsEdge(g, k, g[k].deps, imports[0]);
      EdgeInReach(g, root, k, next);
      FollowInReach(g, root, next, imports[1..]);
    }
  }

  lemma {:induction false} DeclaredIsIn(ds: seq<Declared>, id: string)
    requires DeclaredAs(ds, id).Some?
    ensures DeclaredAs(ds, id).value in ds && DeclaredAs(ds, id).value.id == id
    decreases |ds|
  {
    if ds[|ds| - 1].id != id { DeclaredIsIn(ds[..|ds| - 1], id); }
  }

  /** A placement can only name a block of the policy. */
  lemma BlockAtIsListed(g: Inputs, bodies: Bodies, root: Key, s: seq<Key>, p: Placement)
    requires root in g && Elems(s) == Reach(g, root) && BlockAt(g, bodies, root, p).Some?
    ensures (forall k <- s :: k in g) && BlockAt(g, bodies, root, p).value in BlocksOf(g, bodies, s)
  {
    forall k <- s ensures k in g { assert k in Elems(s); }
    RootInReach(g, root);
    FollowInReach(g, root, root, p.Way());
    var k := Follow(g, root, p.Way()).value;
    assert k in Elems(s);
    DeclaredIsIn(bodies(k), p.BlockName());
    BlockIsDeclared(g, bodies, s, BlockAt(g, bodies, root, p).value);
  }

  /** What the schema promises of names: no `#` in them, blocks of a module named apart, only the root is no module. */
  ghost predicate PlainNames(g: Inputs, bodies: Bodies, root: Key, s: seq<Key>) {
    && (forall k <- s :: k in g && '#' !in g[k].ref && (g[k].kind == ModuleKind <==> k != root))
    && (forall k <- s, d <- bodies(k) :: '#' !in d.id)
    && (forall k <- s, i, j | 0 <= i < j < |bodies(k)| :: bodies(k)[i].id != bodies(k)[j].id)
  }

  lemma SharpSplits(a: string, b: string, c: string, d: string)
    requires '#' !in a && '#' !in c
    ensures a + "#" + b == c + "#" + d <==> a == c && b == d
  {
    var s, t := a + "#" + b, c + "#" + d;
    assert s[|a|] == '#' && t[|c|] == '#';
    assert forall i | 0 <= i < |a| :: s[i] == a[i];
    assert forall i | 0 <= i < |c| :: t[i] == c[i];
    assert a == s[..|a|] && c == t[..|c|] && b == s[|a| + 1..] && d == t[|c| + 1..];
    assert s == t ==> |a| == |c|;
  }

  /** Blocks of different modules have different identifiers, and so have blocks declared under different names. */
  lemma IdsDiffer(g: Inputs, bodies: Bodies, root: Key, s: seq<Key>, k: Key, l: Key, d: Declared, e: Declared)
    requires PlainNames(g, bodies, root, s) && k in s && l in s
    requires d in bodies(k) && e in bodies(l) && (k != l ==> g[k].ref != g[l].ref) && (k == l ==> d.id != e.id)
    ensures BlockId(g, k, d.id) != BlockId(g, l, e.id)
  {
    SharpSplits(g[k].ref, d.id, g[l].ref, e.id);
    assert (g[k].ref + "#" + d.id)[|g[k].ref|] == '#';
    assert (g[l].ref + "#" + e.id)[|g[l].ref|] == '#';
  }

  lemma DistinctConcat(a: seq<Block>, b: seq<Block>)
    requires DistinctIds(a) && DistinctIds(b)
    requires forall i, j | 0 <= i < |a| && 0 <= j < |b| :: a[i].id != b[j].id
    ensures DistinctIds(a + b)
  {
    var all := a + b;
    forall i, j | 0 <= i < j < |all| ensures all[i].id != all[j].id {
      assert j >= |a| ==> all[j] == b[j - |a|];
      assert i >= |a| ==> all[i] == b[i - |a|];
    }
  }

  lemma OwnAreDistinct(g: Inputs, bodies: Bodies, root: Key, s: seq<Key>, k: Key)
    requires PlainNames(g, bodies, root, s) && k in s
    ensures DistinctIds(Named(g, k, bodies(k)))
  {
    var ds, bs := bodies(k), Named(g, k, bodies(k));
    forall i, j | 0 <= i < j < |bs| ensures bs[i].id != bs[j].id {
      assert ds[i] in ds && ds[j] in ds && ds[i].id != ds[j].id;
      IdsDiffer(g, bodies, root, s, k, k, ds[i], ds[j]);
    }
  }

  lemma OthersAreDistinct(g: Inputs, bodies: Bodies, root: Key, s: seq<Key>, b: Block, k: Key, d: Declared)
    requires s != [] && PlainNames(g, bodies, root, s) && b in BlocksOf(g, bodies, s[..|s| - 1]) && k == s[|s| - 1]
    requires NoDup(s) && (forall x <- s, y <- s | g[x].ref == g[y].ref :: x == y) && d in bodies(k)
    ensures b.id != BlockId(g, k, d.id)
  {
    var front := s[..|s| - 1];
    BlockIsDeclared(g, bodies, front, b);
    var i :| 0 <= i < |front| && front[i] == b.origin;
    assert s[i] == b.origin && s[i] != k;
    IdsDiffer(g, bodies, root, s, b.origin, k, b.declared, d);
  }

  lemma {:induction false} BlocksAreDistinct(g: Inputs, bodies: Bodies, root: Key, s: seq<Key>)
    requires PlainNames(g, bodies, root, s) && NoDup(s)
    requires forall k <- s, l <- s | g[k].ref == g[l].ref :: k == l
    ensures DistinctIds(BlocksOf(g, bodies, s))
    decreases |s|
  {
    if s != [] {
      var k, front := s[|s| - 1], s[..|s| - 1];
      BlocksAreDistinct(g, bodies, root, front);
      OwnAreDistinct(g, bodies, root, s, k);
      var before, own := BlocksOf(g, bodies, front), Named(g, k, bodies(k));
      forall i, j | 0 <= i < |before| && 0 <= j < |own| ensures before[i].id != own[j].id {
        OthersAreDistinct(g, bodies, root, s, before[i], k, bodies(k)[j]);
      }
      DistinctConcat(before, own);
    }
  }

  // ---------------------------------------------------------------------------
  // Resolving a preset
  // ---------------------------------------------------------------------------

  lemma {:induction false} PlacedMore(bs: seq<Block>, ps: seq<Placement>, b: Block, p: Placement)
    requires |bs| == |ps|
    ensures PlacedIds(bs + [b], ps + [p]) == PlacedIds(bs, ps) + [PlacedId(b, p)]
    ensures Explicit(bs + [b], ps + [p]) == Explicit(bs, ps) + [Placed(PlacedId(b, p), b, p.at, Some(p))]
  {
    if bs != [] {
      assert (bs + [b])[1..] == bs[1..] + [b] && (ps + [p])[1..] == ps[1..] + [p];
      PlacedMore(bs[1..], ps[1..], b, p);
    }
  }

  /** No two placements give the same identifier. */
  lemma {:induction false} PlacedApart(find: Finder, ps: seq<Placement>)
    requires Chosen(find, ps).Ok?
    ensures NoDup(PlacedIds(Chosen(find, ps).value, ps))
    decreases |ps|
  {
    if ps != [] {
      var last := |ps| - 1;
      var front := ps[..last];
      PlacedApart(find, front);
      ChosenLength(find, front);
      var bs := Chosen(find, front).value;
      assert ps == front + [ps[last]];
      PlacedMore(bs, front, find(ps[last]).value, ps[last]);
    }
  }

  /** Only the prefix that has been placed matters for the first error. */
  lemma {:induction false} ChosenFails(find: Finder, ps: seq<Placement>, i: nat)
    requires i <= |ps| && Chosen(find, ps[..i]).Err?
    ensures Chosen(find, ps) == Err(Chosen(find, ps[..i]).error)
    decreases |ps|
  {
    if i == |ps| {
      assert ps[..i] == ps;
    } else {
      assert ps[..|ps| - 1][..i] == ps[..i];
      ChosenFails(find, ps[..|ps| - 1], i);
    }
  }

  lemma ChosenStep(find: Finder, front: seq<Placement>, p: Placement, bs: seq<Block>)
    requires Chosen(find, front) == Ok(bs)
    ensures var block := find(p);
            Chosen(find, front + [p])
            == if block.None? then Err(PlacementMissing)
               else if PlacedId(block.value, p) in PlacedIds(bs, front) then Err(DuplicatePlacement)
               else Ok(bs + [block.value])
  {
    assert (front + [p])[..|front|] == front;
  }

  /** One more placement: it fails as the whole does, or adds its block. */
  lemma ChosenNext(find: Finder, ps: seq<Placement>, i: nat, bs: seq<Block>)
    requires i < |ps| && Chosen(find, ps[..i]) == Ok(bs) && |bs| == i
    ensures var block := find(ps[i]);
            if block.None? then Chosen(find, ps) == Err(PlacementMissing)
            else if PlacedId(block.value, ps[i]) in PlacedIds(bs, ps[..i])
                then Chosen(find, ps) == Err(DuplicatePlacement)
            else Chosen(find, ps[..i + 1]) == Ok(bs + [block.value])
  {
    assert ps[..i + 1] == ps[..i] + [ps[i]];
    ChosenStep(find, ps[..i], ps[i], bs);
    if Chosen(find, ps[..i + 1]).Err? { ChosenFails(find, ps, i + 1); }
  }

  method DefaultByLoop(blocks: seq<Block>, taken: set<string>) returns (out: seq<Placed>)
    ensures out == Default(blocks, taken)
  {
    out := [];
    for i := 0 to |blocks|
      invariant Default(blocks, taken) == out + Default(blocks[i..], taken)
    {
      assert blocks[i..][1..] == blocks[i + 1..];
      if blocks[i].id !in taken { out := out + [Placed(blocks[i].id, blocks[i], blocks[i].declared.position, None)]; }
    }
  }

  /** Places what placements name; the identifiers of the blocks they name are `taken`. */
  method ExplicitByLoop(find: Finder, ps: seq<Placement>)
      returns (r: Result<seq<Placed>, PlaceError>, taken: set<string>)
    ensures Chosen(find, ps).Err? ==> r == Err(Chosen(find, ps).error)
    ensures Chosen(find, ps).Ok? ==>
              r == Ok(Explicit(Chosen(find, ps).value, ps)) && taken == Ids(Chosen(find, ps).value)
  {
    var identities: seq<string>, out: seq<Placed> := [], [];
    taken := {};
    ghost var bs: seq<Block> := [];
    for i := 0 to |ps|
      invariant |bs| == i && Chosen(find, ps[..i]) == Ok(bs)
      invariant identities == PlacedIds(bs, ps[..i]) && taken == Ids(bs) && out == Explicit(bs, ps[..i])
    {
      var block := find(ps[i]);
      ChosenNext(find, ps, i, bs);
      if block.None? { return Err(PlacementMissing), taken; }
      var b := block.value;
      var id := PlacedId(b, ps[i]);
      if id in identities { return Err(DuplicatePlacement), taken; }
      PlacedMore(bs, ps[..i], b, ps[i]);
      assert ps[..i + 1] == ps[..i] + [ps[i]];
      identities, taken, out := identities + [id], taken + {b.id}, out + [Placed(id, b, ps[i].at, Some(ps[i]))];
      bs := bs + [b];
      assert taken == Ids(bs);
    }
    assert ps[..|ps|] == ps;
    r := Ok(out);
  }

  method PlaceByLoop(g: Inputs, bodies: Bodies, root: Key, blocks: seq<Block>, ps: seq<Placement>)
      returns (r: Result<seq<Placed>, PlaceError>)
    requires root in g
    ensures r == Place(g, bodies, root, blocks, ps)
  {
    var placed, taken := ExplicitByLoop(FinderOf(g, bodies, root), ps);
    if placed.Err? { return placed; }
    var rest := DefaultByLoop(blocks, taken);
    r := Ok(placed.value + rest);
  }

  /** The order of an accepted policy: what is in reach, each once, one release for each name. */
  ghost predicate Ordered(g: Inputs, root: Key)
    requires root in g
  {
    Elems(Order(g, root)) == Reach(g, root) && NoDup(Order(g, root)) && OnePerRef(g, Reach(g, root))
  }

  lemma OrderInGraph(g: Inputs, root: Key)
    requires root in g && Ordered(g, root)
    ensures forall k <- Order(g, root) :: k in g
  {
    forall k <- Order(g, root) ensures k in g { assert k in Elems(Order(g, root)); }
  }

  /**
   * Every block of every module in reach stands in the result once for each placement that names
   * it, or else once by default; each placement has its block, and no two of them one identifier.
   */
  lemma PresetLaw(g: Inputs, bodies: Bodies, root: Key, ps: seq<Placement>)
    requires root in g && Ordered(g, root) && PlainNames(g, bodies, root, Order(g, root))
    requires Place(g, bodies, root, BlocksOf(g, bodies, Order(g, root)), ps).Ok?
    ensures var blocks := BlocksOf(g, bodies, Order(g, root));
            var out, bs := Place(g, bodies, root, blocks, ps).value, Chosen(FinderOf(g, bodies, root), ps).value;
            && (forall b <- blocks :: Times(out, b) == if b in bs then TimesIn(bs, b) else 1)
            && |bs| == |ps| && (forall i | 0 <= i < |ps| :: BlockAt(g, bodies, root, ps[i]) == Some(bs[i]))
            && NoDup(PlacedIds(bs, ps)) && DistinctIds(blocks)
  {
    var s := Order(g, root);
    OrderInGraph(g, root);
    forall k <- s, l <- s | g[k].ref == g[l].ref ensures k == l {
      assert k in Elems(s) && l in Elems(s);
    }
    BlocksAreDistinct(g, bodies, root, s);
    forall p <- ps | BlockAt(g, bodies, root, p).Some?
        ensures BlockAt(g, bodies, root, p).value in BlocksOf(g, bodies, s) {
      BlockAtIsListed(g, bodies, root, s, p);
    }
    PlaceLaw(g, bodies, root, BlocksOf(g, bodies, s), ps);
    PlacedApart(FinderOf(g, bodies, root), ps);
  }

  /** Resolves a preset: exactly the acceptable policies go on to have their blocks placed. */
  method ResolvePreset(g: Inputs, bodies: Bodies, root: Key, ps: seq<Placement>)
      returns (flat: Result<seq<Block>, GraphError>, placed: Result<seq<Placed>, PlaceError>)
    requires PolicyInputs(g) && root in g
    ensures flat.Ok? <==> Acceptable(g, root)
    ensures flat.Ok? ==> Ordered(g, root) && (forall k <- Order(g, root) :: k in g)
                         && flat.value == BlocksOf(g, bodies, Order(g, root))
                               && placed == Place(g, bodies, root, flat.value, ps)
  {
    var lock;
    flat, lock := FlattenPolicy(g, bodies, root);
    placed := Err(PlacementMissing);
    if flat.Ok? { placed := PlaceByLoop(g, bodies, root, flat.value, ps); }
  }
}
