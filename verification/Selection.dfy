/**
 * Choosing from the catalog: what a selector sees grows as it expands nodes, and a plan is
 * accepted only when replaying its decisions shows everything it chose.
 */
module Selection {
  import opened Common

  datatype Ref =
    | Work(id: string)
    | Fragment(id: string)
    | GroupRef(id: string)
    | Source(id: string, section: Option<string>)
    | Story(kind: string, id: string)

  function CatalogKey(ref: Ref): string {
    match ref
    case Work(id) => "work:" + id
    case Fragment(id) => "fragment:" + id
    case GroupRef(id) => "group:" + id
    case Source(id, section) => "source:" + id + (match section case None => "" case Some(s) => "/section:" + s)
    case Story(kind, id) => "story:" + kind + ":" + id
  }

  datatype Node = Leaf(ref: Ref, title: string) | Branch(ref: Ref, title: string, children: seq<Node>)
  {
    function Key(): string { CatalogKey(ref) }
  }

  /** The directory and the whole trees behind it; tokens are counted by `directoryCost` and `cost`. */
  datatype Build = Build(
    candidates: seq<Node>, direct: seq<Ref>, nodes: map<string, Node>, discovery: bool, input: string,
    maxDepth: nat, catalogBudget: nat, directoryCost: nat, cost: (Ref, seq<Node>) -> nat)

  datatype Action = Expand | Select | Reject

  datatype Decision = Decision(action: Action, ref: Ref)

  datatype Form = Body | Section

  datatype Item = Item(ref: Ref, form: Form)

  datatype Plan = Plan(discovery: bool, input: string, decisions: seq<Decision>, selected: seq<Item>, fallback: bool)

  datatype SelectionError =
    | InputMismatch | InvalidExpand | DirectoryOverBudget | UnexposedReference | InvalidReference | DecisionMismatch
    | InvalidForm | ContainerBody | OverlappingSource | InvalidFallback

  /** What has been shown, and how deep in the catalog it stands. */
  type Exposed = map<string, nat>

  // ---------------------------------------------------------------------------
  // Exposure
  // ---------------------------------------------------------------------------

  function Show(n: Node, depth: nat, e: Exposed): Exposed
    decreases n
  {
    var shown := e[n.Key() := depth];
    if n.Branch? then ShowAll(n.children, depth + 1, shown) else shown
  }

  function ShowAll(ns: seq<Node>, depth: nat, e: Exposed): Exposed
    decreases ns
  {
    if ns == [] then e else ShowAll(ns[1..], depth, Show(ns[0], depth, e))
  }

  function Initial(b: Build): Exposed {
    ShowAll(b.candidates, 0, map[])
  }

  /** Children are shown one by one, without what is below them. */
  function ShowShallow(ns: seq<Node>, depth: nat, e: Exposed): Exposed {
    if ns == [] then e else ShowShallow(ns[1..], depth, e[ns[0].Key() := depth])
  }

  predicate Expandable(b: Build, e: Exposed, key: string) {
    key in e && key in b.nodes && b.nodes[key].Branch? && e[key] < b.maxDepth
  }

  function Expansion(b: Build, e: Exposed, ref: Ref): Result<Exposed, SelectionError> {
    var key := CatalogKey(ref);
    if Expandable(b, e, key) then Ok(ShowShallow(b.nodes[key].children, e[key] + 1, e)) else Err(InvalidExpand)
  }

  function ExpansionCost(b: Build, ref: Ref): nat {
    var key := CatalogKey(ref);
    if key in b.nodes && b.nodes[key].Branch? then b.cost(ref, b.nodes[key].children) else 0
  }

  /** The decisions replayed from what is shown and spent so far. */
  function Replay(b: Build, ds: seq<Decision>, e: Exposed, spent: nat): Result<Exposed, SelectionError>
    decreases |ds|
  {
    if ds == [] then Ok(e)
    else
      var d := ds[0];
      if d.action == Expand then
        match Expansion(b, e, d.ref)
        case Err(x) => Err(x)
        case Ok(e') =>
          var total := spent + ExpansionCost(b, d.ref);
          if total > b.catalogBudget then Err(DirectoryOverBudget) else Replay(b, ds[1..], e', total)
      else if CatalogKey(d.ref) !in e then Err(UnexposedReference)
      else Replay(b, ds[1..], e, spent)
  }

  // ---------------------------------------------------------------------------
  // What may be chosen
  // ---------------------------------------------------------------------------

  /** The last word on a reference, if anything was decided about it. */
  function FinalDecision(ds: seq<Decision>, key: string): Option<Action> {
    if ds == [] then None
    else
      var d := ds[|ds| - 1];
      if d.action != Expand && CatalogKey(d.ref) == key then Some(d.action)
      else FinalDecision(ds[..|ds| - 1], key)
  }

  function FormFault(item: Item): Option<SelectionError> {
    match item.ref
    case Fragment(_) => if item.form == Body then None else Some(InvalidForm)
    case Source(_, section) => if item.form == (if section.Some? then Section else Body) then None
        else Some(InvalidForm)
    case _ => Some(ContainerBody)
  }

  /** What is wrong with choosing an item after those with the keys in `before`. */
  function ItemFault(e: Exposed, ds: seq<Decision>, before: set<string>, item: Item): Option<SelectionError> {
    var key := CatalogKey(item.ref);
    if key !in e || key in before then Some(InvalidReference)
    else if FinalDecision(ds, key) == Some(Reject) then Some(DecisionMismatch)
    else FormFault(item)
  }

  function ItemsFault(e: Exposed, ds: seq<Decision>, before: set<string>, items: seq<Item>): Option<SelectionError>
    decreases |items|
  {
    if items == [] then None
    else
      match ItemFault(e, ds, before, items[0])
      case Some(x) => Some(x)
      case None => ItemsFault(e, ds, before + {CatalogKey(items[0].ref)}, items[1..])
  }

  function RefsOf(items: seq<Item>): seq<Ref> {
    if items == [] then [] else [items[0].ref] + RefsOf(items[1..])
  }

  /** Sources taken whole, and sources of which sections are taken. */
  function Whole(refs: seq<Ref>): set<string> {
    set r | r in refs && r.Source? && r.section.None? :: r.id
  }

  function InPart(refs: seq<Ref>): set<string> {
    set r | r in refs && r.Source? && r.section.Some? :: r.id
  }

  function Validate(b: Build, p: Plan): Result<Plan, SelectionError> {
    if p.discovery != b.discovery || p.input != b.input then Err(InputMismatch)
    else
      match Replay(b, p.decisions, Initial(b), if b.discovery then b.directoryCost else 0)
      case Err(x) => Err(x)
      case Ok(e) =>
        match ItemsFault(e, p.decisions, {}, p.selected)
        case Some(x) => Err(x)
        case None =>
          if Whole(b.direct + RefsOf(p.selected)) * InPart(b.direct + RefsOf(p.selected)) != {}
              then Err(OverlappingSource)
          else if p.fallback && p.selected != [] then Err(InvalidFallback)
          else Ok(p)
  }
}
