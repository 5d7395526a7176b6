/**
 * Assembling the input of a model within its budget: fixed content and required fragments go in
 * whole; the rest goes in, or is skipped, one fragment at a time in order of priority.
 */
module Assembly {
  import opened Common
  import opened Messages
  import opened Presentation
  import opened Sorting

  datatype Importance = Pinned | Normal | Opportunistic

  datatype Candidate = Candidate(
    id: string, importance: Importance, required: bool, order: int, region: string, text: string,
    attachments: seq<string>, style: Option<Style>)

  datatype Block = Block(id: string, region: string, text: string)

  datatype Position = Main | AfterHistory

  datatype PolicyBlock = PolicyBlock(source: string, position: Position, enabled: bool, text: string)

  datatype Line = Line(role: Role, content: string)

  const HISTORY: string := "history"

  const EXAMPLES: string := "system:examples"

  datatype AssemblyError =
    | FixedOverBudget | RequiredOverBudget | PinnedOverBudget | RegionOverBudget | PresetIncompatible

  /** Everything an assembly depends on; `count` is the tokenizer and `budget` the input budget. */
  datatype Job = Job(
    candidates: seq<Candidate>, styles: seq<Style>, history: seq<Line>, blocks: seq<Block>, policy: seq<PolicyBlock>,
    layout: seq<string>, limits: map<string, nat>, examplesHeader: string, manySystem: bool,
    count: string -> nat, budget: int)
  {
    function Tokens(i: nat): nat
      requires i < |candidates|
    {
      count(candidates[i].text)
    }

    /** Required fragments and those of the highest importance. */
    function Mandatory(): set<nat> {
      set i | 0 <= i < |candidates| && (candidates[i].required || candidates[i].importance == Pinned)
    }

    function PinnedOnly(): set<nat> {
      set i | 0 <= i < |candidates| && candidates[i].importance == Pinned
    }
  }

  // ---------------------------------------------------------------------------
  // Messages
  // ---------------------------------------------------------------------------

  function ShownOf(cs: seq<Candidate>, from: nat): (r: seq<Shown>)
    ensures |r| == |cs|
    ensures forall i | 0 <= i < |cs| :: r[i] == Shown(from + i, cs[i].style)
    decreases |cs|
  {
    if cs == [] then [] else [Shown(from, cs[0].style)] + ShownOf(cs[1..], from + 1)
  }

  function IndexOfShown(ps: seq<Shown>): (r: seq<nat>)
    ensures |r| == |ps| && forall i | 0 <= i < |ps| :: r[i] == ps[i].index
  {
    if ps == [] then [] else [ps[0].index] + IndexOfShown(ps[1..])
  }

  /** The candidates in the order they are shown. */
  function ShownOrder(x: Job): seq<nat> {
    IndexOfShown(Present(ShownOf(x.candidates, 0), x.styles))
  }

  /** The chosen candidates of a region, in the order they are shown. */
  function InRegion(x: Job, shown: seq<nat>, chosen: set<nat>, region: string): seq<Candidate> {
    if shown == [] then []
    else
      var rest := InRegion(x, shown[1..], chosen, region);
      if shown[0] in chosen && shown[0] < |x.candidates| && x.candidates[shown[0]].region == region
      then [x.candidates[shown[0]]] + rest
      else rest
  }

  function BlockTexts(bs: seq<Block>, region: string): seq<string> {
    if bs == [] then [] else (if bs[0].region == region then [bs[0].text] else []) + BlockTexts(bs[1..], region)
  }

  function BlockIds(bs: seq<Block>, region: string): seq<string> {
    if bs == [] then [] else (if bs[0].region == region then [bs[0].id] else []) + BlockIds(bs[1..], region)
  }

  function Texts(cs: seq<Candidate>): seq<string> {
    if cs == [] then [] else (if cs[0].text != "" then [cs[0].text] else []) + Texts(cs[1..])
  }

  function Ids(cs: seq<Candidate>): seq<string> {
    if cs == [] then [] else [cs[0].id] + Ids(cs[1..])
  }

  function Pictures(cs: seq<Candidate>): seq<string> {
    if cs == [] then [] else cs[0].attachments + Pictures(cs[1..])
  }

  /** The message of a region, if anything in it is shown. */
  function RegionMessage(x: Job, chosen: set<nat>, region: string): seq<Message> {
    var inside := InRegion(x, ShownOrder(x), chosen, region);
    var header := if region == EXAMPLES && inside != [] then [x.examplesHeader] else [];
    var source := BlockIds(x.blocks, region) + Ids(inside);
    if source == [] then []
    else [Message(System, Join(BlockTexts(x.blocks, region) + header + Texts(inside)), source, Pictures(inside))]
  }

  function HistoryMessages(h: seq<Line>): seq<Message> {
    if h == [] then [] else [Message(h[0].role, h[0].content, [HISTORY], [])] + HistoryMessages(h[1..])
  }

  function PolicyMessages(ps: seq<PolicyBlock>, position: Position): seq<Message> {
    if ps == [] then []
    else if ps[0].enabled && ps[0].position == position
    then [Message(System, ps[0].text, [ps[0].source], [])] + PolicyMessages(ps[1..], position)
    else PolicyMessages(ps[1..], position)
  }

  function LaidOut(x: Job, chosen: set<nat>, layout: seq<string>): seq<Message> {
    if layout == [] then []
    else (if layout[0] == HISTORY then HistoryMessages(x.history) else RegionMessage(x, chosen, layout[0]))
         + LaidOut(x, chosen, layout[1..])
  }

  function AllMessages(x: Job, chosen: set<nat>): seq<Message> {
    PolicyMessages(x.policy, Main) + LaidOut(x, chosen, x.layout) + PolicyMessages(x.policy, AfterHistory)
  }

  function SystemCount(ms: seq<Message>): nat {
    if ms == [] then 0 else (if ms[0].role.System? then 1 else 0) + SystemCount(ms[1..])
  }

  /** The messages for a choice; a runtime that takes one system message may not be able to have them. */
  function MakeMessages(x: Job, chosen: set<nat>): Result<seq<Message>, AssemblyError> {
    var messages := AllMessages(x, chosen);
    if x.manySystem then Ok(messages)
    else if SystemCount(Merge(messages)) > 1 then Err(PresetIncompatible)
    else Ok(Merge(messages))
  }

  // ---------------------------------------------------------------------------
  // Cost
  // ---------------------------------------------------------------------------

  function HistoryTokens(x: Job, h: seq<Line>): nat {
    if h == [] then 0 else x.count(h[0].content) + HistoryTokens(x, h[1..])
  }

  function BlockTokens(x: Job, bs: seq<Block>): nat {
    if bs == [] then 0 else x.count(bs[0].text) + BlockTokens(x, bs[1..])
  }

  function PolicyTokens(x: Job, ps: seq<PolicyBlock>): nat {
    if ps == [] then 0 else (if ps[0].enabled then x.count(ps[0].text) else 0) + PolicyTokens(x, ps[1..])
  }

  /** What goes in whatever is chosen. */
  function Fixed(x: Job): nat {
    HistoryTokens(x, x.history) + BlockTokens(x, x.blocks) + PolicyTokens(x, x.policy)
  }

  /** The tokens of the chosen among the first `n` candidates. */
  function SpendTo(x: Job, chosen: set<nat>, n: nat): nat
    requires n <= |x.candidates|
  {
    if n == 0 then 0 else SpendTo(x, chosen, n - 1) + (if n - 1 in chosen then x.Tokens(n - 1) else 0)
  }

  function Spend(x: Job, chosen: set<nat>): nat {
    SpendTo(x, chosen, |x.candidates|)
  }

  function Within(x: Job, chosen: set<nat>, region: string): set<nat> {
    set i | i in chosen && i < |x.candidates| && x.candidates[i].region == region
  }

  function RegionSpend(x: Job, chosen: set<nat>, region: string): nat {
    Spend(x, Within(x, chosen, region))
  }

  function MessageTokens(x: Job, ms: seq<Message>): nat {
    if ms == [] then 0 else x.count(ms[0].content) + MessageTokens(x, ms[1..])
  }

  function Max(a: nat, b: nat): nat { if a < b then b else a }

  /** The larger of what the sources cost one by one and what the finished messages cost. */
  function Cost(x: Job, chosen: set<nat>): Result<nat, AssemblyError> {
    match MakeMessages(x, chosen)
    case Err(e) => Err(e)
    case Ok(ms) => Ok(Max(Fixed(x) + Spend(x, chosen), MessageTokens(x, ms)))
  }

  // ---------------------------------------------------------------------------
  // Admission
  // ---------------------------------------------------------------------------

  predicate RoomInRegion(x: Job, chosen: set<nat>, c: nat)
    requires c < |x.candidates|
  {
    var region := x.candidates[c].region;
    region in x.limits ==> RegionSpend(x, chosen, region) + x.Tokens(c) <= x.limits[region]
  }

  /** Whether an optional candidate goes in beside those already chosen. */
  function Admit(x: Job, chosen: set<nat>, c: nat): Result<bool, AssemblyError>
    requires c < |x.candidates|
  {
    if !(x.Tokens(c) <= x.budget - Fixed(x) - Spend(x, chosen) && RoomInRegion(x, chosen, c)) then Ok(false)
    else
      match Cost(x, chosen + {c})
      case Err(e) => Err(e)
      case Ok(v) => Ok(v <= x.budget)
  }

  function Indices(from: nat, end: nat): (r: seq<nat>)
    requires from <= end
    decreases end - from
    ensures |r| == end - from
    ensures forall i | 0 <= i < |r| :: r[i] == from + i
  {
    if from == end then [] else [from] + Indices(from + 1, end)
  }

  /** Candidates by their admission order. */
  function Sooner(x: Job): (nat, nat) -> bool {
    (i: nat, j: nat) =>
      if i < |x.candidates| && j < |x.candidates| then x.candidates[i].order <= x.candidates[j].order
      else j >= |x.candidates|
  }

  function Ordered(x: Job): seq<nat> {
    StableSort(Sooner(x), Indices(0, |x.candidates|))
  }

  function InTier(x: Job, tier: Importance): nat -> bool {
    (i: nat) => i < |x.candidates| && x.candidates[i].importance == tier && !x.candidates[i].required
  }

  /** The optional candidates in the order they are tried: the normal ones, then the opportunistic. */
  function Queue(x: Job): seq<nat> {
    Filter(InTier(x, Normal), Ordered(x)) + Filter(InTier(x, Opportunistic), Ordered(x))
  }

  type Admitter = (set<nat>, nat) -> Result<bool, AssemblyError>

  function AdmitterOf(x: Job): Admitter {
    (chosen: set<nat>, c: nat) => if c < |x.candidates| then Admit(x, chosen, c) else Ok(false)
  }

  function Greedy(admit: Admitter, chosen: set<nat>, queue: seq<nat>): Result<set<nat>, AssemblyError>
    decreases |queue|
  {
    if queue == [] then Ok(chosen)
    else
      match admit(chosen, queue[0])
      case Err(e) => Err(e)
      case Ok(yes) => Greedy(admit, if yes then chosen + {queue[0]} else chosen, queue[1..])
  }

  predicate RegionsHold(x: Job, chosen: set<nat>) {
    forall r <- x.limits :: RegionSpend(x, chosen, r) <= x.limits[r]
  }

  /** Which error a mandatory set that does not fit leads to. */
  function MandatoryError(x: Job): AssemblyError {
    if x.Mandatory() != x.PinnedOnly() then
      match Cost(x, x.PinnedOnly())
      case Err(e) => e
      case Ok(v) => if v <= x.budget then RequiredOverBudget else PinnedOverBudget
    else PinnedOverBudget
  }

  /** The candidates that are included. */
  function Included(x: Job): Result<set<nat>, AssemblyError> {
    match Cost(x, {})
    case Err(e) => Err(e)
    case Ok(v0) =>
      if v0 > x.budget then Err(FixedOverBudget)
      else
        match Cost(x, x.Mandatory())
        case Err(e) => Err(e)
        case Ok(v1) =>
          if v1 > x.budget then Err(MandatoryError(x))
          else if !RegionsHold(x, x.Mandatory()) then Err(RegionOverBudget)
          else
            Greedy(AdmitterOf(x), x.Mandatory(), Queue(x))
  }
}
