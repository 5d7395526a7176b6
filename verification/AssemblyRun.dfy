/** The loops of the assembler: admission with running counts, and the trace that accounts for the cost. */
module AssemblyRun {
  import opened Common
  import opened Messages
  import opened Assembly
  import opened AssemblyLaws

  // ---------------------------------------------------------------------------
  // Admission
  // ---------------------------------------------------------------------------

  /** What is recorded as used in a region; nothing recorded is nothing used. */
  function Used(usage: map<string, nat>, region: string): nat {
    if region in usage then usage[region] else 0
  }

  lemma {:induction false} SpendToMonotone(x: Job, s: set<nat>, m: nat, n: nat)
    requires m <= n <= |x.candidates|
    ensures SpendTo(x, s, m) <= SpendTo(x, s, n)
    decreases n
  {
    if m < n { SpendToMonotone(x, s, m, n - 1); }
  }

  /** Records what the mandatory candidates use and stops at the first region that is over its limit. */
  method ChargeMandatory(x: Job) returns (ok: bool, usage: map<string, nat>)
    ensures ok == RegionsHold(x, x.Mandatory())
    ensures ok ==> forall r :: Used(usage, r) == RegionSpend(x, x.Mandatory(), r)
  {
    var mandatory := x.Mandatory();
    usage := map[];
    for i := 0 to |x.candidates|
      invariant forall r :: Used(usage, r) == SpendTo(x, Within(x, mandatory, r), i)
      invariant forall r <- x.limits :: SpendTo(x, Within(x, mandatory, r), i) <= x.limits[r]
    {
      if i in mandatory {
        var region := x.candidates[i].region;
        var used := Used(usage, region) + x.Tokens(i);
        usage := usage[region := used];
        if region in x.limits && used > x.limits[region] {
          assert used == SpendTo(x, Within(x, mandatory, region), i + 1);
          SpendToMonotone(x, Within(x, mandatory, region), i + 1, |x.candidates|);
          assert !RegionsHold(x, mandatory);
          return false, usage;
        }
      }
    }
    ok := true;
  }

  /** The running counts agree with the set of those who are in. */
  ghost predicate Counts(x: Job, included: set<nat>, usage: map<string, nat>, remaining: int) {
    && remaining == x.budget - Fixed(x) - Spend(x, included)
    && forall r :: Used(usage, r) == RegionSpend(x, included, r)
  }

  lemma CountsAdd(x: Job, included: set<nat>, usage: map<string, nat>, remaining: int, c: nat)
    requires Counts(x, included, usage, remaining) && c < |x.candidates| && c !in included
    ensures var region, t := x.candidates[c].region, x.Tokens(c);
            Counts(x, included + {c}, usage[region := Used(usage, region) + t], remaining - t)
  {
    var region, t := x.candidates[c].region, x.Tokens(c);
    SpendAdd(x, included, c);
    forall r ensures Used(usage[region := Used(usage, region) + t], r) == RegionSpend(x, included + {c}, r) {
      RegionSpendAdd(x, included, c, r);
    }
  }

  /** Tries one candidate; if it is let in, the counts are brought up to date. */
  method TryOne(x: Job, included: set<nat>, usage: map<string, nat>, remaining: int, c: nat)
      returns (r: Result<bool, AssemblyError>, usage': map<string, nat>, remaining': int)
    requires Counts(x, included, usage, remaining) && c < |x.candidates| && c !in included
    ensures r == Admit(x, included, c)
    ensures Counts(x, if r == Ok(true) then included + {c} else included, usage', remaining')
  {
    usage', remaining' := usage, remaining;
    var region, t := x.candidates[c].region, x.Tokens(c);
    var used := Used(usage, region);
    if t > remaining || (region in x.limits && used + t > x.limits[region]) { return Ok(false), usage', remaining'; }
    var cost := Cost(x, included + {c});
    if cost.Err? { return Err(cost.error), usage', remaining'; }
    if cost.value > x.budget { return Ok(false), usage', remaining'; }
    CountsAdd(x, included, usage, remaining, c);
    return Ok(true), usage[region := used + t], remaining - t;
  }

  lemma GreedyStep(admit: Admitter, included: set<nat>, rest: seq<nat>)
    requires rest != []
    ensures var yes := admit(included, rest[0]);
            && (yes.Err? ==> Greedy(admit, included, rest) == Err(yes.error))
            && (yes == Ok(true) ==> Greedy(admit, included, rest) == Greedy(admit, included + {rest[0]}, rest[1..]))
            && (yes == Ok(false) ==> Greedy(admit, included, rest) == Greedy(admit, included, rest[1..]))
  {
  }

  /** Tries the queue one by one, with running counts of what is left and what each region uses. */
  method AdmitQueue(x: Job, mandatory: set<nat>, queue: seq<nat>, charged: map<string, nat>, left: int)
      returns (r: Result<set<nat>, AssemblyError>)
    requires NoDup(queue) && Elems(queue) !! mandatory && forall c <- queue :: c < |x.candidates|
    requires Counts(x, mandatory, charged, left)
    ensures r == Greedy(AdmitterOf(x), mandatory, queue)
  {
    var included: set<nat>, usage: map<string, nat>, remaining: int := mandatory, charged, left;
    ghost var admit := AdmitterOf(x);
    ghost var goal := Greedy(admit, mandatory, queue);
    for k := 0 to |queue|
      invariant goal == Greedy(admit, included, queue[k..])
      invariant NoDup(queue[k..]) && Elems(queue[k..]) !! included
      invariant Counts(x, included, usage, remaining)
    {
      var c := queue[k];
      NoDupCons(queue[k..]);
      GreedyStep(admit, included, queue[k..]);
      assert c in queue && queue[k..][1..] == queue[k + 1..];
      var yes;
      yes, usage, remaining := TryOne(x, included, usage, remaining, c);
      if yes.Err? { return Err(yes.error); }
      if yes.value { included := included + {c}; }
    }
    assert queue[|queue|..] == [];
    r := Ok(included);
  }

  method Admission(x: Job) returns (r: Result<set<nat>, AssemblyError>)
    ensures r == Included(x)
  {
    var none := Cost(x, {});
    if none.Err? { return Err(none.error); }
    if none.value > x.budget { return Err(FixedOverBudget); }
    var mandatory := x.Mandatory();
    var least := Cost(x, mandatory);
    if least.Err? { return Err(least.error); }
    if least.value > x.budget { return Err(MandatoryError(x)); }
    var ok, usage := ChargeMandatory(x);
    if !ok { return Err(RegionOverBudget); }
    QueueApart(x);
    r := AdmitQueue(x, mandatory, Queue(x), usage, x.budget - Fixed(x) - Spend(x, mandatory));
  }
}
