/** What the budget guarantees: limits are kept, the choice is the one its rule describes, and nothing more fits. */
module AssemblyLaws {
  import opened Common
  import opened Messages
  import opened Presentation
  import opened Sorting
  import opened Assembly

  // ---------------------------------------------------------------------------
  // Spending
  // ---------------------------------------------------------------------------

  lemma {:induction false} SpendToAdd(x: Job, s: set<nat>, c: nat, n: nat)
    requires n <= |x.candidates| && c !in s && c < |x.candidates|
    ensures SpendTo(x, s + {c}, n) == SpendTo(x, s, n) + (if c < n then x.Tokens(c) else 0)
    decreases n
  {
    if n > 0 { SpendToAdd(x, s, c, n - 1); }
  }

  lemma {:induction false} SpendToGrows(x: Job, s: set<nat>, t: set<nat>, n: nat)
    requires n <= |x.candidates| && s <= t
    ensures SpendTo(x, s, n) <= SpendTo(x, t, n)
    decreases n
  {
    if n > 0 { SpendToGrows(x, s, t, n - 1); }
  }

  lemma SpendAdd(x: Job, s: set<nat>, c: nat)
    requires c !in s && c < |x.candidates|
    ensures Spend(x, s + {c}) == Spend(x, s) + x.Tokens(c)
  {
    SpendToAdd(x, s, c, |x.candidates|);
  }

  lemma RegionSpendAdd(x: Job, s: set<nat>, c: nat, r: string)
    requires c !in s && c < |x.candidates|
    ensures RegionSpend(x, s + {c}, r) == RegionSpend(x, s, r)
            + (if x.candidates[c].region == r then x.Tokens(c) else 0)
  {
    if x.candidates[c].region == r {
      assert Within(x, s + {c}, r) == Within(x, s, r) + {c};
      SpendAdd(x, Within(x, s, r), c);
    } else {
      assert Within(x, s + {c}, r) == Within(x, s, r);
    }
  }

  lemma RegionSpendGrows(x: Job, s: set<nat>, t: set<nat>, r: string)
    requires s <= t
    ensures RegionSpend(x, s, r) <= RegionSpend(x, t, r)
  {
    SpendToGrows(x, Within(x, s, r), Within(x, t, r), |x.candidates|);
  }

  // ---------------------------------------------------------------------------
  // The queue
  // ---------------------------------------------------------------------------

  /** Strictly earlier by admission order, ties by place. */
  predicate Precedes(x: Job, i: nat, j: nat) {
    && i < |x.candidates| && j < |x.candidates|
    && (x.candidates[i].order < x.candidates[j].order || (x.candidates[i].order == x.candidates[j].order && i < j))
  }

  ghost predicate InOrder(x: Job, s: seq<nat>) {
    forall a, b | 0 <= a < b < |s| :: Precedes(x, s[a], s[b])
  }

  lemma ConsInOrder(x: Job, i: nat, s: seq<nat>)
    requires InOrder(x, s) && forall k | 0 <= k < |s| :: Precedes(x, i, s[k])
    ensures InOrder(x, [i] + s)
  {
    var r := [i] + s;
    forall a, b | 0 <= a < b < |r| ensures Precedes(x, r[a], r[b]) {
      assert r[b] == s[b - 1] && (a > 0 ==> r[a] == s[a - 1]);
    }
  }

  lemma {:induction false} InsertInOrder(x: Job, i: nat, s: seq<nat>)
    requires i < |x.candidates| && InOrder(x, s)
    requires forall k | 0 <= k < |s| :: i < s[k] < |x.candidates|
    ensures InOrder(x, Insert(Sooner(x), i, s))
    decreases |s|
  {
    if s == [] {
    } else if Sooner(x)(i, s[0]) {
      assert forall k | 0 < k < |s| :: Precedes(x, s[0], s[k]);
      ConsInOrder(x, i, s);
    } else {
      var rest := Insert(Sooner(x), i, s[1..]);
      InsertInOrder(x, i, s[1..]);
      InsertMembers(Sooner(x), i, s[1..]);
      forall k | 0 <= k < |rest| ensures Precedes(x, s[0], rest[k]) {
        assert rest[k] in multiset([i] + s[1..]);
        assert rest[k] == i || rest[k] in s[1..];
      }
      ConsInOrder(x, s[0], rest);
    }
  }

  lemma {:induction false} OrderedInOrder(x: Job, from: nat)
    requires from <= |x.candidates|
    ensures var s := StableSort(Sooner(x), Indices(from, |x.candidates|));
            InOrder(x, s) && (forall i :: i in s <==> from <= i < |x.candidates|)
    decreases |x.candidates| - from
  {
    if from < |x.candidates| {
      var all := Indices(from, |x.candidates|);
      OrderedInOrder(x, from + 1);
      assert all[1..] == Indices(from + 1, |x.candidates|);
      var rest := StableSort(Sooner(x), all[1..]);
      assert forall k | 0 <= k < |rest| :: rest[k] in rest;
      InsertInOrder(x, from, rest);
      InsertAdds(Sooner(x), from, rest);
    }
  }

  lemma InsertAdds(le: (nat, nat) -> bool, i: nat, s: seq<nat>)
    ensures forall j :: j in Insert(le, i, s) <==> j == i || j in s
  {
    InsertMembers(le, i, s);
    forall j ensures j in Insert(le, i, s) <==> j == i || j in s {
      assert j in Insert(le, i, s) <==> j in multiset(Insert(le, i, s));
      assert j in multiset([i] + s) <==> j in [i] + s;
    }
  }

  lemma {:induction false} FilterInOrder(x: Job, p: nat -> bool, s: seq<nat>)
    requires InOrder(x, s)
    ensures InOrder(x, Filter(p, s)) && (forall i :: i in Filter(p, s) <==> i in s && p(i))
    decreases |s|
  {
    if s != [] {
      var rest := Filter(p, s[1..]);
      FilterInOrder(x, p, s[1..]);
      assert s == [s[0]] + s[1..];
      if p(s[0]) {
        forall k | 0 <= k < |rest| ensures Precedes(x, s[0], rest[k]) {
          assert rest[k] in rest && rest[k] in s[1..];
          var j :| 0 <= j < |s| - 1 && s[1..][j] == rest[k];
          assert Precedes(x, s[0], s[j + 1]);
        }
        ConsInOrder(x, s[0], rest);
      }
    }
  }

  /** Normal candidates come before opportunistic ones; within a tier the admission order decides. */
  predicate TriedBefore(x: Job, i: nat, j: nat) {
    && i < |x.candidates| && j < |x.candidates|
    && (if x.candidates[i].importance == x.candidates[j].importance then Precedes(x, i, j)
        else x.candidates[i].importance == Normal)
  }

  predicate Optional(x: Job, i: nat) {
    i < |x.candidates| && !x.candidates[i].required && x.candidates[i].importance != Pinned
  }

  /** The queue holds every optional candidate once, in the order of its priority. */
  lemma QueueLaw(x: Job)
    ensures forall i :: i in Queue(x) <==> Optional(x, i)
    ensures forall a, b | 0 <= a < b < |Queue(x)| :: TriedBefore(x, Queue(x)[a], Queue(x)[b])
    ensures NoDup(Queue(x))
  {
    OrderedInOrder(x, 0);
    var n, o := Filter(InTier(x, Normal), Ordered(x)), Filter(InTier(x, Opportunistic), Ordered(x));
    FilterInOrder(x, InTier(x, Normal), Ordered(x));
    FilterInOrder(x, InTier(x, Opportunistic), Ordered(x));
    assert forall a | 0 <= a < |n| :: n[a] in n;
    assert forall a | 0 <= a < |o| :: o[a] in o;
    TiersApart(x, n, o);
    var q := Queue(x);
    forall a, b | 0 <= a < b < |q| ensures q[a] != q[b] {
      assert TriedBefore(x, q[a], q[b]);
    }
  }

  lemma TiersApart(x: Job, n: seq<nat>, o: seq<nat>)
    requires InOrder(x, n) && forall a | 0 <= a < |n| :: InTier(x, Normal)(n[a])
    requires InOrder(x, o) && forall a | 0 <= a < |o| :: InTier(x, Opportunistic)(o[a])
    ensures forall a, b | 0 <= a < b < |n + o| :: TriedBefore(x, (n + o)[a], (n + o)[b])
  {
  }

  // ---------------------------------------------------------------------------
  // The rule behind the choice
  // ---------------------------------------------------------------------------

  /** Those who are in before the `k`th of the queue is tried, when `s` are in at the end. */
  function Before(base: set<nat>, queue: seq<nat>, s: set<nat>, k: nat): set<nat>
    requires k <= |queue|
  {
    base + set j | 0 <= j < k && queue[j] in s :: queue[j]
  }

  /** Each of the queue is in exactly when it is admitted beside those who are in before it. */
  ghost predicate Follows(admit: Admitter, base: set<nat>, queue: seq<nat>, s: set<nat>) {
    && base <= s && s <= base + Elems(queue)
    && (forall k | 0 <= k < |queue| :: admit(Before(base, queue, s, k), queue[k]) == Ok(queue[k] in s))
  }

  lemma BeforeNext(base: set<nat>, queue: seq<nat>, s: set<nat>, k: nat)
    requires 0 < k <= |queue|
    ensures Before(base, queue, s, k) == Before(if queue[0] in s then base + {queue[0]} else base, queue[1..], s, k - 1)
  {
    var next := if queue[0] in s then base + {queue[0]} else base;
    var l, r := Before(base, queue, s, k), Before(next, queue[1..], s, k - 1);
    forall e | e in l ensures e in r {
      if e !in base {
        var j :| 0 <= j < k && queue[j] in s && queue[j] == e;
        if j > 0 { assert queue[1..][j - 1] == e; }
      }
    }
    forall e | e in r ensures e in l {
      if e !in next {
        var j :| 0 <= j < k - 1 && queue[1..][j] in s && queue[1..][j] == e;
        assert queue[j + 1] == e;
      } else if e !in base {
        assert e == queue[0];
      }
    }
  }

  lemma BeforeFirst(base: set<nat>, queue: seq<nat>, s: set<nat>)
    ensures Before(base, queue, s, 0) == base
  {
  }

  /** Trying the queue one by one finds the one set that follows the rule. */
  lemma {:induction false} GreedyExactly(admit: Admitter, base: set<nat>, queue: seq<nat>, s: set<nat>)
    requires NoDup(queue) && Elems(queue) !! base
    ensures Greedy(admit, base, queue) == Ok(s) <==> Follows(admit, base, queue, s)
    decreases |queue|
  {
    if queue != [] {
      NoDupCons(queue);
      var c := queue[0];
      BeforeFirst(base, queue, s);
      if Follows(admit, base, queue, s) {
        assert admit(Before(base, queue, s, 0), queue[0]) == Ok(c in s);
        FollowsRest(admit, base, queue, s);
        GreedyExactly(admit, if c in s then base + {c} else base, queue[1..], s);
      }
      if Greedy(admit, base, queue) == Ok(s) {
        var yes := admit(base, c).value;
        GreedyExactly(admit, if yes then base + {c} else base, queue[1..], s);
        assert yes <==> c in s;
        FollowsAll(admit, base, queue, s);
      }
    } else {
      assert base <= s && s <= base + Elems(queue) ==> s == base;
    }
  }

  lemma FollowsAt(admit: Admitter, base: set<nat>, queue: seq<nat>, s: set<nat>, k: nat)
    requires k + 1 < |queue| && Follows(admit, base, queue, s)
    ensures var next := if queue[0] in s then base + {queue[0]} else base;
            admit(Before(next, queue[1..], s, k), queue[1..][k]) == Ok(queue[1..][k] in s)
  {
    BeforeNext(base, queue, s, k + 1);
    assert admit(Before(base, queue, s, k + 1), queue[k + 1]) == Ok(queue[k + 1] in s);
  }

  lemma RestBounds(base: set<nat>, queue: seq<nat>, s: set<nat>)
    requires queue != [] && base <= s && s <= base + Elems(queue)
    ensures var next := if queue[0] in s then base + {queue[0]} else base;
            next <= s && s <= next + Elems(queue[1..])
  {
    assert queue == [queue[0]] + queue[1..];
  }

  lemma FollowsRest(admit: Admitter, base: set<nat>, queue: seq<nat>, s: set<nat>)
    requires queue != [] && Follows(admit, base, queue, s)
    ensures Follows(admit, if queue[0] in s then base + {queue[0]} else base, queue[1..], s)
  {
    RestBounds(base, queue, s);
    forall k | 0 <= k < |queue| - 1
      ensures var next := if queue[0] in s then base + {queue[0]} else base;
              admit(Before(next, queue[1..], s, k), queue[1..][k]) == Ok(queue[1..][k] in s)
    {
      FollowsAt(admit, base, queue, s, k);
    }
  }

  lemma FollowsAll(admit: Admitter, base: set<nat>, queue: seq<nat>, s: set<nat>)
    requires queue != [] && admit(base, queue[0]) == Ok(queue[0] in s)
    requires Follows(admit, if queue[0] in s then base + {queue[0]} else base, queue[1..], s)
    ensures Follows(admit, base, queue, s)
  {
    forall k | 0 <= k < |queue| ensures admit(Before(base, queue, s, k), queue[k]) == Ok(queue[k] in s) {
      if k == 0 {
        BeforeFirst(base, queue, s);
      } else {
        BeforeNext(base, queue, s, k);
        assert queue[1..][k - 1] == queue[k];
      }
    }
    assert queue == [queue[0]] + queue[1..];
  }

  lemma QueueApart(x: Job)
    ensures Elems(Queue(x)) !! x.Mandatory() && NoDup(Queue(x)) && forall i <- Queue(x) :: i < |x.candidates|
  {
    QueueLaw(x);
    assert forall i <- Queue(x) :: Optional(x, i);
    forall i | i in Elems(Queue(x)) ensures i !in x.Mandatory() { assert Optional(x, i); }
  }

  /** Every candidate that is required or pinned. */
  ghost function Forced(x: Job): set<nat> {
    set i | 0 <= i < |x.candidates| && !Optional(x, i)
  }

  /** The mandatory fragments fit, each region's share included. */
  ghost predicate MandatoryFits(x: Job) {
    && Cost(x, {}).Ok? && Cost(x, {}).value <= x.budget
    && Cost(x, Forced(x)).Ok? && Cost(x, Forced(x)).value <= x.budget
    && (forall r <- x.limits :: RegionSpend(x, Forced(x), r) <= x.limits[r])
  }

  /** Assembly succeeds with `s` exactly when the mandatory part fits and `s` follows the rule. */
  lemma IncludedExactly(x: Job, s: set<nat>)
    ensures Included(x) == Ok(s) <==> MandatoryFits(x) && Follows(AdmitterOf(x), Forced(x), Queue(x), s)
  {
    assert Forced(x) == x.Mandatory();
    QueueApart(x);
    GreedyExactly(AdmitterOf(x), x.Mandatory(), Queue(x), s);
  }

  // ---------------------------------------------------------------------------
  // Limits hold
  // ---------------------------------------------------------------------------

  ghost predicate Holds(x: Job, s: set<nat>) {
    && (forall r <- x.limits :: RegionSpend(x, s, r) <= x.limits[r])
    && Cost(x, s).Ok? && Cost(x, s).value <= x.budget
  }

  lemma AdmitHolds(x: Job, s: set<nat>, c: nat)
    requires Holds(x, s) && c !in s && c < |x.candidates| && Admit(x, s, c) == Ok(true)
    ensures Holds(x, s + {c})
  {
    forall r <- x.limits ensures RegionSpend(x, s + {c}, r) <= x.limits[r] {
      RegionSpendAdd(x, s, c, r);
    }
  }

  lemma {:induction false} GreedyHolds(x: Job, base: set<nat>, queue: seq<nat>)
    requires NoDup(queue) && Elems(queue) !! base && forall i <- queue :: i < |x.candidates|
    requires Holds(x, base) && Greedy(AdmitterOf(x), base, queue).Ok?
    ensures Holds(x, Greedy(AdmitterOf(x), base, queue).value)
    decreases |queue|
  {
    if queue != [] {
      var c, rest := queue[0], queue[1..];
      NoDupCons(queue);
      assert c in queue && forall i <- rest :: i in queue;
      if Admit(x, base, c) == Ok(true) {
        AdmitHolds(x, base, c);
        GreedyHolds(x, base + {c}, rest);
      } else {
        GreedyHolds(x, base, rest);
      }
    }
  }

  /**
   * On success every mandatory candidate is in, nothing but candidates is, no region exceeds its
   * limit, and the whole costs no more than the budget, by sources and by messages.
   */
  lemma AdmissionLaw(x: Job)
    requires Included(x).Ok?
    ensures var s := Included(x).value;
            && (forall i <- s :: i < |x.candidates|)
            && (forall i | 0 <= i < |x.candidates| && !Optional(x, i) :: i in s)
            && Holds(x, s)
            && Fixed(x) + Spend(x, s) <= x.budget
            && MakeMessages(x, s).Ok? && MessageTokens(x, MakeMessages(x, s).value) <= x.budget
  {
    var s := Included(x).value;
    IncludedExactly(x, s);
    QueueApart(x);
    GreedyHolds(x, x.Mandatory(), Queue(x));
    QueueLaw(x);
    assert Forced(x) == x.Mandatory();
    forall i <- s ensures i < |x.candidates| {
      assert i in x.Mandatory() + Elems(Queue(x));
    }
  }

  // ---------------------------------------------------------------------------
  // Nothing more fits
  // ---------------------------------------------------------------------------

  /** Choosing more never makes the finished messages cheaper. */
  ghost predicate Monotone(x: Job) {
    forall s: set<nat>, t: set<nat> | s <= t && Cost(x, s).Ok? && Cost(x, t).Ok? :: Cost(x, s).value <= Cost(x, t).value
  }

  /** There is room for `c` beside `s`, in its region and in the whole. */
  ghost predicate Fits(x: Job, s: set<nat>, c: nat)
    requires c < |x.candidates|
  {
    var region := x.candidates[c].region;
    && (region in x.limits ==> RegionSpend(x, s + {c}, region) <= x.limits[region])
    && Cost(x, s + {c}).Ok? && Cost(x, s + {c}).value <= x.budget
  }

  /** Who was refused beside fewer is refused beside more. */
  lemma RefusedStays(x: Job, early: set<nat>, s: set<nat>, c: nat)
    requires c < |x.candidates| && early <= s && c !in s && Monotone(x)
    requires Admit(x, early, c) == Ok(false)
    ensures !Fits(x, s, c)
  {
    SpendToGrows(x, early, s, |x.candidates|);
    SpendAdd(x, s, c);
    RegionSpendGrows(x, early, s, x.candidates[c].region);
    RegionSpendAdd(x, s, c, x.candidates[c].region);
    assert early + {c} <= s + {c};
  }

  /** With such a counter, no candidate that was skipped would fit beside those that are in. */
  lemma NothingMoreFits(x: Job, c: nat)
    requires Included(x).Ok? && Monotone(x) && Optional(x, c) && c !in Included(x).value
    ensures !Fits(x, Included(x).value, c)
  {
    var s, q := Included(x).value, Queue(x);
    IncludedExactly(x, s);
    QueueLaw(x);
    assert c in q;
    var k :| 0 <= k < |q| && q[k] == c;
    var early := Before(Forced(x), q, s, k);
    assert AdmitterOf(x)(early, q[k]) == Ok(q[k] in s);
    RefusedStays(x, early, s, c);
  }

  /** The running count of what remains is never what stops a candidate that the cost would let in. */
  lemma RemainingIsImplied(x: Job, s: set<nat>, c: nat)
    requires c < |x.candidates| && c !in s && Fits(x, s, c)
    ensures Admit(x, s, c) == Ok(true)
  {
    SpendAdd(x, s, c);
    RegionSpendAdd(x, s, c, x.candidates[c].region);
  }

  // ---------------------------------------------------------------------------
  // What is included is shown
  // ---------------------------------------------------------------------------

  lemma EveryCandidateIsPlaced(x: Job, i: nat)
    requires i < |x.candidates|
    ensures i in ShownOrder(x)
  {
    var cs := ShownOf(x.candidates, 0);
    var shown := Present(cs, x.styles);
    PresentExactly(cs, x.styles, shown);
    assert cs[i] in multiset(cs);
    assert cs[i] in shown;
    var k :| 0 <= k < |shown| && shown[k] == cs[i];
    assert IndexOfShown(shown)[k] == i;
  }

  lemma {:induction false} ChosenInRegion(x: Job, shown: seq<nat>, s: set<nat>, i: nat)
    requires i in shown && i in s && i < |x.candidates|
    ensures x.candidates[i].id in Ids(InRegion(x, shown, s, x.candidates[i].region))
    decreases |shown|
  {
    var rest := InRegion(x, shown[1..], s, x.candidates[i].region);
    if shown[0] == i {
      var c := x.candidates[i];
      assert Ids([c] + rest)[0] == c.id;
    } else {
      ChosenInRegion(x, shown[1..], s, i);
      if shown[0] < |x.candidates| {
        var c := x.candidates[shown[0]];
        assert ([c] + rest)[1..] == rest && Ids([c] + rest) == [c.id] + Ids(rest);
      }
    }
  }

  lemma {:induction false} LaidOutHas(x: Job, s: set<nat>, layout: seq<string>, region: string, id: string)
    requires region in layout && region != HISTORY && id in Sources(RegionMessage(x, s, region))
    ensures id in Sources(LaidOut(x, s, layout))
    decreases |layout|
  {
    var now := if layout[0] == HISTORY then HistoryMessages(x.history) else RegionMessage(x, s, layout[0]);
    SourcesConcat(now, LaidOut(x, s, layout[1..]));
    if layout[0] != region { LaidOutHas(x, s, layout[1..], region, id); }
  }

  /** Each chosen candidate of a region that is laid out is a source of the messages, merged or not. */
  lemma IncludedIsShown(x: Job, s: set<nat>, i: nat)
    requires MakeMessages(x, s).Ok? && i in s && i < |x.candidates|
    requires x.candidates[i].region in x.layout && x.candidates[i].region != HISTORY
    ensures x.candidates[i].id in Sources(MakeMessages(x, s).value)
  {
    var c := x.candidates[i];
    EveryCandidateIsPlaced(x, i);
    ChosenInRegion(x, ShownOrder(x), s, i);
    var m := RegionMessage(x, s, c.region);
    assert m != [] && c.id in m[0].source && Sources(m) == m[0].source + Sources(m[1..]);
    LaidOutHas(x, s, x.layout, c.region, c.id);
    var before, after := PolicyMessages(x.policy, Main), PolicyMessages(x.policy, AfterHistory);
    SourcesConcat(before, LaidOut(x, s, x.layout));
    SourcesConcat(before + LaidOut(x, s, x.layout), after);
    MergeLaw(AllMessages(x, s));
  }
}
