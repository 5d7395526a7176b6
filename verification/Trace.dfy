/** The trace of an assembly: one entry for each source, adding up to what the assembly costs. */
module Trace {
  import opened Common
  import opened Messages
  import opened Assembly
  import opened AssemblyLaws

  datatype Entry = Entry(id: string, tokens: nat, included: bool)

  /** A fragment of the content: not active, active but with nothing to show, or a candidate. */
  datatype Fragment = Inactive(id: string) | Unrenderable(id: string) | Ready(c: Candidate)

  function IdOf(f: Fragment): string {
    match f case Inactive(id) => id case Unrenderable(id) => id case Ready(c) => c.id
  }

  function ReadyOf(fs: seq<Fragment>): seq<Candidate> {
    if fs == [] then []
    else if fs[0].Ready? then [fs[0].c] + ReadyOf(fs[1..])
    else ReadyOf(fs[1..])
  }

  function FragmentIds(fs: seq<Fragment>): (r: seq<string>)
    ensures |r| == |fs|
  {
    if fs == [] then [] else [IdOf(fs[0])] + FragmentIds(fs[1..])
  }

  // ---------------------------------------------------------------------------
  // Building the trace
  // ---------------------------------------------------------------------------

  /** Entries by identifier: first those of fragments that are no candidates. */
  function SkippedEntries(fs: seq<Fragment>): map<string, Entry>
    decreases |fs|
  {
    if fs == [] then map[]
    else
      var f := fs[|fs| - 1];
      var m := SkippedEntries(fs[..|fs| - 1]);
      if f.Ready? then m else m[IdOf(f) := Entry(IdOf(f), 0, false)]
  }

  /** Then those of the candidates, in or out. */
  function CandidateEntries(x: Job, s: set<nat>, m: map<string, Entry>, n: nat): map<string, Entry>
    requires n <= |x.candidates|
  {
    if n == 0 then m
    else
      var id := x.candidates[n - 1].id;
      CandidateEntries(x, s, m, n - 1)[id := Entry(id, x.Tokens(n - 1), n - 1 in s)]
  }

  function EntriesById(x: Job, s: set<nat>, fs: seq<Fragment>): map<string, Entry> {
    CandidateEntries(x, s, SkippedEntries(fs), |x.candidates|)
  }

  function Looked(m: map<string, Entry>, ids: seq<string>): seq<Entry> {
    if ids == [] then []
    else if ids[0] in m then [m[ids[0]]] + Looked(m, ids[1..])
    else Looked(m, ids[1..])
  }

  function BlockEntries(x: Job, bs: seq<Block>): seq<Entry> {
    if bs == [] then [] else [Entry(bs[0].id, x.count(bs[0].text), true)] + BlockEntries(x, bs[1..])
  }

  function HistoryEntries(x: Job): seq<Entry> {
    if x.history == [] then [] else [Entry(HISTORY, HistoryTokens(x, x.history), true)]
  }

  function PolicyEntries(x: Job, ps: seq<PolicyBlock>): seq<Entry> {
    if ps == [] then []
    else
      var tokens := if ps[0].enabled then x.count(ps[0].text) else 0;
      [Entry(ps[0].source, tokens, ps[0].enabled)] + PolicyEntries(x, ps[1..])
  }

  function FormattingTokens(x: Job, s: set<nat>, ms: seq<Message>): nat {
    var over := MessageTokens(x, ms) - Fixed(x) - Spend(x, s);
    if over > 0 then over else 0
  }

  function FormattingEntries(x: Job, s: set<nat>, ms: seq<Message>): seq<Entry> {
    var t := FormattingTokens(x, s, ms);
    if t > 0 then [Entry("assembly:formatting", t, true)] else []
  }

  /** The whole trace of an assembly with `s` included, whose messages are `ms`. */
  function TraceOf(x: Job, s: set<nat>, fs: seq<Fragment>, extras: seq<Candidate>, ms: seq<Message>): seq<Entry> {
    Looked(EntriesById(x, s, fs), FragmentIds(fs) + Ids(extras)) + BlockEntries(x, x.blocks) + HistoryEntries(x)
    + PolicyEntries(x, x.policy) + FormattingEntries(x, s, ms)
  }

  function Total(es: seq<Entry>): nat {
    if es == [] then 0 else (if es[0].included then es[0].tokens else 0) + Total(es[1..])
  }

  // ---------------------------------------------------------------------------
  // The trace adds up
  // ---------------------------------------------------------------------------

  lemma {:induction false} TotalConcat(a: seq<Entry>, b: seq<Entry>)
    ensures Total(a + b) == Total(a) + Total(b)
  {
    if a == [] {
      assert a + b == b;
    } else {
      assert (a + b)[1..] == a[1..] + b;
      TotalConcat(a[1..], b);
    }
  }

  lemma {:induction false} BlocksTotal(x: Job, bs: seq<Block>)
    ensures Total(BlockEntries(x, bs)) == BlockTokens(x, bs)
  {
    if bs != [] {
      BlocksTotal(x, bs[1..]);
      assert BlockEntries(x, bs)[1..] == BlockEntries(x, bs[1..]);
    }
  }

  lemma {:induction false} PoliciesTotal(x: Job, ps: seq<PolicyBlock>)
    ensures Total(PolicyEntries(x, ps)) == PolicyTokens(x, ps)
  {
    if ps != [] {
      PoliciesTotal(x, ps[1..]);
      assert PolicyEntries(x, ps)[1..] == PolicyEntries(x, ps[1..]);
    }
  }

  /** What the entry under an identifier adds to the total. */
  function Amount(m: map<string, Entry>, id: string): nat {
    if id in m && m[id].included then m[id].tokens else 0
  }

  /** The entry under an identifier is that of the last candidate that has it. */
  lemma {:induction false} LastEntry(x: Job, s: set<nat>, m: map<string, Entry>, n: nat, i: nat) returns (j: nat)
    requires i < n <= |x.candidates|
    ensures i <= j < n && x.candidates[j].id == x.candidates[i].id
    ensures forall k | j < k < n :: x.candidates[k].id != x.candidates[i].id
    ensures var id := x.candidates[i].id;
            id in CandidateEntries(x, s, m, n) && CandidateEntries(x, s, m, n)[id] == Entry(id, x.Tokens(j), j in s)
    decreases n
  {
    if x.candidates[n - 1].id == x.candidates[i].id {
      j := n - 1;
    } else {
      j := LastEntry(x, s, m, n - 1, i);
    }
  }

  lemma {:induction false} SkippedEntry(fs: seq<Fragment>, k: nat)
    requires k < |fs| && !fs[k].Ready?
    ensures IdOf(fs[k]) in SkippedEntries(fs)
    ensures forall id <- SkippedEntries(fs) :: !SkippedEntries(fs)[id].included
    decreases |fs|
  {
    SkippedNever(fs);
    if k < |fs| - 1 { SkippedEntry(fs[..|fs| - 1], k); }
  }

  lemma {:induction false} SkippedNever(fs: seq<Fragment>)
    ensures forall id <- SkippedEntries(fs) :: !SkippedEntries(fs)[id].included
    decreases |fs|
  {
    if fs != [] { SkippedNever(fs[..|fs| - 1]); }
  }

  /** An identifier that no candidate has keeps the entry it had. */
  lemma {:induction false} OtherEntry(x: Job, s: set<nat>, m: map<string, Entry>, n: nat, id: string)
    requires n <= |x.candidates| && forall i | 0 <= i < n :: x.candidates[i].id != id
    ensures id in CandidateEntries(x, s, m, n) <==> id in m
    ensures id in m ==> CandidateEntries(x, s, m, n)[id] == m[id]
    decreases n
  {
    if n > 0 { OtherEntry(x, s, m, n - 1, id); }
  }

  /** The tokens of the chosen from the `from`th candidate on. */
  function SpendFrom(x: Job, s: set<nat>, from: nat): nat
    requires from <= |x.candidates|
    decreases |x.candidates| - from
  {
    if from == |x.candidates| then 0 else (if from in s then x.Tokens(from) else 0) + SpendFrom(x, s, from + 1)
  }

  lemma {:induction false} SpendBothWays(x: Job, s: set<nat>, n: nat)
    requires n <= |x.candidates|
    ensures SpendTo(x, s, n) + SpendFrom(x, s, n) == Spend(x, s)
    decreases |x.candidates| - n
  {
    if n < |x.candidates| { SpendBothWays(x, s, n + 1); }
  }

  /** Every fragment is a candidate in its turn, or its identifier has an entry that counts nothing. */
  ghost predicate InTurn(x: Job, m: map<string, Entry>, fs: seq<Fragment>, extras: seq<Candidate>, from: nat) {
    && from <= |x.candidates| && x.candidates[from..] == ReadyOf(fs) + extras
    && (forall f <- fs :: f.Ready? || Amount(m, IdOf(f)) == 0)
  }

  /** Under the identifier of every candidate stands what it costs, if it is in. */
  ghost predicate Owned(x: Job, s: set<nat>, m: map<string, Entry>) {
    forall i | 0 <= i < |x.candidates| :: Amount(m, x.candidates[i].id) == if i in s then x.Tokens(i) else 0
  }

  lemma {:induction false} ExtrasTotal(x: Job, s: set<nat>, m: map<string, Entry>, extras: seq<Candidate>, from: nat)
    requires Owned(x, s, m) && from <= |x.candidates| && x.candidates[from..] == extras
    ensures Total(Looked(m, Ids(extras))) == SpendFrom(x, s, from)
    decreases |extras|
  {
    if extras != [] {
      assert extras[0] == x.candidates[from] && extras[1..] == x.candidates[from + 1..];
      ExtrasTotal(x, s, m, extras[1..], from + 1);
      assert Ids(extras) == [extras[0].id] + Ids(extras[1..]);
      LookOne(m, extras[0].id, Ids(extras[1..]));
    }
  }

  lemma {:induction false} FragmentsTotal(x: Job, s: set<nat>, m: map<string, Entry>, fs: seq<Fragment>,
                                         extras: seq<Candidate>, from: nat)
    requires Owned(x, s, m) && InTurn(x, m, fs, extras, from)
    ensures Total(Looked(m, FragmentIds(fs) + Ids(extras))) == SpendFrom(x, s, from)
    decreases |fs|
  {
    if fs == [] {
      assert FragmentIds(fs) + Ids(extras) == Ids(extras) && ReadyOf(fs) + extras == extras;
      ExtrasTotal(x, s, m, extras, from);
    } else {
      var f, rest := fs[0], fs[1..];
      var more := FragmentIds(rest) + Ids(extras);
      assert f in fs && forall g <- rest :: g in fs;
      assert FragmentIds(fs) + Ids(extras) == [IdOf(f)] + more;
      if f.Ready? {
        TurnOf(x, fs, extras, from);
        LookOne(m, x.candidates[from].id, more);
        FragmentsTotal(x, s, m, rest, extras, from + 1);
      } else {
        LookOne(m, IdOf(f), more);
        FragmentsTotal(x, s, m, rest, extras, from);
      }
    }
  }

  lemma LookOne(m: map<string, Entry>, id: string, more: seq<string>)
    ensures Total(Looked(m, [id] + more)) == Amount(m, id) + Total(Looked(m, more))
  {
    assert ([id] + more)[1..] == more;
    if id in m { assert ([m[id]] + Looked(m, more))[1..] == Looked(m, more); }
  }

  lemma TurnOf(x: Job, fs: seq<Fragment>, extras: seq<Candidate>, from: nat)
    requires fs != [] && fs[0].Ready? && from <= |x.candidates| && x.candidates[from..] == ReadyOf(fs) + extras
    ensures from < |x.candidates| && x.candidates[from] == fs[0].c
    ensures x.candidates[from + 1..] == ReadyOf(fs[1..]) + extras
  {
    assert x.candidates[from..][0] == fs[0].c;
    assert x.candidates[from + 1..] == x.candidates[from..][1..] == (ReadyOf(fs) + extras)[1..];
  }

  /** No two sources have the same identifier. */
  ghost predicate DistinctIds(fs: seq<Fragment>, extras: seq<Candidate>) {
    NoDup(FragmentIds(fs) + Ids(extras))
  }

  /** Where the `i`th candidate stands among the fragments and the extras. */
  function Place(fs: seq<Fragment>, i: nat): nat
    decreases |fs|
  {
    if fs == [] then i
    else if fs[0].Ready? then (if i == 0 then 0 else 1 + Place(fs[1..], i - 1))
    else 1 + Place(fs[1..], i)
  }

  lemma {:induction false} PlaceLaw(fs: seq<Fragment>, extras: seq<Candidate>, i: nat)
    requires i < |ReadyOf(fs) + extras|
    ensures var p, ids := Place(fs, i), FragmentIds(fs) + Ids(extras);
            && p < |ids| && ids[p] == (ReadyOf(fs) + extras)[i].id
            && (p < |fs| ==> fs[p].Ready?)
    decreases |fs|
  {
    if fs == [] {
      IdsLaw(extras);
    } else {
      assert (FragmentIds(fs) + Ids(extras))[1..] == FragmentIds(fs[1..]) + Ids(extras);
      if fs[0].Ready? {
        assert (ReadyOf(fs) + extras)[1..] == ReadyOf(fs[1..]) + extras;
        if i > 0 { PlaceLaw(fs[1..], extras, i - 1); }
      } else {
        PlaceLaw(fs[1..], extras, i);
      }
    }
  }

  lemma {:induction false} IdsLaw(cs: seq<Candidate>)
    ensures |Ids(cs)| == |cs| && forall i | 0 <= i < |cs| :: Ids(cs)[i] == cs[i].id
  {
    if cs != [] { IdsLaw(cs[1..]); }
  }

  lemma {:induction false} PlaceGrows(fs: seq<Fragment>, i: nat, j: nat)
    requires i < j
    ensures Place(fs, i) < Place(fs, j)
    decreases |fs|
  {
    if fs != [] {
      if !fs[0].Ready? { PlaceGrows(fs[1..], i, j); } else if i > 0 { PlaceGrows(fs[1..], i - 1, j - 1); }
    }
  }

  /** The identifiers of the sources as the trace lists them. */
  function SourceIds(fs: seq<Fragment>, extras: seq<Candidate>): seq<string> {
    FragmentIds(fs) + Ids(extras)
  }

  /** No source shares its identifier with a candidate that costs anything. */
  ghost predicate OwnIds(x: Job, fs: seq<Fragment>, extras: seq<Candidate>) {
    forall i | 0 <= i < |x.candidates| && x.Tokens(i) > 0 :: multiset(SourceIds(fs, extras))[x.candidates[i].id] == 1
  }

  lemma {:induction false} TwoPlaces(ids: seq<string>, a: nat, b: nat)
    requires a < b < |ids| && ids[a] == ids[b]
    ensures multiset(ids)[ids[a]] >= 2
  {
    assert ids == ids[..a] + [ids[a]] + ids[a + 1..b] + [ids[b]] + ids[b + 1..];
  }

  lemma {:induction false} ListedOnce(ids: seq<string>, p: nat)
    requires NoDup(ids) && p < |ids|
    ensures multiset(ids)[ids[p]] == 1
  {
    assert ids == ids[..p] + [ids[p]] + ids[p + 1..];
    assert ids[p] !in ids[..p] && ids[p] !in ids[p + 1..];
  }

  /** Callers keep all identifiers apart, which is more than enough. */
  lemma DistinctAreOwn(x: Job, fs: seq<Fragment>, extras: seq<Candidate>)
    requires x.candidates == ReadyOf(fs) + extras && DistinctIds(fs, extras)
    ensures OwnIds(x, fs, extras)
  {
    forall i | 0 <= i < |x.candidates| ensures multiset(SourceIds(fs, extras))[x.candidates[i].id] == 1 {
      PlaceLaw(fs, extras, i);
      ListedOnce(SourceIds(fs, extras), Place(fs, i));
    }
  }

  lemma SameCandidate(x: Job, fs: seq<Fragment>, extras: seq<Candidate>, i: nat, j: nat)
    requires x.candidates == ReadyOf(fs) + extras && OwnIds(x, fs, extras)
    requires i < |x.candidates| && j < |x.candidates| && x.candidates[i].id == x.candidates[j].id
    ensures i == j || x.Tokens(i) == x.Tokens(j) == 0
  {
    var a, b := if i < j then i else j, if i < j then j else i;
    if a != b {
      PlaceLaw(fs, extras, a);
      PlaceLaw(fs, extras, b);
      PlaceGrows(fs, a, b);
      TwoPlaces(SourceIds(fs, extras), Place(fs, a), Place(fs, b));
    }
  }

  lemma EntriesAreOwn(x: Job, s: set<nat>, fs: seq<Fragment>, extras: seq<Candidate>)
    requires x.candidates == ReadyOf(fs) + extras && OwnIds(x, fs, extras)
    ensures Owned(x, s, EntriesById(x, s, fs))
  {
    forall i | 0 <= i < |x.candidates|
      ensures Amount(EntriesById(x, s, fs), x.candidates[i].id) == if i in s then x.Tokens(i) else 0
    {
      var j := LastEntry(x, s, SkippedEntries(fs), |x.candidates|, i);
      SameCandidate(x, fs, extras, i, j);
    }
  }

  lemma SharedWithFragment(x: Job, fs: seq<Fragment>, extras: seq<Candidate>, k: nat, j: nat)
    requires x.candidates == ReadyOf(fs) + extras && k < |fs| && !fs[k].Ready?
    requires j < |x.candidates| && x.candidates[j].id == IdOf(fs[k])
    ensures multiset(SourceIds(fs, extras))[x.candidates[j].id] >= 2
  {
    PlaceLaw(fs, extras, j);
    FragmentIdAt(fs, k);
    var p := Place(fs, j);
    TwoPlaces(SourceIds(fs, extras), if p < k then p else k, if p < k then k else p);
  }

  /** A fragment that is no candidate adds nothing. */
  lemma SkippedAddsNothing(x: Job, s: set<nat>, fs: seq<Fragment>, extras: seq<Candidate>, k: nat)
    requires x.candidates == ReadyOf(fs) + extras && OwnIds(x, fs, extras) && k < |fs| && !fs[k].Ready?
    ensures Amount(EntriesById(x, s, fs), IdOf(fs[k])) == 0
  {
    var id := IdOf(fs[k]);
    if i :| 0 <= i < |x.candidates| && x.candidates[i].id == id {
      var j := LastEntry(x, s, SkippedEntries(fs), |x.candidates|, i);
      SharedWithFragment(x, fs, extras, k, j);
    } else {
      SkippedNever(fs);
      OtherEntry(x, s, SkippedEntries(fs), |x.candidates|, id);
    }
  }

  lemma EntriesInTurn(x: Job, s: set<nat>, fs: seq<Fragment>, extras: seq<Candidate>)
    requires x.candidates == ReadyOf(fs) + extras && OwnIds(x, fs, extras)
    ensures InTurn(x, EntriesById(x, s, fs), fs, extras, 0)
  {
    forall f <- fs ensures f.Ready? || Amount(EntriesById(x, s, fs), IdOf(f)) == 0 {
      if !f.Ready? {
        var k :| 0 <= k < |fs| && fs[k] == f;
        SkippedAddsNothing(x, s, fs, extras, k);
      }
    }
  }

  lemma {:induction false} FragmentIdAt(fs: seq<Fragment>, k: nat)
    requires k < |fs|
    ensures FragmentIds(fs)[k] == IdOf(fs[k])
  {
    if k > 0 { FragmentIdAt(fs[1..], k - 1); }
  }

  /** What the trace lists of the sources is what is spent on them. */
  lemma SourcesAddUp(x: Job, s: set<nat>, fs: seq<Fragment>, extras: seq<Candidate>)
    requires x.candidates == ReadyOf(fs) + extras && OwnIds(x, fs, extras)
    ensures Total(Looked(EntriesById(x, s, fs), SourceIds(fs, extras))) == Spend(x, s)
  {
    EntriesAreOwn(x, s, fs, extras);
    EntriesInTurn(x, s, fs, extras);
    FragmentsTotal(x, s, EntriesById(x, s, fs), fs, extras, 0);
    SpendBothWays(x, s, 0);
  }

  lemma CountOne(ids: seq<string>, id: string, amount: nat)
    requires ids != []
    ensures ids == [ids[0]] + ids[1..]
    ensures multiset(ids)[id] * amount == (if ids[0] == id then amount else 0) + multiset(ids[1..])[id] * amount
  {
    assert ids == [ids[0]] + ids[1..];
    assert multiset(ids) == multiset{ids[0]} + multiset(ids[1..]);
  }

  /** When only one identifier counts, it counts as often as it is listed. */
  lemma {:induction false} OneCounts(m: map<string, Entry>, ids: seq<string>, id: string)
    requires forall k: string | k != id :: Amount(m, k) == 0
    ensures Total(Looked(m, ids)) == multiset(ids)[id] * Amount(m, id)
  {
    if ids != [] {
      OneCounts(m, ids[1..], id);
      LookOne(m, ids[0], ids[1..]);
      CountOne(ids, id, Amount(m, id));
    }
  }

  lemma {:induction false} NothingSpent(x: Job, n: nat)
    requires n <= |x.candidates|
    ensures SpendTo(x, {}, n) == 0
  {
    if n > 0 { NothingSpent(x, n - 1); }
  }

  /** With one candidate in, no other identifier counts. */
  lemma OnlyItCounts(x: Job, fs: seq<Fragment>, c: nat, k: string)
    requires c < |x.candidates| && k != x.candidates[c].id
    ensures Amount(EntriesById(x, {c}, fs), k) == 0
  {
    if i :| 0 <= i < |x.candidates| && x.candidates[i].id == k {
      var j := LastEntry(x, {c}, SkippedEntries(fs), |x.candidates|, i);
    } else {
      SkippedNever(fs);
      OtherEntry(x, {c}, SkippedEntries(fs), |x.candidates|, k);
    }
  }

  /** With one candidate in, the trace counts it as often as its identifier is listed, if it is the last to have it. */
  lemma OneInTrace(x: Job, fs: seq<Fragment>, extras: seq<Candidate>, c: nat, last: nat)
    requires x.candidates == ReadyOf(fs) + extras && c <= last < |x.candidates|
    requires var m := EntriesById(x, {c}, fs); var id := x.candidates[c].id;
             id in m && m[id] == Entry(id, x.Tokens(last), last in {c})
    ensures Total(Looked(EntriesById(x, {c}, fs), SourceIds(fs, extras)))
         == if c == last then multiset(SourceIds(fs, extras))[x.candidates[c].id] * x.Tokens(c) else 0
  {
    var id := x.candidates[c].id;
    forall k: string | k != id ensures Amount(EntriesById(x, {c}, fs), k) == 0 { OnlyItCounts(x, fs, c, k); }
    OneCounts(EntriesById(x, {c}, fs), SourceIds(fs, extras), id);
    if c != last { assert Amount(EntriesById(x, {c}, fs), id) == 0; }
  }

  lemma OneSpent(x: Job, c: nat)
    requires c < |x.candidates|
    ensures Spend(x, {c}) == x.Tokens(c)
  {
    NothingSpent(x, |x.candidates|);
    SpendAdd(x, {}, c);
    assert {} + {c} == {c};
  }

  /** A shared identifier is miscounted for some choice. */
  lemma SharedIdMiscounts(x: Job, fs: seq<Fragment>, extras: seq<Candidate>, i: nat) returns (s: set<nat>)
    requires x.candidates == ReadyOf(fs) + extras && i < |x.candidates| && x.Tokens(i) > 0
    requires multiset(SourceIds(fs, extras))[x.candidates[i].id] != 1
    ensures Total(Looked(EntriesById(x, s, fs), SourceIds(fs, extras))) != Spend(x, s)
  {
    var ids, id := SourceIds(fs, extras), x.candidates[i].id;
    PlaceLaw(fs, extras, i);
    assert ids[Place(fs, i)] == id && id in ids;
    var j := LastEntry(x, {}, SkippedEntries(fs), |x.candidates|, i);
    LastIsLast(x, fs, {j}, i, j);
    LastIsLast(x, fs, {i}, i, j);
    if x.Tokens(j) > 0 {
      s := {j};
      OneInTrace(x, fs, extras, j, j);
      OneSpent(x, j);
      More(multiset(ids)[id], x.Tokens(j));
    } else {
      s := {i};
      OneInTrace(x, fs, extras, i, j);
      OneSpent(x, i);
    }
  }

  lemma More(n: nat, t: nat)
    requires n >= 2 && t > 0
    ensures n * t != t
  {
    assert n * t >= 2 * t;
  }

  /** Which candidate's entry stands does not depend on the choice. */
  lemma LastIsLast(x: Job, fs: seq<Fragment>, s: set<nat>, i: nat, j: nat)
    requires i < |x.candidates| && j < |x.candidates| && x.candidates[j].id == x.candidates[i].id
    requires forall k | j < k < |x.candidates| :: x.candidates[k].id != x.candidates[i].id
    ensures var id, m := x.candidates[i].id, EntriesById(x, s, fs); id in m && m[id] == Entry(id, x.Tokens(j), j in s)
  {
    var l := LastEntry(x, s, SkippedEntries(fs), |x.candidates|, j);
  }

  /**
   * Whatever is chosen, the trace adds up to the cost, the larger of what the sources and what the
   * messages cost, exactly when no source shares its identifier with a candidate that costs anything.
   */
  lemma TraceAddsExactly(x: Job, fs: seq<Fragment>, extras: seq<Candidate>)
    requires x.candidates == ReadyOf(fs) + extras
    ensures (forall s: set<nat>, ms: seq<Message> ::
               Total(TraceOf(x, s, fs, extras, ms)) == Max(Fixed(x) + Spend(x, s), MessageTokens(x, ms)))
            <==> OwnIds(x, fs, extras)
  {
    forall s: set<nat>, ms: seq<Message>
      ensures Total(TraceOf(x, s, fs, extras, ms)) == Max(Fixed(x) + Spend(x, s), MessageTokens(x, ms))
         <==> Total(Looked(EntriesById(x, s, fs), SourceIds(fs, extras))) == Spend(x, s)
    {
      TraceAdds(x, s, fs, extras, ms);
    }
    if OwnIds(x, fs, extras) {
      forall s: set<nat>, ms: seq<Message>
        ensures Total(TraceOf(x, s, fs, extras, ms)) == Max(Fixed(x) + Spend(x, s), MessageTokens(x, ms))
      {
        SourcesAddUp(x, s, fs, extras);
      }
    } else {
      var i :| 0 <= i < |x.candidates| && x.Tokens(i) > 0 && multiset(SourceIds(fs, extras))[x.candidates[i].id] != 1;
      var s := SharedIdMiscounts(x, fs, extras, i);
      assert Total(TraceOf(x, s, fs, extras, [])) != Max(Fixed(x) + Spend(x, s), MessageTokens(x, []));
    }
  }

  /** The trace of a successful assembly adds up to its cost, within the budget. */
  lemma TotalIsCost(x: Job, fs: seq<Fragment>, extras: seq<Candidate>)
    requires x.candidates == ReadyOf(fs) + extras && OwnIds(x, fs, extras) && Included(x).Ok?
    ensures var s := Included(x).value;
            && MakeMessages(x, s).Ok? && Cost(x, s).Ok?
            && Total(TraceOf(x, s, fs, extras, MakeMessages(x, s).value)) == Cost(x, s).value <= x.budget
  {
    var s := Included(x).value;
    AdmissionLaw(x);
    SourcesAddUp(x, s, fs, extras);
    TraceAdds(x, s, fs, extras, MakeMessages(x, s).value);
  }

  lemma TraceAdds(x: Job, s: set<nat>, fs: seq<Fragment>, extras: seq<Candidate>, ms: seq<Message>)
    ensures Total(TraceOf(x, s, fs, extras, ms))
            == Total(Looked(EntriesById(x, s, fs), FragmentIds(fs) + Ids(extras))) + Fixed(x)
                + FormattingTokens(x, s, ms)
  {
    var a, b := Looked(EntriesById(x, s, fs), FragmentIds(fs) + Ids(extras)), BlockEntries(x, x.blocks);
    var h, p, f := HistoryEntries(x), PolicyEntries(x, x.policy), FormattingEntries(x, s, ms);
    TotalConcat(a + b + h + p, f);
    TotalConcat(a + b + h, p);
    TotalConcat(a + b, h);
    TotalConcat(a, b);
    BlocksTotal(x, x.blocks);
    PoliciesTotal(x, x.policy);
    assert Total(h) == HistoryTokens(x, x.history);
    assert Total(f) == FormattingTokens(x, s, ms);
  }

  // ---------------------------------------------------------------------------
  // What the trace lists
  // ---------------------------------------------------------------------------

  lemma {:induction false} AllLooked(m: map<string, Entry>, ids: seq<string>)
    requires forall id <- ids :: id in m
    ensures |Looked(m, ids)| == |ids| && forall k | 0 <= k < |ids| :: Looked(m, ids)[k] == m[ids[k]]
  {
    if ids != [] {
      assert ids[0] in ids && forall id <- ids[1..] :: id in ids;
      AllLooked(m, ids[1..]);
    }
  }

  /** With identifiers apart, every candidate has its own entry. */
  lemma CandidateListed(x: Job, s: set<nat>, fs: seq<Fragment>, extras: seq<Candidate>, i: nat)
    requires x.candidates == ReadyOf(fs) + extras && DistinctIds(fs, extras) && i < |x.candidates|
    ensures var id, m := x.candidates[i].id, EntriesById(x, s, fs);
            id in m && m[id] == Entry(id, x.count(x.candidates[i].text), i in s)
  {
    var j := LastEntry(x, s, SkippedEntries(fs), |x.candidates|, i);
    if j > i {
      PlaceLaw(fs, extras, i);
      PlaceLaw(fs, extras, j);
      PlaceGrows(fs, i, j);
    }
  }

  lemma CandidateElsewhere(fs: seq<Fragment>, extras: seq<Candidate>, i: nat, k: nat)
    requires DistinctIds(fs, extras) && i < |ReadyOf(fs) + extras| && k < |fs| && !fs[k].Ready?
    ensures (ReadyOf(fs) + extras)[i].id != IdOf(fs[k])
  {
    var ids, p := FragmentIds(fs) + Ids(extras), Place(fs, i);
    FragmentIdAt(fs, k);
    PlaceLaw(fs, extras, i);
    assert ids[k] == IdOf(fs[k]) && p != k;
    assert ids[p] != ids[k];
  }

  /** A fragment that is no candidate has an entry that counts nothing. */
  lemma SkippedListed(x: Job, s: set<nat>, fs: seq<Fragment>, extras: seq<Candidate>, k: nat)
    requires x.candidates == ReadyOf(fs) + extras && DistinctIds(fs, extras) && k < |fs| && !fs[k].Ready?
    ensures var id, m := IdOf(fs[k]), EntriesById(x, s, fs); id in m && m[id] == Entry(id, 0, false)
  {
    var id := IdOf(fs[k]);
    FragmentIdAt(fs, k);
    forall i | 0 <= i < |x.candidates| ensures x.candidates[i].id != id {
      CandidateElsewhere(fs, extras, i, k);
    }
    OtherEntry(x, s, SkippedEntries(fs), |x.candidates|, id);
    SkippedAt(fs, k);
  }

  lemma {:induction false} SkippedAt(fs: seq<Fragment>, k: nat)
    requires k < |fs| && !fs[k].Ready?
    ensures IdOf(fs[k]) in SkippedEntries(fs) && SkippedEntries(fs)[IdOf(fs[k])] == Entry(IdOf(fs[k]), 0, false)
    decreases |fs|
  {
    if k < |fs| - 1 { SkippedAt(fs[..|fs| - 1], k); }
  }

  /** Which of the candidates stands at the `k`th place of the fragments and the extras. */
  ghost predicate StandsAt(fs: seq<Fragment>, extras: seq<Candidate>, k: nat, i: nat) {
    i < |ReadyOf(fs) + extras| && Place(fs, i) == k
  }

  lemma {:induction false} PlaceTaken(fs: seq<Fragment>, extras: seq<Candidate>, k: nat) returns (i: nat)
    requires k < |fs| + |extras| && (k < |fs| ==> fs[k].Ready?)
    ensures i < |ReadyOf(fs) + extras| && Place(fs, i) == k
    ensures (ReadyOf(fs) + extras)[i] == if k < |fs| then fs[k].c else extras[k - |fs|]
    decreases |fs|
  {
    if fs == [] {
      i := k;
    } else if k == 0 {
      i := 0;
    } else {
      var j := PlaceTaken(fs[1..], extras, k - 1);
      var later := ReadyOf(fs[1..]) + extras;
      if fs[0].Ready? {
        assert ReadyOf(fs) + extras == [fs[0].c] + later;
        i := j + 1;
      } else {
        assert ReadyOf(fs) + extras == later;
        i := j;
      }
    }
  }

  /** The entry of the `k`th source: what it counts and whether it is in, or nothing for what is no candidate. */
  ghost predicate Tells(
    x: Job, s: set<nat>, fs: seq<Fragment>, extras: seq<Candidate>, k: nat, e: Entry)
    requires k < |fs| + |extras|
  {
    if k < |fs| && !fs[k].Ready? then e == Entry(IdOf(fs[k]), 0, false)
    else
      var c := if k < |fs| then fs[k].c else extras[k - |fs|];
      exists i: nat :: StandsAt(fs, extras, k, i) && e == Entry(c.id, x.count(c.text), i in s)
  }

  lemma EntryTells(x: Job, s: set<nat>, fs: seq<Fragment>, extras: seq<Candidate>, k: nat)
    requires x.candidates == ReadyOf(fs) + extras && DistinctIds(fs, extras) && k < |fs| + |extras|
    ensures var ids, m := FragmentIds(fs) + Ids(extras), EntriesById(x, s, fs);
            |ids| == |fs| + |extras| && ids[k] in m && Tells(x, s, fs, extras, k, m[ids[k]])
  {
    IdsLaw(extras);
    if k < |fs| { FragmentIdAt(fs, k); }
    if k < |fs| && !fs[k].Ready? {
      SkippedListed(x, s, fs, extras, k);
    } else {
      var i := PlaceTaken(fs, extras, k);
      CandidateListed(x, s, fs, extras, i);
      assert StandsAt(fs, extras, k, i);
    }
  }

  lemma {:induction false} BlocksListed(x: Job, bs: seq<Block>)
    ensures var es := BlockEntries(x, bs);
            |es| == |bs| && forall k | 0 <= k < |bs| :: es[k] == Entry(bs[k].id, x.count(bs[k].text), true)
  {
    if bs != [] { BlocksListed(x, bs[1..]); }
  }

  lemma {:induction false} PoliciesListed(x: Job, ps: seq<PolicyBlock>)
    ensures var es := PolicyEntries(x, ps);
            && |es| == |ps|
            && forall k | 0 <= k < |ps| ::
                 es[k] == Entry(ps[k].source, if ps[k].enabled then x.count(ps[k].text) else 0, ps[k].enabled)
  {
    if ps != [] { PoliciesListed(x, ps[1..]); }
  }

  /**
   * The trace lists, in order: every fragment and extra with what it counts and whether it is in;
   * every session block; the history as one entry, if there is any; every policy block, counting
   * nothing unless enabled; and what the messages cost beyond their sources, if anything.
   */
  lemma TraceListed(x: Job, s: set<nat>, fs: seq<Fragment>, extras: seq<Candidate>, ms: seq<Message>)
    returns (sources: seq<Entry>, blocks: seq<Entry>, policy: seq<Entry>)
    requires x.candidates == ReadyOf(fs) + extras && DistinctIds(fs, extras)
    ensures var over := MessageTokens(x, ms) - Fixed(x) - Spend(x, s);
            TraceOf(x, s, fs, extras, ms)
            == sources + blocks
               + (if x.history == [] then [] else [Entry("history", HistoryTokens(x, x.history), true)])
               + policy + if over > 0 then [Entry("assembly:formatting", over, true)] else []
    ensures |sources| == |fs| + |extras|
    ensures forall k | 0 <= k < |sources| :: Tells(x, s, fs, extras, k, sources[k])
    ensures |blocks| == |x.blocks|
    ensures forall k | 0 <= k < |blocks| :: blocks[k] == Entry(x.blocks[k].id, x.count(x.blocks[k].text), true)
    ensures |policy| == |x.policy|
    ensures forall k | 0 <= k < |policy| ::
              var p := x.policy[k];
              policy[k] == Entry(p.source, if p.enabled then x.count(p.text) else 0, p.enabled)
  {
    var ids, m := FragmentIds(fs) + Ids(extras), EntriesById(x, s, fs);
    IdsLaw(extras);
    forall k | 0 <= k < |ids| ensures ids[k] in m && Tells(x, s, fs, extras, k, m[ids[k]]) {
      EntryTells(x, s, fs, extras, k);
    }
    AllLooked(m, ids);
    BlocksListed(x, x.blocks);
    PoliciesListed(x, x.policy);
    sources, blocks, policy := Looked(m, ids), BlockEntries(x, x.blocks), PolicyEntries(x, x.policy);
  }

  // ---------------------------------------------------------------------------
  // The loops
  // ---------------------------------------------------------------------------

  method LookUpAll(m: map<string, Entry>, ids: seq<string>) returns (es: seq<Entry>)
    ensures es == Looked(m, ids)
  {
    es := [];
    for i := 0 to |ids|
      invariant Looked(m, ids) == es + Looked(m, ids[i..])
    {
      assert ids[i..][1..] == ids[i + 1..];
      if ids[i] in m { es := es + [m[ids[i]]]; }
    }
  }

  method RecordEntries(x: Job, s: set<nat>, fs: seq<Fragment>) returns (entries: map<string, Entry>)
    ensures entries == EntriesById(x, s, fs)
  {
    entries := map[];
    for i := 0 to |fs|
      invariant entries == SkippedEntries(fs[..i])
    {
      assert fs[..i + 1][..i] == fs[..i];
      if !fs[i].Ready? { entries := entries[IdOf(fs[i]) := Entry(IdOf(fs[i]), 0, false)]; }
    }
    assert fs[..|fs|] == fs;
    for i := 0 to |x.candidates|
      invariant entries == CandidateEntries(x, s, SkippedEntries(fs), i)
    {
      entries := entries[x.candidates[i].id := Entry(x.candidates[i].id, x.Tokens(i), i in s)];
    }
  }

  method SumIncluded(es: seq<Entry>) returns (total: nat)
    ensures total == Total(es)
  {
    total := 0;
    for i := 0 to |es|
      invariant Total(es) == total + Total(es[i..])
    {
      assert es[i..][1..] == es[i + 1..];
      if es[i].included { total := total + es[i].tokens; }
    }
  }

  method WriteTrace(x: Job, s: set<nat>, fs: seq<Fragment>, extras: seq<Candidate>, ms: seq<Message>)
      returns (entries: seq<Entry>, total: nat)
    ensures entries == TraceOf(x, s, fs, extras, ms) && total == Total(entries)
  {
    var byId := RecordEntries(x, s, fs);
    entries := LookUpAll(byId, FragmentIds(fs) + Ids(extras));
    entries := entries + BlockEntries(x, x.blocks) + HistoryEntries(x) + PolicyEntries(x, x.policy);
    entries := entries + FormattingEntries(x, s, ms);
    total := SumIncluded(entries);
  }
}
