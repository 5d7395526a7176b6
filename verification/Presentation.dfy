/**
 * The order in which admitted content is shown: style fragments change places among themselves,
 * sorted by scope, owner and declaration order; everything else stays where it is.
 */
module Presentation {
  import opened Common
  import opened Sorting

  datatype Scope = Narration | Scene | Participant

  /** How a style was attached: by whom, and the declaration orders along the way. */
  datatype StyleUse = StyleUse(owner: string, order: int, path: seq<int>)

  datatype Style = Style(scope: Scope, use: Option<StyleUse>)

  function OwnersOf(styles: seq<Style>): seq<string> {
    if styles == [] then []
    else (if styles[0].use.Some? then [styles[0].use.value.owner] else []) + OwnersOf(styles[1..])
  }

  /** The rank of an owner: owners count from their first style on; an unknown one ranks first. */
  function RankIn(owners: seq<string>, owner: string): nat {
    if owners == [] || owner !in owners then 0
    else if owners[0] == owner then 0
    else 1 + RankIn(owners[1..], owner)
  }

  function ScopeOrder(s: Style): int {
    match s.scope case Narration => 0 case Scene => 1 case Participant => 2
  }

  function Orders(s: Style): seq<int> {
    match s.use case None => [] case Some(u) => [u.order] + u.path
  }

  function OwnerName(s: Style): string {
    match s.use case None => "" case Some(u) => u.owner
  }

  /** The first place where two lists of orders differ decides; else the shorter one is first. */
  function UseOrder(a: seq<int>, b: seq<int>): int {
    if a == [] || b == [] then |a| - |b|
    else if a[0] != b[0] then a[0] - b[0]
    else UseOrder(a[1..], b[1..])
  }

  function Compare(styles: seq<Style>, l: Style, r: Style): int {
    var owners := Dedupe(OwnersOf(styles));
    if ScopeOrder(l) != ScopeOrder(r) then ScopeOrder(l) - ScopeOrder(r)
    else if RankIn(owners, OwnerName(l)) != RankIn(owners, OwnerName(r))
    then RankIn(owners, OwnerName(l)) - RankIn(owners, OwnerName(r))
    else UseOrder(Orders(l), Orders(r))
  }

  lemma {:induction false} UseOrderLaws(a: seq<int>, b: seq<int>, c: seq<int>)
    ensures UseOrder(a, b) <= 0 || UseOrder(b, a) <= 0
    ensures UseOrder(a, b) <= 0 && UseOrder(b, c) <= 0 ==> UseOrder(a, c) <= 0
    ensures UseOrder(a, b) == 0 <==> a == b
    decreases |a|
  {
    if a != [] {
      UseOrderLaws(a[1..], if b == [] then [] else b[1..], if c == [] then [] else c[1..]);
      assert a == [a[0]] + a[1..];
      assert b != [] ==> b == [b[0]] + b[1..];
    }
  }

  function StyleLe(styles: seq<Style>): (Style, Style) -> bool {
    (l: Style, r: Style) => Compare(styles, l, r) <= 0
  }

  /** The comparison of styles is fit for sorting. */
  lemma CompareIsOrder(styles: seq<Style>)
    ensures TotalPreorder(StyleLe(styles))
  {
    var le := StyleLe(styles);
    forall a, b ensures le(a, b) || le(b, a) {
      UseOrderLaws(Orders(a), Orders(b), []);
      UseOrderLaws(Orders(b), Orders(a), []);
    }
    forall a, b, c | le(a, b) && le(b, c) ensures le(a, c) {
      UseOrderLaws(Orders(a), Orders(b), Orders(c));
    }
  }

  // ---------------------------------------------------------------------------
  // What the comparison means
  // ---------------------------------------------------------------------------

  /** Narration comes before scenes, scenes before participants. */
  ghost predicate ScopeBefore(a: Scope, b: Scope) {
    (a == Narration && b != Narration) || (a == Scene && b == Participant)
  }

  ghost predicate OwnedBy(style: Style, owner: string) {
    style.use.Some? && style.use.value.owner == owner
  }

  /** The place of an owner's first style; the length of the list when there is none. */
  ghost function FirstOf(styles: seq<Style>, owner: string): (k: nat)
    ensures k <= |styles| && (forall i | 0 <= i < k :: !OwnedBy(styles[i], owner))
    ensures k < |styles| ==> OwnedBy(styles[k], owner)
  {
    if styles == [] || OwnedBy(styles[0], owner) then 0 else 1 + FirstOf(styles[1..], owner)
  }

  /** The place of the first style with a use. */
  ghost function FirstOwned(styles: seq<Style>): (k: nat)
    ensures k <= |styles| && (forall i | 0 <= i < k :: styles[i].use.None?)
    ensures k < |styles| ==> styles[k].use.Some?
  {
    if styles == [] || styles[0].use.Some? then 0 else 1 + FirstOwned(styles[1..])
  }

  /** Owners come in the order of their first styles; who owns none counts as the first owner. */
  ghost predicate OwnerBefore(styles: seq<Style>, a: string, b: string) {
    && FirstOf(styles, b) < |styles|
    && FirstOf(styles, b) > if FirstOf(styles, a) < |styles| then FirstOf(styles, a) else FirstOwned(styles)
  }

  /** The first difference decides; a list comes before the longer ones that begin with it. */
  ghost predicate PathBefore(a: seq<int>, b: seq<int>) {
    exists k :: 0 <= k <= |a| && k < |b| && a[..k] == b[..k] && (k < |a| ==> a[k] < b[k])
  }

  /** By scope, then by owner, then by the declaration orders; a style without a use has owner "" and no orders. */
  ghost predicate StyleBefore(styles: seq<Style>, l: Style, r: Style) {
    var lo, ro := if l.use.Some? then l.use.value.owner else "", if r.use.Some? then r.use.value.owner else "";
    var lp := if l.use.Some? then [l.use.value.order] + l.use.value.path else [];
    var rp := if r.use.Some? then [r.use.value.order] + r.use.value.path else [];
    || ScopeBefore(l.scope, r.scope)
    || (l.scope == r.scope && (OwnerBefore(styles, lo, ro) || (!OwnerBefore(styles, ro, lo) && PathBefore(lp, rp))))
  }

  lemma {:induction false} RankAppend(s: seq<string>, x: string, v: string)
    ensures s != [] ==> RankIn(s, v) < |s|
    ensures RankIn(s + [x], v) == if v in s then RankIn(s, v) else if v == x then |s| else 0
  {
    if s != [] {
      assert s == [s[0]] + s[1..];
      assert (s + [x])[1..] == s[1..] + [x];
      RankAppend(s[1..], x, v);
    } else {
      assert (s + [x])[1..] == [];
    }
  }

  lemma RankDedupedAppend(init: seq<string>, x: string, v: string)
    ensures v in Dedupe(init) <==> v in init
    ensures x in init ==> Dedupe(init + [x]) == Dedupe(init)
    ensures x !in init ==> Dedupe(init + [x]) == Dedupe(init) + [x]
    ensures Dedupe(init) == [] <==> init == []
    ensures init != [] ==> RankIn(Dedupe(init), v) < |Dedupe(init)|
  {
    DedupeFacts(init);
    assert (init + [x])[..|init|] == init;
    assert v in Dedupe(init) <==> v in Elems(init);
    assert x in Dedupe(init) <==> x in Elems(init);
    if init != [] { assert init[0] in Elems(Dedupe(init)); }
    RankAppend(Dedupe(init), x, v);
  }

  /** Owners come in the order of their first occurrence. */
  lemma {:induction false} RankDeduped(s: seq<string>, a: string, b: string)
    ensures RankIn(Dedupe(s), a) < RankIn(Dedupe(s), b) <==> RankIn(s, a) < RankIn(s, b)
  {
    if s != [] {
      var init, last := s[..|s| - 1], s[|s| - 1];
      assert s == init + [last];
      RankDeduped(init, a, b);
      RankDedupedAppend(init, last, a);
      RankDedupedAppend(init, last, b);
      RankAppend(init, last, a);
      RankAppend(init, last, b);
      if last !in init {
        RankAppend(Dedupe(init), last, a);
        RankAppend(Dedupe(init), last, b);
      }
    }
  }

  lemma {:induction false} OwnersFound(styles: seq<Style>, v: string)
    ensures v in OwnersOf(styles) <==> FirstOf(styles, v) < |styles|
  {
    if styles != [] { OwnersFound(styles[1..], v); }
  }

  lemma {:induction false} RankIsFirstUse(styles: seq<Style>, a: string, b: string)
    ensures RankIn(OwnersOf(styles), a) < RankIn(OwnersOf(styles), b) <==> OwnerBefore(styles, a, b)
  {
    if styles != [] {
      var rest := styles[1..];
      RankIsFirstUse(rest, a, b);
      OwnersFound(rest, a);
      OwnersFound(rest, b);
      if styles[0].use.Some? {
        var first, owners := styles[0].use.value.owner, OwnersOf(styles);
        assert owners == [first] + OwnersOf(rest);
        assert owners[0] == first && owners[1..] == OwnersOf(rest);
      } else {
        assert OwnersOf(styles) == OwnersOf(rest);
        assert FirstOf(styles, a) == 1 + FirstOf(rest, a) && FirstOf(styles, b) == 1 + FirstOf(rest, b);
        assert FirstOwned(styles) == 1 + FirstOwned(rest);
      }
    }
  }

  lemma SharedFirst(a: seq<int>, b: seq<int>, k: nat)
    requires 0 < k <= |a| && k <= |b| && a[..k] == b[..k]
    ensures a[0] == b[0]
  {
    assert a[..k][0] == a[0] && b[..k][0] == b[0];
  }

  lemma {:induction false} UseOrderExactly(a: seq<int>, b: seq<int>)
    ensures UseOrder(a, b) < 0 <==> PathBefore(a, b)
    decreases |a|
  {
    if a == [] || b == [] {
      if a == [] && b != [] { assert a[..0] == b[..0]; }
    } else if a[0] != b[0] {
      if a[0] < b[0] { assert a[..0] == b[..0]; }
      if k :| 0 < k <= |a| && k < |b| && a[..k] == b[..k] && (k < |a| ==> a[k] < b[k]) {
        SharedFirst(a, b, k);
      }
    } else {
      UseOrderExactly(a[1..], b[1..]);
      if k :| 0 <= k <= |a| && k < |b| && a[..k] == b[..k] && (k < |a| ==> a[k] < b[k]) {
        assert a[1..][..k - 1] == a[..k][1..] && b[1..][..k - 1] == b[..k][1..];
      }
      if k :| 0 <= k < |b| - 1 && k < |a| && a[1..][..k] == b[1..][..k] && (k < |a| - 1 ==> a[1..][k] < b[1..][k]) {
        assert a[..k + 1] == [a[0]] + a[1..][..k] && b[..k + 1] == [b[0]] + b[1..][..k];
      }
    }
  }

  lemma RanksExactly(styles: seq<Style>, a: string, b: string)
    ensures RankIn(Dedupe(OwnersOf(styles)), a) < RankIn(Dedupe(OwnersOf(styles)), b) <==> OwnerBefore(styles, a, b)
  {
    RankDeduped(OwnersOf(styles), a, b);
    RankIsFirstUse(styles, a, b);
  }

  /** The comparison of two styles says which comes before the other. */
  lemma CompareExactly(styles: seq<Style>, l: Style, r: Style)
    ensures Compare(styles, l, r) < 0 <==> StyleBefore(styles, l, r)
    ensures Compare(styles, l, r) > 0 <==> StyleBefore(styles, r, l)
  {
    RanksExactly(styles, OwnerName(l), OwnerName(r));
    RanksExactly(styles, OwnerName(r), OwnerName(l));
    UseOrderExactly(Orders(l), Orders(r));
    UseOrderExactly(Orders(r), Orders(l));
    UseOrderTurned(Orders(l), Orders(r));
  }

  lemma {:induction false} UseOrderTurned(a: seq<int>, b: seq<int>)
    ensures UseOrder(a, b) == -UseOrder(b, a)
    decreases |a|
  {
    if a != [] && b != [] { UseOrderTurned(a[1..], b[1..]); }
  }

  // ---------------------------------------------------------------------------
  // Filling the slots
  // ---------------------------------------------------------------------------

  /** The members of `s` that satisfy `p` are replaced, in turn, by those of `fill`. */
  function Fill<T>(p: T -> bool, s: seq<T>, fill: seq<T>): seq<T>
    requires |fill| == |Filter(p, s)|
    decreases |s|
  {
    if s == [] then []
    else if p(s[0]) then [fill[0]] + Fill(p, s[1..], fill[1..])
    else [s[0]] + Fill(p, s[1..], fill)
  }

  /** `r` differs from `s` only in what stands in the slots, where members satisfying `p` stand. */
  ghost predicate SameSlots<T>(p: T -> bool, s: seq<T>, r: seq<T>) {
    |r| == |s| && forall i | 0 <= i < |s| :: if p(s[i]) then p(r[i]) else r[i] == s[i]
  }

  lemma {:induction false} FillSlots<T>(p: T -> bool, s: seq<T>, fill: seq<T>)
    requires |fill| == |Filter(p, s)| && forall i | 0 <= i < |fill| :: p(fill[i])
    ensures SameSlots(p, s, Fill(p, s, fill)) && Filter(p, Fill(p, s, fill)) == fill
    decreases |s|
  {
    if s != [] {
      var more := if p(s[0]) then fill[1..] else fill;
      FillSlots(p, s[1..], more);
      var r := Fill(p, s, fill);
      assert r[1..] == Fill(p, s[1..], more);
      assert forall i | 0 < i < |s| :: s[i] == s[1..][i - 1] && r[i] == r[1..][i - 1];
    }
  }

  lemma {:induction false} SlotsFill<T>(p: T -> bool, s: seq<T>, r: seq<T>)
    requires SameSlots(p, s, r)
    ensures |Filter(p, r)| == |Filter(p, s)| && r == Fill(p, s, Filter(p, r))
    decreases |s|
  {
    if s != [] {
      assert forall i | 0 <= i < |s| - 1 :: s[1..][i] == s[i + 1] && r[1..][i] == r[i + 1];
      SlotsFill(p, s[1..], r[1..]);
      assert r == [r[0]] + r[1..];
      assert if p(s[0]) then p(r[0]) else r[0] == s[0];
    }
  }

  lemma {:induction false} FillMembers<T>(p: T -> bool, s: seq<T>, fill: seq<T>)
    requires |fill| == |Filter(p, s)| && multiset(fill) == multiset(Filter(p, s))
    ensures multiset(Fill(p, s, fill)) == multiset(s)
  {
    FillSplits(p, s, fill);
    FillSplits(p, s, Filter(p, s));
    SlotsFill(p, s, s);
  }

  /** What a filling holds: the filling, and what is in no slot. */
  lemma {:induction false} FillSplits<T>(p: T -> bool, s: seq<T>, fill: seq<T>)
    requires |fill| == |Filter(p, s)|
    ensures multiset(Fill(p, s, fill)) == multiset(fill) + multiset(Filter(Not(p), s))
    decreases |s|
  {
    if s != [] {
      if p(s[0]) {
        FillSplits(p, s[1..], fill[1..]);
        assert fill == [fill[0]] + fill[1..];
      } else {
        FillSplits(p, s[1..], fill);
      }
    }
  }

  function Not<T>(p: T -> bool): T -> bool { (x: T) => !p(x) }

  // ---------------------------------------------------------------------------
  // The order of presentation
  // ---------------------------------------------------------------------------

  /** What is shown: its place among the candidates and, for a style fragment, its style. */
  datatype Shown = Shown(index: nat, style: Option<Style>)

  function IsStyle(c: Shown): bool { c.style.Some? }

  /** Styles by the comparison; what is no style never takes part. */
  function ShownLe(styles: seq<Style>): (Shown, Shown) -> bool {
    (l: Shown, r: Shown) =>
      if l.style.Some? && r.style.Some? then StyleLe(styles)(l.style.value, r.style.value)
      else l.style.None? || r.style.Some?
  }

  lemma ShownIsOrder(styles: seq<Style>)
    ensures TotalPreorder(ShownLe(styles))
  {
    CompareIsOrder(styles);
    var le, below := ShownLe(styles), StyleLe(styles);
    forall a, b ensures le(a, b) || le(b, a) {
      if a.style.Some? && b.style.Some? {
        assert below(a.style.value, b.style.value) || below(b.style.value, a.style.value);
      }
    }
    forall a, b, c | le(a, b) && le(b, c) ensures le(a, c) {
      if a.style.Some? && b.style.Some? && c.style.Some? {
        assert below(a.style.value, b.style.value) && below(b.style.value, c.style.value);
      }
    }
  }

  lemma SortedStyles(cs: seq<Shown>, styles: seq<Style>)
    ensures var sorted := StableSort(ShownLe(styles), Filter(IsStyle, cs));
            && multiset(sorted) == multiset(Filter(IsStyle, cs)) && |sorted| == |Filter(IsStyle, cs)|
            && (forall i | 0 <= i < |sorted| :: IsStyle(sorted[i]))
  {
    var styled := Filter(IsStyle, cs);
    var sorted := StableSort(ShownLe(styles), styled);
    SortMembers(ShownLe(styles), styled);
    assert |multiset(sorted)| == |sorted| && |multiset(styled)| == |styled|;
    FilterMembers(IsStyle, cs);
    forall i | 0 <= i < |sorted| ensures IsStyle(sorted[i]) {
      assert sorted[i] in multiset(styled);
      assert sorted[i] in styled;
    }
  }

  function Present(cs: seq<Shown>, styles: seq<Style>): seq<Shown> {
    SortedStyles(cs, styles);
    Fill(IsStyle, cs, StableSort(ShownLe(styles), Filter(IsStyle, cs)))
  }

  /**
   * The presentation is the one arrangement that leaves everything but styles in place and has
   * the styles sorted with ties in their old order; it shows exactly what there was to show.
   */
  lemma PresentExactly(cs: seq<Shown>, styles: seq<Style>, r: seq<Shown>)
    ensures r == Present(cs, styles)
            <==> && SameSlots(IsStyle, cs, r) && Sorted(ShownLe(styles), Filter(IsStyle, r))
                 && SameTies(ShownLe(styles), Filter(IsStyle, r), Filter(IsStyle, cs))
    ensures multiset(Present(cs, styles)) == multiset(cs)
  {
    var le, styled := ShownLe(styles), Filter(IsStyle, cs);
    ShownIsOrder(styles);
    SortedStyles(cs, styles);
    FillSlots(IsStyle, cs, StableSort(le, styled));
    FillMembers(IsStyle, cs, StableSort(le, styled));
    SortExactly(le, styled, Filter(IsStyle, r));
    if SameSlots(IsStyle, cs, r) { SlotsFill(IsStyle, cs, r); }
  }

  /** The loop that hands out `fill` to the slots. */
  method FillByLoop<T>(p: T -> bool, s: seq<T>, fill: seq<T>) returns (r: seq<T>)
    requires |fill| == |Filter(p, s)|
    ensures r == Fill(p, s, fill)
  {
    r := [];
    var next := 0;
    for i := 0 to |s|
      invariant next <= |fill| && |fill[next..]| == |Filter(p, s[i..])|
      invariant Fill(p, s, fill) == r + Fill(p, s[i..], fill[next..])
    {
      assert s[i..][1..] == s[i + 1..];
      if p(s[i]) {
        assert fill[next..][1..] == fill[next + 1..];
        r := r + [fill[next]];
        next := next + 1;
      } else {
        r := r + [s[i]];
      }
    }
  }

  method PresentByLoop(cs: seq<Shown>, styles: seq<Style>) returns (presentation: seq<Shown>)
    ensures presentation == Present(cs, styles)
  {
    SortedStyles(cs, styles);
    var sorted := StableSort(ShownLe(styles), Filter(IsStyle, cs));
    presentation := FillByLoop(IsStyle, cs, sorted);
  }
}
