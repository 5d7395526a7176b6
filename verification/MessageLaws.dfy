/** What the finished messages say, told by the places of blocks, candidates, lines and policy blocks. */
module MessageLaws {
  import opened Common
  import opened Messages
  import opened Sorting
  import opened Presentation
  import opened Assembly
  import opened AssemblyLaws

  // ---------------------------------------------------------------------------
  // A region's message
  // ---------------------------------------------------------------------------

  ghost function BlockIn(region: string): Block -> bool {
    (b: Block) => b.region == region
  }

  ghost function ShownIn(x: Job, chosen: set<nat>, region: string): nat -> bool {
    (i: nat) => i in chosen && i < |x.candidates| && x.candidates[i].region == region
  }

  ghost function SaidIn(x: Job, chosen: set<nat>, region: string): nat -> bool {
    (i: nat) => i in chosen && i < |x.candidates| && x.candidates[i].region == region && x.candidates[i].text != ""
  }

  /** Where the content of a region comes from: session blocks, candidates shown, and those with a text. */
  datatype Content = Content(blocks: seq<nat>, shown: seq<nat>, said: seq<nat>)

  ghost predicate ContentOf(x: Job, shown: seq<nat>, chosen: set<nat>, region: string, c: Content) {
    && Places(BlockIn(region), x.blocks, c.blocks)
    && Places(ShownIn(x, chosen, region), shown, c.shown)
    && Places(SaidIn(x, chosen, region), shown, c.said)
  }

  /** The texts of the blocks, the header of examples when there are any, the texts of the candidates. */
  ghost predicate PartsOf(x: Job, shown: seq<nat>, chosen: set<nat>, region: string, c: Content, parts: seq<string>)
    requires ContentOf(x, shown, chosen, region, c)
  {
    var due := if region == "system:examples" && c.shown != [] then 1 else 0;
    && |parts| == |c.blocks| + due + |c.said|
    && (forall k | 0 <= k < |c.blocks| :: parts[k] == x.blocks[c.blocks[k]].text)
    && (due == 1 ==> parts[|c.blocks|] == x.examplesHeader)
    && (forall k | 0 <= k < |c.said| ::
          parts[|c.blocks| + due + k] == x.candidates[shown[c.said[k]]].text)
  }

  ghost predicate SourcesOf(x: Job, shown: seq<nat>, chosen: set<nat>, region: string, c: Content, source: seq<string>)
    requires ContentOf(x, shown, chosen, region, c)
  {
    && |source| == |c.blocks| + |c.shown|
    && (forall k | 0 <= k < |c.blocks| :: source[k] == x.blocks[c.blocks[k]].id)
    && (forall k | 0 <= k < |c.shown| :: source[|c.blocks| + k] == x.candidates[shown[c.shown[k]]].id)
  }

  ghost predicate PicturesOf(
    x: Job, shown: seq<nat>, chosen: set<nat>, region: string, c: Content, pictures: seq<seq<string>>)
    requires ContentOf(x, shown, chosen, region, c)
  {
    && |pictures| == |c.shown|
    && forall k | 0 <= k < |c.shown| :: pictures[k] == x.candidates[shown[c.shown[k]]].attachments
  }

  /** The blocks at the places `ks`. */
  ghost predicate BlocksAt(x: Job, ks: seq<nat>, texts: seq<string>, ids: seq<string>) {
    && |texts| == |ids| == |ks|
    && forall k | 0 <= k < |ks| ::
         ks[k] < |x.blocks| && texts[k] == x.blocks[ks[k]].text && ids[k] == x.blocks[ks[k]].id
  }

  lemma BlockBefore(x: Job, from: nat, ks: seq<nat>, texts: seq<string>, ids: seq<string>)
    requires from < |x.blocks| && BlocksAt(x, ks, texts, ids)
    ensures BlocksAt(x, [from] + ks, [x.blocks[from].text] + texts, [x.blocks[from].id] + ids)
  {
  }

  lemma BlocksFirst(bs: seq<Block>, region: string, from: nat)
    requires from < |bs|
    ensures var texts, ids := BlockTexts(bs[from + 1..], region), BlockIds(bs[from + 1..], region);
            && BlockTexts(bs[from..], region) == (if bs[from].region == region then [bs[from].text] + texts else texts)
            && BlockIds(bs[from..], region) == if bs[from].region == region then [bs[from].id] + ids else ids
  {
    assert bs[from..][1..] == bs[from + 1..];
  }

  lemma {:induction false} BlocksByPlace(x: Job, region: string, from: nat)
    requires from <= |x.blocks|
    ensures BlocksAt(x, PlacesFrom(BlockIn(region), x.blocks, from),
                     BlockTexts(x.blocks[from..], region), BlockIds(x.blocks[from..], region))
    decreases |x.blocks| - from
  {
    if from < |x.blocks| {
      BlocksByPlace(x, region, from + 1);
      BlocksFirst(x.blocks, region, from);
      BlockBefore(x, from, PlacesFrom(BlockIn(region), x.blocks, from + 1),
                  BlockTexts(x.blocks[from + 1..], region), BlockIds(x.blocks[from + 1..], region));
    }
  }

  /** The candidates at the places `ks` of what is shown. */
  ghost predicate AtPlaces(x: Job, shown: seq<nat>, ks: seq<nat>, cs: seq<Candidate>) {
    && |cs| == |ks|
    && forall k | 0 <= k < |ks| ::
         ks[k] < |shown| && shown[ks[k]] < |x.candidates| && cs[k] == x.candidates[shown[ks[k]]]
  }

  lemma InRegionFirst(x: Job, chosen: set<nat>, region: string, shown: seq<nat>, from: nat)
    requires from < |shown|
    ensures var rest := InRegion(x, shown[from + 1..], chosen, region);
            InRegion(x, shown[from..], chosen, region)
            == if ShownIn(x, chosen, region)(shown[from]) then [x.candidates[shown[from]]] + rest else rest
  {
    assert shown[from..][1..] == shown[from + 1..];
  }

  lemma {:induction false} ShownByPlace(x: Job, chosen: set<nat>, region: string, shown: seq<nat>, from: nat)
    requires from <= |shown|
    ensures AtPlaces(x, shown, PlacesFrom(ShownIn(x, chosen, region), shown, from),
                     InRegion(x, shown[from..], chosen, region))
    decreases |shown| - from
  {
    if from < |shown| {
      ShownByPlace(x, chosen, region, shown, from + 1);
      InRegionFirst(x, chosen, region, shown, from);
      if ShownIn(x, chosen, region)(shown[from]) {
        PlaceBefore(x, shown, from, PlacesFrom(ShownIn(x, chosen, region), shown, from + 1),
                    InRegion(x, shown[from + 1..], chosen, region));
      }
    }
  }

  lemma PlaceBefore(x: Job, shown: seq<nat>, from: nat, ks: seq<nat>, cs: seq<Candidate>)
    requires from < |shown| && shown[from] < |x.candidates| && AtPlaces(x, shown, ks, cs)
    ensures AtPlaces(x, shown, [from] + ks, [x.candidates[shown[from]]] + cs)
  {
  }

  /** Those of the candidates that have a text. */
  ghost function Speaking(): Candidate -> bool {
    (c: Candidate) => c.text != ""
  }

  lemma {:induction false} TextsByFilter(cs: seq<Candidate>)
    ensures var spoken := Filter(Speaking(), cs);
            |Texts(cs)| == |spoken| && forall k | 0 <= k < |spoken| :: Texts(cs)[k] == spoken[k].text
  {
    if cs != [] { TextsByFilter(cs[1..]); }
  }

  lemma SpeakingFirst(c: Candidate, rest: seq<Candidate>)
    ensures Filter(Speaking(), [c] + rest)
            == if c.text != "" then [c] + Filter(Speaking(), rest) else Filter(Speaking(), rest)
  {
    assert ([c] + rest)[1..] == rest;
  }

  lemma {:induction false} SaidByPlace(x: Job, chosen: set<nat>, region: string, shown: seq<nat>, from: nat)
    requires from <= |shown|
    ensures AtPlaces(x, shown, PlacesFrom(SaidIn(x, chosen, region), shown, from),
                     Filter(Speaking(), InRegion(x, shown[from..], chosen, region)))
    decreases |shown| - from
  {
    if from < |shown| {
      SaidByPlace(x, chosen, region, shown, from + 1);
      InRegionFirst(x, chosen, region, shown, from);
      var rest := InRegion(x, shown[from + 1..], chosen, region);
      if ShownIn(x, chosen, region)(shown[from]) {
        SpeakingFirst(x.candidates[shown[from]], rest);
        if x.candidates[shown[from]].text != "" {
          PlaceBefore(x, shown, from, PlacesFrom(SaidIn(x, chosen, region), shown, from + 1), Filter(Speaking(), rest));
        }
      }
    }
  }

  lemma {:induction false} IdsByPlace(cs: seq<Candidate>)
    ensures |Ids(cs)| == |cs| && forall k | 0 <= k < |cs| :: Ids(cs)[k] == cs[k].id
  {
    if cs != [] { IdsByPlace(cs[1..]); }
  }

  ghost function PictureLists(cs: seq<Candidate>): (r: seq<seq<string>>)
    ensures |r| == |cs| && forall k | 0 <= k < |cs| :: r[k] == cs[k].attachments
  {
    seq(|cs|, k requires 0 <= k < |cs| => cs[k].attachments)
  }

  lemma {:induction false} PicturesByPlace(cs: seq<Candidate>)
    ensures Pictures(cs) == Flat(PictureLists(cs))
  {
    if cs != [] {
      PicturesByPlace(cs[1..]);
      assert PictureLists(cs)[1..] == PictureLists(cs[1..]);
    }
  }

  /**
   * A region has a message exactly when it has a block or a chosen candidate. The message is the
   * system's; its parts are the texts of the region's blocks in order, the header of examples when
   * due, and the texts of its chosen candidates in the order they are shown; its sources and
   * attachments are those of the same blocks and candidates.
   */
  lemma RegionSays(x: Job, chosen: set<nat>, region: string)
    returns (c: Content, parts: seq<string>, source: seq<string>, pictures: seq<seq<string>>)
    ensures ContentOf(x, ShownOrder(x), chosen, region, c)
    ensures PartsOf(x, ShownOrder(x), chosen, region, c, parts)
    ensures SourcesOf(x, ShownOrder(x), chosen, region, c, source)
    ensures PicturesOf(x, ShownOrder(x), chosen, region, c, pictures)
    ensures RegionMessage(x, chosen, region)
            == if c.blocks == [] && c.shown == [] then []
               else [Message(System, Join(parts), source, Flat(pictures))]
  {
    var inside := InRegion(x, ShownOrder(x), chosen, region);
    c, parts, source := RegionContent(x, ShownOrder(x), chosen, region);
    PicturesByPlace(inside);
    pictures := PictureLists(inside);
  }

  /** The same for any order in which candidates may be shown. */
  lemma RegionContent(x: Job, shown: seq<nat>, chosen: set<nat>, region: string)
    returns (c: Content, parts: seq<string>, source: seq<string>)
    ensures ContentOf(x, shown, chosen, region, c) && PartsOf(x, shown, chosen, region, c, parts)
    ensures SourcesOf(x, shown, chosen, region, c, source)
    ensures AtPlaces(x, shown, c.shown, InRegion(x, shown, chosen, region))
    ensures var inside := InRegion(x, shown, chosen, region);
            var header := if region == EXAMPLES && inside != [] then [x.examplesHeader] else [];
            && parts == BlockTexts(x.blocks, region) + header + Texts(inside)
            && source == BlockIds(x.blocks, region) + Ids(inside)
  {
    var bs := PlacesOf(BlockIn(region), x.blocks);
    var cs := PlacesOf(ShownIn(x, chosen, region), shown);
    var ts := PlacesOf(SaidIn(x, chosen, region), shown);
    c := Content(bs, cs, ts);
    assert x.blocks[0..] == x.blocks && shown[0..] == shown;
    BlocksByPlace(x, region, 0);
    ShownByPlace(x, chosen, region, shown, 0);
    SaidByPlace(x, chosen, region, shown, 0);
    var inside := InRegion(x, shown, chosen, region);
    IdsByPlace(inside);
    TextsByFilter(inside);
    var header := if region == EXAMPLES && inside != [] then [x.examplesHeader] else [];
    source := BlockIds(x.blocks, region) + Ids(inside);
    parts := BlockTexts(x.blocks, region) + header + Texts(inside);
    PartsThere(x, shown, chosen, region, c, BlockTexts(x.blocks, region), header, Texts(inside));
  }

  lemma PartsThere(
    x: Job, shown: seq<nat>, chosen: set<nat>, region: string, c: Content,
    blocks: seq<string>, header: seq<string>, said: seq<string>)
    requires ContentOf(x, shown, chosen, region, c)
    requires |blocks| == |c.blocks| && forall k | 0 <= k < |blocks| :: blocks[k] == x.blocks[c.blocks[k]].text
    requires header == if region == "system:examples" && c.shown != [] then [x.examplesHeader] else []
    requires |said| == |c.said|
    requires forall k | 0 <= k < |said| :: said[k] == x.candidates[shown[c.said[k]]].text
    ensures PartsOf(x, shown, chosen, region, c, blocks + header + said)
  {
  }

  // ---------------------------------------------------------------------------
  // The order in which candidates are shown
  // ---------------------------------------------------------------------------

  /** Members that satisfy `p` keep their order in the filtered list. */
  lemma FilterPlaces<T>(p: T -> bool, s: seq<T>, a: nat, b: nat) returns (k: nat, m: nat)
    requires a < b < |s| && p(s[a]) && p(s[b])
    ensures k < m < |Filter(p, s)| && Filter(p, s)[k] == s[a] && Filter(p, s)[m] == s[b]
  {
    assert s == s[..a] + [s[a]] + s[a + 1..b] + [s[b]] + s[b + 1..];
    FilterConcat(p, s[..a] + [s[a]] + s[a + 1..b] + [s[b]], s[b + 1..]);
    FilterConcat(p, s[..a] + [s[a]] + s[a + 1..b], [s[b]]);
    FilterConcat(p, s[..a] + [s[a]], s[a + 1..b]);
    FilterConcat(p, s[..a], [s[a]]);
    k, m := |Filter(p, s[..a])|, |Filter(p, s[..a])| + 1 + |Filter(p, s[a + 1..b])|;
  }

  ghost predicate Rising(s: seq<Shown>) {
    forall a, b | 0 <= a < b < |s| :: s[a].index < s[b].index
  }

  lemma {:induction false} FilterRises(p: Shown -> bool, s: seq<Shown>)
    requires Rising(s)
    ensures Rising(Filter(p, s))
    decreases |s|
  {
    if s != [] {
      var rest := Filter(p, s[1..]);
      FilterRises(p, s[1..]);
      FilterMembers(p, s[1..]);
      if p(s[0]) {
        forall k | 0 <= k < |rest| ensures s[0].index < rest[k].index {
          var j :| 0 <= j < |s| - 1 && s[1..][j] == rest[k];
          assert s[j + 1] == rest[k];
        }
        RisingCons(s[0], rest);
      }
    }
  }

  lemma RisingCons(first: Shown, rest: seq<Shown>)
    requires Rising(rest) && forall k | 0 <= k < |rest| :: first.index < rest[k].index
    ensures Rising([first] + rest)
  {
  }

  ghost predicate Styled(x: Job, i: nat) {
    i < |x.candidates| && x.candidates[i].style.Some?
  }

  lemma TiedInOrder(le: (Shown, Shown) -> bool, was: seq<Shown>, now: seq<Shown>, k: nat, m: nat)
    requires TotalPreorder(le) && SameTies(le, now, was) && Rising(was)
    requires k < m < |now| && le(now[k], now[m]) && le(now[m], now[k])
    ensures now[k].index < now[m].index
  {
    var tie := Ties(le, now[k]);
    assert le(now[k], now[k]);
    var v, w := FilterPlaces(tie, now, k, m);
    FilterRises(tie, was);
    assert Filter(tie, now) == Filter(tie, was);
  }

  lemma StyleBeforeExactly(styles: seq<Style>, l: Shown, r: Shown)
    requires l.style.Some? && r.style.Some?
    ensures ShownLe(styles)(l, r) <==> !StyleBefore(styles, r.style.value, l.style.value)
  {
    CompareExactly(styles, l.style.value, r.style.value);
    assert StyleLe(styles)(l.style.value, r.style.value) <==> Compare(styles, l.style.value, r.style.value) <= 0;
  }

  /** Two styles stand as the comparison says; those it does not tell apart stand in their old order. */
  lemma StylesInOrder(le: (Shown, Shown) -> bool, was: seq<Shown>, r: seq<Shown>, a: nat, b: nat)
    requires TotalPreorder(le) && Rising(was) && Sorted(le, Filter(IsStyle, r)) && SameTies(le, Filter(IsStyle, r), was)
    requires a < b < |r| && r[a].style.Some? && r[b].style.Some?
    ensures le(r[a], r[b]) && (!le(r[b], r[a]) || r[a].index < r[b].index)
  {
    var kept := Filter(IsStyle, r);
    var k, m := FilterPlaces(IsStyle, r, a, b);
    assert le(kept[k], kept[m]);
    if le(kept[m], kept[k]) { TiedInOrder(le, was, kept, k, m); }
  }

  /**
   * Every candidate is shown once. What is no style stands at its own place; styles stand at the
   * places of styles, in the order of scope, owner and declaration, and otherwise as they came.
   */
  lemma ShownExactly(x: Job)
    ensures var r := ShownOrder(x);
            && |r| == |x.candidates| && (forall i | 0 <= i < |r| :: r[i] < |x.candidates|)
            && (forall i | 0 <= i < |x.candidates| :: i in r)
            && (forall k | 0 <= k < |r| :: if Styled(x, k) then Styled(x, r[k]) else r[k] == k)
            && (forall a, b | 0 <= a < b < |r| && Styled(x, a) && Styled(x, b) :: InStyleOrder(x, r[a], r[b]))
  {
    var r := ShownOrder(x);
    forall i | 0 <= i < |x.candidates| ensures i in r { EveryCandidateIsPlaced(x, i); }
    ShownPlaces(x);
    forall a, b | 0 <= a < b < |r| && Styled(x, a) && Styled(x, b) ensures InStyleOrder(x, r[a], r[b]) {
      PairInOrder(x, a, b);
    }
  }

  lemma ShownPlaces(x: Job)
    ensures var cs, shown, r := ShownOf(x.candidates, 0), Present(ShownOf(x.candidates, 0), x.styles), ShownOrder(x);
            && r == IndexOfShown(shown) && |r| == |cs|
            && (forall k | 0 <= k < |r| :: r[k] < |cs| && shown[k] == cs[r[k]])
            && (forall k | 0 <= k < |r| :: if Styled(x, k) then Styled(x, r[k]) else r[k] == k)
  {
    var cs := ShownOf(x.candidates, 0);
    var shown := Present(cs, x.styles);
    PresentExactly(cs, x.styles, shown);
    ShownAt(x, cs, shown, ShownOrder(x));
  }

  lemma PairInOrder(x: Job, a: nat, b: nat)
    requires a < b < |ShownOrder(x)| && Styled(x, a) && Styled(x, b)
    ensures ShownOrder(x)[b] < |x.candidates| && InStyleOrder(x, ShownOrder(x)[a], ShownOrder(x)[b])
  {
    var cs := ShownOf(x.candidates, 0);
    var shown := Present(cs, x.styles);
    ShownPlaces(x);
    PresentExactly(cs, x.styles, shown);
    StylesStand(x, cs, shown, a, b);
  }

  lemma StylesStand(x: Job, cs: seq<Shown>, shown: seq<Shown>, a: nat, b: nat)
    requires cs == ShownOf(x.candidates, 0) && Sorted(ShownLe(x.styles), Filter(IsStyle, shown))
    requires SameTies(ShownLe(x.styles), Filter(IsStyle, shown), Filter(IsStyle, cs))
    requires a < b < |shown| && shown[a].index < |cs| && shown[b].index < |cs|
    requires shown[a] == cs[shown[a].index] && shown[b] == cs[shown[b].index]
    requires shown[a].style.Some? && shown[b].style.Some?
    ensures InStyleOrder(x, shown[a].index, shown[b].index)
  {
    ShownIsOrder(x.styles);
    FilterRises(IsStyle, cs);
    StylesInOrder(ShownLe(x.styles), Filter(IsStyle, cs), shown, a, b);
    StyleBeforeExactly(x.styles, shown[a], shown[b]);
    StyleBeforeExactly(x.styles, shown[b], shown[a]);
  }

  /** The style of `i` does not come after that of `j`; if neither comes first, `i` is the earlier one. */
  ghost predicate InStyleOrder(x: Job, i: nat, j: nat) {
    && Styled(x, i) && Styled(x, j)
    && !StyleBefore(x.styles, x.candidates[j].style.value, x.candidates[i].style.value)
    && (StyleBefore(x.styles, x.candidates[i].style.value, x.candidates[j].style.value) || i < j)
  }

  lemma ShownAt(x: Job, cs: seq<Shown>, shown: seq<Shown>, r: seq<nat>)
    requires cs == ShownOf(x.candidates, 0) && r == IndexOfShown(shown)
    requires multiset(shown) == multiset(cs) && SameSlots(IsStyle, cs, shown)
    ensures |r| == |cs| && forall k | 0 <= k < |r| :: r[k] < |cs| && shown[k] == cs[r[k]]
    ensures forall k | 0 <= k < |r| :: if Styled(x, k) then Styled(x, r[k]) else r[k] == k
  {
    forall k | 0 <= k < |r| ensures r[k] < |cs| && shown[k] == cs[r[k]] {
      assert shown[k] in multiset(cs);
      assert shown[k] in cs;
    }
    forall k | 0 <= k < |r| ensures if Styled(x, k) then Styled(x, r[k]) else r[k] == k {
      assert if IsStyle(cs[k]) then IsStyle(shown[k]) else shown[k] == cs[k];
    }
  }

  // ---------------------------------------------------------------------------
  // The messages in their places
  // ---------------------------------------------------------------------------

  ghost function PolicyAt(position: Position): PolicyBlock -> bool {
    (b: PolicyBlock) => b.enabled && b.position == position
  }

  /** The enabled policy blocks of a position, each a message of its own. */
  ghost predicate PolicySegment(x: Job, position: Position, ks: seq<nat>, seg: seq<Message>) {
    && Places(PolicyAt(position), x.policy, ks) && |seg| == |ks|
    && forall k | 0 <= k < |ks| ::
         seg[k] == Message(System, x.policy[ks[k]].text, [x.policy[ks[k]].source], [])
  }

  /** Every line of the history, in full. */
  ghost predicate HistorySegment(x: Job, seg: seq<Message>) {
    && |seg| == |x.history|
    && forall k | 0 <= k < |seg| :: seg[k] == Message(x.history[k].role, x.history[k].content, ["history"], [])
  }

  lemma {:induction false} PolicyByPlace(x: Job, position: Position, from: nat)
    requires from <= |x.policy|
    ensures var ks, seg := PlacesFrom(PolicyAt(position), x.policy, from),
                PolicyMessages(x.policy[from..], position);
            && |seg| == |ks|
            && forall k | 0 <= k < |ks| ::
                 ks[k] < |x.policy|
                 && seg[k] == Message(System, x.policy[ks[k]].text, [x.policy[ks[k]].source], [])
    decreases |x.policy| - from
  {
    if from < |x.policy| {
      PolicyByPlace(x, position, from + 1);
      assert x.policy[from..][1..] == x.policy[from + 1..];
    }
  }

  lemma {:induction false} HistoryInFull(h: seq<Line>)
    ensures var seg := HistoryMessages(h);
            |seg| == |h| && forall k | 0 <= k < |h| :: seg[k] == Message(h[k].role, h[k].content, ["history"], [])
  {
    if h != [] { HistoryInFull(h[1..]); }
  }

  ghost function Segment(x: Job, chosen: set<nat>, place: string): seq<Message> {
    if place == "history" then HistoryMessages(x.history) else RegionMessage(x, chosen, place)
  }

  ghost function Segments(x: Job, chosen: set<nat>, layout: seq<string>): (segs: seq<seq<Message>>)
    ensures |segs| == |layout| && forall k | 0 <= k < |layout| :: segs[k] == Segment(x, chosen, layout[k])
  {
    seq(|layout|, k requires 0 <= k < |layout| => Segment(x, chosen, layout[k]))
  }

  lemma {:induction false} LaidOutIsFlat(x: Job, chosen: set<nat>, layout: seq<string>)
    ensures LaidOut(x, chosen, layout) == Flat(Segments(x, chosen, layout))
  {
    if layout != [] {
      LaidOutIsFlat(x, chosen, layout[1..]);
      assert Segments(x, chosen, layout)[1..] == Segments(x, chosen, layout[1..]);
    }
  }

  /**
   * Before merging, the messages are: the enabled policy blocks of the main position, then for each
   * place of the layout either the whole history or the region's message, then the enabled policy
   * blocks that come after the history.
   */
  lemma LayoutExactly(x: Job, chosen: set<nat>)
    returns (main: seq<nat>, before: seq<Message>, segs: seq<seq<Message>>, later: seq<nat>, after: seq<Message>)
    ensures AllMessages(x, chosen) == before + Flat(segs) + after
    ensures PolicySegment(x, Main, main, before) && PolicySegment(x, AfterHistory, later, after)
    ensures |segs| == |x.layout|
    ensures forall k | 0 <= k < |segs| && x.layout[k] == "history" :: HistorySegment(x, segs[k])
    ensures forall k | 0 <= k < |segs| && x.layout[k] != "history" :: segs[k] == RegionMessage(x, chosen, x.layout[k])
  {
    assert x.policy[0..] == x.policy;
    main := PlacesOf(PolicyAt(Main), x.policy);
    later := PlacesOf(PolicyAt(AfterHistory), x.policy);
    PolicyByPlace(x, Main, 0);
    PolicyByPlace(x, AfterHistory, 0);
    HistoryInFull(x.history);
    LaidOutIsFlat(x, chosen, x.layout);
    before, segs, after := PolicyMessages(x.policy, Main), Segments(x, chosen, x.layout),
      PolicyMessages(x.policy, AfterHistory);
  }

  // ---------------------------------------------------------------------------
  // Merging
  // ---------------------------------------------------------------------------

  ghost function ContentList(ms: seq<Message>): (r: seq<string>)
    ensures |r| == |ms| && forall k | 0 <= k < |ms| :: r[k] == ms[k].content
  {
    seq(|ms|, k requires 0 <= k < |ms| => ms[k].content)
  }

  ghost function SourceLists(ms: seq<Message>): (r: seq<seq<string>>)
    ensures |r| == |ms| && forall k | 0 <= k < |ms| :: r[k] == ms[k].source
  {
    seq(|ms|, k requires 0 <= k < |ms| => ms[k].source)
  }

  ghost function AttachmentLists(ms: seq<Message>): (r: seq<seq<string>>)
    ensures |r| == |ms| && forall k | 0 <= k < |ms| :: r[k] == ms[k].attachments
  {
    seq(|ms|, k requires 0 <= k < |ms| => ms[k].attachments)
  }

  /** What becomes of a run of messages: one stays as it is, several system messages become one. */
  ghost predicate BecomesOne(run: seq<Message>, m: Message) {
    if |run| == 1 then m == run[0]
    else
      && |run| > 1 && (forall i | 0 <= i < |run| :: run[i].role.System?)
      && m.role.System?
      && m.content == Join(ContentList(run)) && m.source == Flat(SourceLists(run))
      && m.attachments == Flat(AttachmentLists(run))
  }

  /** `r` is `ms` with runs of system messages made one. */
  ghost predicate MergedBy(runs: seq<seq<Message>>, ms: seq<Message>, r: seq<Message>) {
    Flat(runs) == ms && |runs| == |r| && forall k | 0 <= k < |r| :: BecomesOne(runs[k], r[k])
  }

  lemma {:induction false} ContentsListed(run: seq<Message>)
    ensures Contents(run) == ContentList(run)
  {
    if run != [] {
      ContentsListed(run[1..]);
      assert ContentList(run) == [run[0].content] + ContentList(run[1..]);
    }
  }

  lemma {:induction false} SourcesListed(run: seq<Message>)
    ensures Sources(run) == Flat(SourceLists(run))
  {
    if run != [] {
      SourcesListed(run[1..]);
      assert SourceLists(run)[1..] == SourceLists(run[1..]);
    }
  }

  lemma {:induction false} AttachmentsListed(run: seq<Message>)
    ensures Attachments(run) == Flat(AttachmentLists(run))
  {
    if run != [] {
      AttachmentsListed(run[1..]);
      assert AttachmentLists(run)[1..] == AttachmentLists(run[1..]);
    }
  }

  lemma RunMerged(run: seq<Message>)
    requires AllSystem(run)
    ensures MergedBy(if run == [] then [] else [run], run, MergeRun(run))
  {
    if run != [] {
      ContentsListed(run);
      SourcesListed(run);
      AttachmentsListed(run);
      assert Flat([run]) == run + Flat([]);
    }
  }

  lemma MergedConcat(
    runs: seq<seq<Message>>, ms: seq<Message>, r: seq<Message>,
    runs': seq<seq<Message>>, ms': seq<Message>, r': seq<Message>)
    requires MergedBy(runs, ms, r) && MergedBy(runs', ms', r')
    ensures MergedBy(runs + runs', ms + ms', r + r')
  {
    FlatConcat(runs, runs');
  }

  lemma {:induction false} MergeFromByRuns(run: seq<Message>, ms: seq<Message>) returns (runs: seq<seq<Message>>)
    requires AllSystem(run)
    ensures MergedBy(runs, run + ms, MergeFrom(run, ms))
    decreases |ms|
  {
    if ms == [] {
      RunMerged(run);
      runs := if run == [] then [] else [run];
      assert run + ms == run;
    } else if ms[0].role.System? {
      runs := MergeFromByRuns(run + [ms[0]], ms[1..]);
      assert run + [ms[0]] + ms[1..] == run + ms;
    } else {
      var rest := MergeFromByRuns([], ms[1..]);
      assert [] + ms[1..] == ms[1..];
      runs := OtherByRuns(run, ms, rest);
    }
  }

  lemma StepMerged(run: seq<Message>, m: Message)
    requires AllSystem(run)
    ensures MergedBy((if run == [] then [] else [run]) + [[m]], run + [m], MergeRun(run) + [m])
  {
    RunMerged(run);
    assert Flat([[m]]) == [m] + Flat([]);
    MergedConcat(if run == [] then [] else [run], run, MergeRun(run), [[m]], [m], [m]);
  }

  lemma OtherByRuns(run: seq<Message>, ms: seq<Message>, rest: seq<seq<Message>>) returns (runs: seq<seq<Message>>)
    requires AllSystem(run) && ms != [] && !ms[0].role.System? && MergedBy(rest, ms[1..], MergeFrom([], ms[1..]))
    ensures MergedBy(runs, run + ms, MergeFrom(run, ms))
  {
    StepMerged(run, ms[0]);
    var first := (if run == [] then [] else [run]) + [[ms[0]]];
    MergedConcat(first, run + [ms[0]], MergeRun(run) + [ms[0]], rest, ms[1..], MergeFrom([], ms[1..]));
    assert run + [ms[0]] + ms[1..] == run + ms;
    runs := first + rest;
  }

  /** Merging makes one message of each longest run of system messages, and keeps every other message. */
  lemma MergeByRuns(ms: seq<Message>) returns (runs: seq<seq<Message>>)
    ensures MergedBy(runs, ms, Merge(ms)) && NoSystemPair(Merge(ms))
  {
    runs := MergeFromByRuns([], ms);
    MergeLaw(ms);
    assert [] + ms == ms;
  }

  // ---------------------------------------------------------------------------
  // What is included is said
  // ---------------------------------------------------------------------------

  lemma {:induction false} InFlat<T>(ls: seq<seq<T>>, l: nat, v: T)
    requires l < |ls| && v in ls[l]
    ensures v in Flat(ls)
  {
    if l > 0 {
      assert ls[1..][l - 1] == ls[l];
      InFlat(ls[1..], l - 1, v);
    }
  }

  lemma {:induction false} FromFlat<T>(ls: seq<seq<T>>, v: T) returns (l: nat)
    requires v in Flat(ls)
    ensures l < |ls| && v in ls[l]
  {
    if v in ls[0] {
      l := 0;
    } else {
      var rest := FromFlat(ls[1..], v);
      l := rest + 1;
    }
  }

  /** Parts joined within parts are parts of the whole. */
  lemma JoinInside(a: seq<string>, parts: seq<string>, b: seq<string>)
    requires parts != []
    ensures Join(a + [Join(parts)] + b) == Join(a + parts + b)
    decreases |b|
  {
    assert Join([Join(parts)]) == Join(parts);
    if b == [] {
      assert a + [Join(parts)] + b == a + [Join(parts)] && a + parts + b == a + parts;
      if a == [] {
        assert a + [Join(parts)] == [Join(parts)] && a + parts == parts;
      } else {
        JoinConcat(a, [Join(parts)]);
        JoinConcat(a, parts);
      }
    } else {
      JoinConcat(a + [Join(parts)], b);
      JoinConcat(a + parts, b);
      JoinInside(a, parts, []);
      assert a + [Join(parts)] + [] == a + [Join(parts)] && a + parts + [] == a + parts;
    }
  }

  /** `said` holds what `m` says, among what other messages say. */
  ghost predicate Says(said: Message, m: Message, before: seq<string>, after: seq<string>) {
    && said.content == Join(before + [m.content] + after)
    && (forall id <- m.source :: id in said.source) && (forall p <- m.attachments :: p in said.attachments)
    && (said == m || (said.role.System? && m.role.System?))
  }

  lemma RunSays(run: seq<Message>, said: Message, j: nat) returns (before: seq<string>, after: seq<string>)
    requires j < |run| && BecomesOne(run, said)
    ensures Says(said, run[j], before, after)
  {
    before, after := [], [];
    assert [] + [run[j].content] + [] == [run[j].content];
    if |run| > 1 {
      var all := ContentList(run);
      before, after := all[..j], all[j + 1..];
      assert all == before + [run[j].content] + after;
      forall id | id in run[j].source ensures id in said.source { InFlat(SourceLists(run), j, id); }
      forall p | p in run[j].attachments ensures p in said.attachments { InFlat(AttachmentLists(run), j, p); }
    }
  }

  /** Every message stands in full in the finished ones, alone or within a merged system message. */
  lemma EveryMessageIsSaid(x: Job, chosen: set<nat>, m: Message)
    returns (n: nat, before: seq<string>, after: seq<string>)
    requires MakeMessages(x, chosen).Ok? && m in AllMessages(x, chosen)
    ensures n < |MakeMessages(x, chosen).value|
    ensures Says(MakeMessages(x, chosen).value[n], m, before, after)
  {
    var all := AllMessages(x, chosen);
    if x.manySystem {
      n :| 0 <= n < |all| && all[n] == m;
      before, after := [], [];
      assert [] + [m.content] + [] == [m.content];
    } else {
      var runs := MergeByRuns(all);
      n := FromFlat(runs, m);
      var j :| 0 <= j < |runs[n]| && runs[n][j] == m;
      before, after := RunSays(runs[n], Merge(all)[n], j);
    }
  }

  lemma PlaceOfShown(x: Job, chosen: set<nat>, i: nat, c: Content) returns (k: nat, t: nat)
    requires i in chosen && i < |x.candidates| && ContentOf(x, ShownOrder(x), chosen, x.candidates[i].region, c)
    ensures k < |c.shown| && ShownOrder(x)[c.shown[k]] == i
    ensures x.candidates[i].text != "" ==> t < |c.said| && ShownOrder(x)[c.said[t]] == i
  {
    var shown, region := ShownOrder(x), x.candidates[i].region;
    EveryCandidateIsPlaced(x, i);
    var at: nat :| at < |shown| && shown[at] == i;
    assert ShownIn(x, chosen, region)(shown[at]);
    k :| 0 <= k < |c.shown| && c.shown[k] == at;
    t := 0;
    if x.candidates[i].text != "" {
      assert SaidIn(x, chosen, region)(shown[at]);
      t :| 0 <= t < |c.said| && c.said[t] == at;
    }
  }

  lemma ShownInRegion(
    x: Job, shown: seq<nat>, chosen: set<nat>, i: nat, c: Content, parts: seq<string>, source: seq<string>,
    k: nat, t: nat)
    requires i < |x.candidates|
    requires var region := x.candidates[i].region;
             && ContentOf(x, shown, chosen, region, c) && PartsOf(x, shown, chosen, region, c, parts)
             && SourcesOf(x, shown, chosen, region, c, source)
    requires k < |c.shown| && shown[c.shown[k]] == i
    requires x.candidates[i].text != "" ==> t < |c.said| && shown[c.said[t]] == i
    ensures x.candidates[i].id in source
    ensures x.candidates[i].text != "" ==> x.candidates[i].text in parts
  {
    assert source[|c.blocks| + k] == x.candidates[i].id;
    if x.candidates[i].text != "" {
      var due := if x.candidates[i].region == "system:examples" && c.shown != [] then 1 else 0;
      assert parts[|c.blocks| + due + t] == x.candidates[i].text;
    }
  }

  /**
   * For each place of the layout that shows an included candidate's region, a finished system
   * message names the candidate as a source and holds, side by side and in order, exactly the parts
   * of the region, the candidate's text among them.
   */
  lemma IncludedIsSaid(x: Job, chosen: set<nat>, i: nat, l: nat)
    returns (n: nat, c: Content, parts: seq<string>, before: seq<string>, after: seq<string>)
    requires MakeMessages(x, chosen).Ok? && i in chosen && i < |x.candidates|
    requires l < |x.layout| && x.layout[l] == x.candidates[i].region != "history"
    ensures var ms := MakeMessages(x, chosen).value;
            && n < |ms| && ms[n].role.System? && x.candidates[i].id in ms[n].source
            && ms[n].content == Join(before + [Join(parts)] + after)
            && (parts != [] ==> ms[n].content == Join(before + parts + after))
            && (forall p <- x.candidates[i].attachments :: p in ms[n].attachments)
    ensures ContentOf(x, ShownOrder(x), chosen, x.candidates[i].region, c)
    ensures PartsOf(x, ShownOrder(x), chosen, x.candidates[i].region, c, parts)
    ensures x.candidates[i].text != "" ==> x.candidates[i].text in parts
  {
    var region := x.candidates[i].region;
    var source, pictures;
    c, parts, source, pictures := RegionSays(x, chosen, region);
    var k, t := PlaceOfShown(x, chosen, i, c);
    ShownInRegion(x, ShownOrder(x), chosen, i, c, parts, source, k, t);
    forall p | p in x.candidates[i].attachments ensures p in Flat(pictures) { InFlat(pictures, k, p); }
    var m := Message(System, Join(parts), source, Flat(pictures));
    var main, first, segs, later, last := LayoutExactly(x, chosen);
    assert m in segs[l];
    InFlat(segs, l, m);
    n, before, after := EveryMessageIsSaid(x, chosen, m);
    if parts != [] { JoinInside(before, parts, after); }
  }

  /**
   * A runtime that takes many system messages gets the messages as they are laid out; one that
   * takes one gets them merged, or none at all when two system messages remain apart.
   */
  lemma MessagesExactly(x: Job, chosen: set<nat>)
    ensures x.manySystem ==> MakeMessages(x, chosen) == Ok(AllMessages(x, chosen))
    ensures !x.manySystem ==>
              var ms := Merge(AllMessages(x, chosen));
              if exists i, j :: 0 <= i < j < |ms| && ms[i].role.System? && ms[j].role.System?
              then MakeMessages(x, chosen) == Err(PresetIncompatible)
              else MakeMessages(x, chosen) == Ok(ms)
  {
    SystemsCounted(Merge(AllMessages(x, chosen)));
  }

  lemma {:induction false} SystemsCounted(ms: seq<Message>)
    ensures SystemCount(ms) > 0 <==> exists j :: 0 <= j < |ms| && ms[j].role.System?
    ensures SystemCount(ms) > 1 <==> exists i, j :: 0 <= i < j < |ms| && ms[i].role.System? && ms[j].role.System?
  {
    if ms != [] {
      var rest := ms[1..];
      SystemsCounted(rest);
      if j: nat :| j < |rest| && rest[j].role.System? { assert ms[j + 1].role.System?; }
      if i: nat, j: nat :| i < j < |rest| && rest[i].role.System? && rest[j].role.System? {
        assert ms[i + 1].role.System? && ms[j + 1].role.System?;
      }
      forall j | 0 < j < |ms| ensures ms[j] == rest[j - 1] {}
    }
  }

  // ---------------------------------------------------------------------------
  // What is charged
  // ---------------------------------------------------------------------------

  ghost function Sum(ns: seq<int>): int {
    if ns == [] then 0 else ns[0] + Sum(ns[1..])
  }

  lemma {:induction false} SumAppend(ns: seq<int>, n: int)
    ensures Sum(ns + [n]) == Sum(ns) + n
  {
    if ns == [] {
      assert Sum([n]) == n + Sum([]);
      assert ns + [n] == [n];
    } else {
      assert (ns + [n])[1..] == ns[1..] + [n];
      SumAppend(ns[1..], n);
    }
  }

  ghost function LineTokens(x: Job): (r: seq<int>)
    ensures |r| == |x.history| && forall k | 0 <= k < |r| :: r[k] == x.count(x.history[k].content)
  {
    seq(|x.history|, k requires 0 <= k < |x.history| => x.count(x.history[k].content))
  }

  ghost function EachBlock(x: Job): (r: seq<int>)
    ensures |r| == |x.blocks| && forall k | 0 <= k < |r| :: r[k] == x.count(x.blocks[k].text)
  {
    seq(|x.blocks|, k requires 0 <= k < |x.blocks| => x.count(x.blocks[k].text))
  }

  ghost function EachPolicy(x: Job): (r: seq<int>)
    ensures |r| == |x.policy|
    ensures forall k | 0 <= k < |r| :: r[k] == if x.policy[k].enabled then x.count(x.policy[k].text) else 0
  {
    seq(|x.policy|, k requires 0 <= k < |x.policy| => if x.policy[k].enabled then x.count(x.policy[k].text) else 0)
  }

  ghost function EachChosen(x: Job, chosen: set<nat>): (r: seq<int>)
    ensures |r| == |x.candidates|
    ensures forall k | 0 <= k < |r| :: r[k] == if k in chosen then x.count(x.candidates[k].text) else 0
  {
    seq(|x.candidates|, k requires 0 <= k < |x.candidates| =>
          if k in chosen then x.count(x.candidates[k].text) else 0)
  }

  ghost function EachMessage(x: Job, ms: seq<Message>): (r: seq<int>)
    ensures |r| == |ms| && forall k | 0 <= k < |r| :: r[k] == x.count(ms[k].content)
  {
    seq(|ms|, k requires 0 <= k < |ms| => x.count(ms[k].content))
  }

  lemma {:induction false} LinesCharged(x: Job, k: nat)
    requires k <= |x.history|
    ensures HistoryTokens(x, x.history[k..]) == Sum(LineTokens(x)[k..])
    decreases |x.history| - k
  {
    if k < |x.history| {
      LinesCharged(x, k + 1);
      assert x.history[k..][1..] == x.history[k + 1..] && LineTokens(x)[k..][1..] == LineTokens(x)[k + 1..];
    }
  }

  lemma {:induction false} BlocksCharged(x: Job, k: nat)
    requires k <= |x.blocks|
    ensures BlockTokens(x, x.blocks[k..]) == Sum(EachBlock(x)[k..])
    decreases |x.blocks| - k
  {
    if k < |x.blocks| {
      BlocksCharged(x, k + 1);
      assert x.blocks[k..][1..] == x.blocks[k + 1..] && EachBlock(x)[k..][1..] == EachBlock(x)[k + 1..];
    }
  }

  lemma {:induction false} PolicyCharged(x: Job, k: nat)
    requires k <= |x.policy|
    ensures PolicyTokens(x, x.policy[k..]) == Sum(EachPolicy(x)[k..])
    decreases |x.policy| - k
  {
    if k < |x.policy| {
      PolicyCharged(x, k + 1);
      assert x.policy[k..][1..] == x.policy[k + 1..] && EachPolicy(x)[k..][1..] == EachPolicy(x)[k + 1..];
    }
  }

  lemma {:induction false} ChosenCharged(x: Job, chosen: set<nat>, n: nat)
    requires n <= |x.candidates|
    ensures SpendTo(x, chosen, n) == Sum(EachChosen(x, chosen)[..n])
  {
    if n > 0 {
      ChosenCharged(x, chosen, n - 1);
      assert EachChosen(x, chosen)[..n] == EachChosen(x, chosen)[..n - 1] + [EachChosen(x, chosen)[n - 1]];
      SumAppend(EachChosen(x, chosen)[..n - 1], EachChosen(x, chosen)[n - 1]);
    }
  }

  lemma {:induction false} MessagesCharged(x: Job, ms: seq<Message>, k: nat)
    requires k <= |ms|
    ensures MessageTokens(x, ms[k..]) == Sum(EachMessage(x, ms)[k..])
    decreases |ms| - k
  {
    if k < |ms| {
      MessagesCharged(x, ms, k + 1);
      assert ms[k..][1..] == ms[k + 1..] && EachMessage(x, ms)[k..][1..] == EachMessage(x, ms)[k + 1..];
    }
  }

  /** Every line, session block, enabled policy block and chosen candidate is charged once. */
  lemma SourcesCharged(x: Job, chosen: set<nat>)
    ensures Fixed(x) == Sum(LineTokens(x)) + Sum(EachBlock(x)) + Sum(EachPolicy(x))
    ensures Spend(x, chosen) == Sum(EachChosen(x, chosen))
  {
    LinesCharged(x, 0);
    BlocksCharged(x, 0);
    PolicyCharged(x, 0);
    ChosenCharged(x, chosen, |x.candidates|);
    assert x.history[0..] == x.history && LineTokens(x)[0..] == LineTokens(x);
    assert x.blocks[0..] == x.blocks && EachBlock(x)[0..] == EachBlock(x);
    assert x.policy[0..] == x.policy && EachPolicy(x)[0..] == EachPolicy(x);
    assert EachChosen(x, chosen)[..|x.candidates|] == EachChosen(x, chosen);
  }

  /**
   * An assembly costs the larger of two sums: over its sources, one by one, and over the finished
   * messages. A region is charged with its own chosen candidates.
   */
  lemma CostExactly(x: Job, chosen: set<nat>, region: string)
    ensures Cost(x, chosen).Ok? <==> MakeMessages(x, chosen).Ok?
    ensures Cost(x, chosen).Ok? ==>
              var sources := Sum(LineTokens(x)) + Sum(EachBlock(x)) + Sum(EachPolicy(x)) + Sum(EachChosen(x, chosen));
              var said := Sum(EachMessage(x, MakeMessages(x, chosen).value));
              Cost(x, chosen).value == if sources < said then said else sources
    ensures var inside := set i | i in chosen && i < |x.candidates| && x.candidates[i].region == region;
            RegionSpend(x, chosen, region) == Sum(EachChosen(x, inside))
  {
    SourcesCharged(x, chosen);
    SourcesCharged(x, Within(x, chosen, region));
    if MakeMessages(x, chosen).Ok? {
      var ms := MakeMessages(x, chosen).value;
      MessagesCharged(x, ms, 0);
      assert ms[0..] == ms && EachMessage(x, ms)[0..] == EachMessage(x, ms);
    }
  }

  /** What goes wrong when the mandatory part does not fit. */
  lemma RefusalExactly(x: Job)
    requires Cost(x, {}).Ok? && Cost(x, Forced(x)).Ok?
    requires var pinned := set i | 0 <= i < |x.candidates| && x.candidates[i].importance == Pinned; Cost(x, pinned).Ok?
    ensures var pinned := set i | 0 <= i < |x.candidates| && x.candidates[i].importance == Pinned;
            if Cost(x, {}).value > x.budget then Included(x) == Err(FixedOverBudget)
            else if Cost(x, Forced(x)).value > x.budget then
              Included(x) == Err(if Forced(x) != pinned && Cost(x, pinned).value <= x.budget then RequiredOverBudget
                                 else PinnedOverBudget)
            else if exists r :: r in x.limits && RegionSpend(x, Forced(x), r) > x.limits[r]
            then Included(x) == Err(RegionOverBudget)
            else Included(x).Ok? || Included(x) == Err(PresetIncompatible)
  {
    assert Forced(x) == x.Mandatory();
    assert x.PinnedOnly() == set i | 0 <= i < |x.candidates| && x.candidates[i].importance == Pinned;
    GreedyErrors(x, x.Mandatory(), Queue(x));
  }

  lemma {:induction false} GreedyErrors(x: Job, base: set<nat>, queue: seq<nat>)
    ensures Greedy(AdmitterOf(x), base, queue).Ok? || Greedy(AdmitterOf(x), base, queue) == Err(PresetIncompatible)
    decreases |queue|
  {
    if queue != [] {
      var c := queue[0];
      var answer := AdmitterOf(x)(base, c);
      if c < |x.candidates| { MessagesExactly(x, base + {c}); }
      if answer.Ok? { GreedyErrors(x, if answer.value then base + {c} else base, queue[1..]); }
    }
  }
}
