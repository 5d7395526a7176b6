/**
 * What the printer promises: texts and token lists correspond one to one, and a text put together
 * from literal pieces and placeholders means their concatenation exactly when no run of braces
 * is made of two odd pieces.
 */
module TemplateLaws {
  import opened Common
  import opened Template

  /** A piece of output: a literal, which is escaped, or a placeholder, which is not. */
  datatype Piece = Lit(s: string) | Keep(tok: Token)

  function Put(ps: seq<Piece>, x: Syntax): string {
    if ps == [] then ""
    else (match ps[0] case Lit(s) => Escape(s) case Keep(tok) => x.Spell(tok)) + Put(ps[1..], x)
  }

  function PieceItems(ps: seq<Piece>): seq<Item> {
    if ps == [] then []
    else (match ps[0] case Lit(s) => Chars(s) case Keep(tok) => [Hole(tok)]) + PieceItems(ps[1..])
  }

  ghost predicate Fit(ps: seq<Piece>, x: Syntax) {
    forall i | 0 <= i < |ps| :: ps[i].Keep? ==> x.hole(ps[i].tok)
  }

  // ---------------------------------------------------------------------------
  // Brace runs
  // ---------------------------------------------------------------------------

  /** The number of braces `s` ends with. */
  function Trailing(s: string): (n: nat)
    ensures n <= |s| && (forall i | |s| - n <= i < |s| :: s[i] == '{') && (n < |s| ==> s[|s| - n - 1] != '{')
  {
    if s == "" || s[|s| - 1] != '{' then 0 else 1 + Trailing(s[..|s| - 1])
  }

  /**
   * No run of braces has two literal pieces that each add an odd number to it; `odd` says that
   * the run the text so far ends with already has one.
   */
  predicate Seams(ps: seq<Piece>, odd: bool) {
    if ps == [] then true
    else
      match ps[0]
      case Keep(_) => Seams(ps[1..], false)
      case Lit(s) =>
        var adds := Leading(s) % 2 == 1;
        && !(odd && adds)
        && Seams(ps[1..], if Leading(s) == |s| then odd || adds else Trailing(s) % 2 == 1)
  }

  /** Whether a brace lacks its partner after `s`. */
  function HalfAfter(s: string, half: bool): bool {
    if s == "" then half else HalfAfter(s[1..], s[0] == '{' && !half)
  }

  lemma {:induction false} HalfAfterRun(s: string, half: bool)
    requires Leading(s) == |s|
    ensures HalfAfter(s, half) == (half != (|s| % 2 == 1))
    decreases |s|
  {
    if s != "" { HalfAfterRun(s[1..], !half); }
  }

  lemma {:induction false} HalfAfterPrefix(s: string, t: string, half: bool)
    ensures HalfAfter(s + t, half) == HalfAfter(t, HalfAfter(s, half))
    decreases |s|
  {
    if s == "" {
      assert s + t == t;
    } else {
      assert (s + t)[1..] == s[1..] + t;
      HalfAfterPrefix(s[1..], t, s[0] == '{' && !half);
    }
  }

  lemma HalfAfterText(s: string, half: bool)
    requires Leading(s) < |s|
    ensures HalfAfter(s, half) == (Trailing(s) % 2 == 1)
  {
    var k := |s| - Trailing(s);
    var front, run := s[..k - 1], s[k..];
    assert k > 0;
    assert s == front + ([s[k - 1]] + run);
    HalfAfterPrefix(front, [s[k - 1]] + run, half);
    assert ([s[k - 1]] + run)[1..] == run;
    assert Leading(run) == |run|;
    HalfAfterRun(run, false);
  }

  // ---------------------------------------------------------------------------
  // Escaping is printing, and printing is joined at its seams
  // ---------------------------------------------------------------------------

  lemma {:induction false} PrintJoin(s: string, items: seq<Item>, half: bool, x: Syntax)
    ensures Print(Chars(s) + items, half, x) == Print(Chars(s), half, x) + Print(items, HalfAfter(s, half), x)
    decreases |s|
  {
    if s == "" {
      assert Chars(s) + items == items;
    } else {
      assert (Chars(s) + items)[1..] == Chars(s[1..]) + items;
      assert Chars(s)[1..] == Chars(s[1..]);
      PrintJoin(s[1..], items, s[0] == '{' && !half, x);
    }
  }

  lemma {:induction false} EscapeIsPrint(s: string, x: Syntax)
    ensures Escape(s) == Print(Chars(s), false, x)
    decreases |s|
  {
    if "{{" <= s {
      EscapeIsPrint(s[2..], x);
      assert Chars(s) == [Ch('{'), Ch('{')] + Chars(s[2..]);
      PrintPair(Chars(s[2..]), x);
    } else if s != "" {
      EscapeIsPrint(s[1..], x);
      assert Chars(s) == [Ch(s[0])] + Chars(s[1..]);
      PrintOne(Ch(s[0]), Chars(s[1..]), x);
      if s[0] == '{' {
        assert |s| > 1 ==> s[1] != '{';
        PrintSame(Chars(s[1..]), x);
      }
    }
  }

  /** A waiting brace makes a difference to a literal exactly when it starts with an odd run. */
  lemma {:induction false} PrintHalf(s: string, x: Syntax)
    ensures Leading(s) % 2 == 0 ==> Print(Chars(s), true, x) == Print(Chars(s), false, x)
    ensures Leading(s) % 2 == 1 ==> |Print(Chars(s), true, x)| == |Print(Chars(s), false, x)| + 2
    decreases |s|
  {
    if s != "" && s[0] == '{' {
      var one := s[1..];
      assert Chars(s)[1..] == Chars(one);
      if one != "" && one[0] == '{' {
        var two := one[1..];
        assert Chars(one)[1..] == Chars(two);
        PrintHalf(two, x);
        assert Print(Chars(s), false, x) == "{" + ("{{{" + Print(Chars(two), false, x));
        assert Print(Chars(s), true, x) == "{{{" + ("{" + Print(Chars(two), true, x));
      } else {
        PrintSame(Chars(one), x);
      }
    }
  }

  // ---------------------------------------------------------------------------
  // The seam condition
  // ---------------------------------------------------------------------------

  lemma PieceStep(p: Piece, more: seq<Piece>, half: bool, x: Syntax)
    ensures Put([p] + more, x) == (if p.Lit? then Escape(p.s) else x.Spell(p.tok)) + Put(more, x)
    ensures Print(PieceItems([p] + more), half, x)
            == if p.Lit? then Print(Chars(p.s), half, x) + Print(PieceItems(more), HalfAfter(p.s, half), x)
               else x.Spell(p.tok) + Print(PieceItems(more), false, x)
  {
    assert ([p] + more)[1..] == more;
    if p.Lit? {
      PrintJoin(p.s, PieceItems(more), half, x);
    } else {
      assert ([Hole(p.tok)] + PieceItems(more))[1..] == PieceItems(more);
    }
  }

  /** The parity of the open run is what the odd pieces make it. */
  lemma HalfIsOdd(s: string, odd: bool)
    requires !(odd && Leading(s) % 2 == 1)
    ensures HalfAfter(s, odd) == if Leading(s) == |s| then odd || Leading(s) % 2 == 1 else Trailing(s) % 2 == 1
  {
    if Leading(s) == |s| { HalfAfterRun(s, odd); } else { HalfAfterText(s, odd); }
  }

  lemma {:induction false} SeamsPrint(ps: seq<Piece>, odd: bool, x: Syntax)
    requires Seams(ps, odd)
    ensures Print(PieceItems(ps), odd, x) == Put(ps, x)
    decreases |ps|
  {
    if ps != [] {
      var p, more := ps[0], ps[1..];
      assert ps == [p] + more;
      PieceStep(p, more, odd, x);
      if p.Lit? {
        HalfIsOdd(p.s, odd);
        PrintHalf(p.s, x);
        EscapeIsPrint(p.s, x);
        SeamsPrint(more, HalfAfter(p.s, odd), x);
      } else {
        SeamsPrint(more, false, x);
      }
    }
  }

  /** Escaping the pieces one by one never gives more than escaping them together. */
  lemma {:induction false} PutIsShort(ps: seq<Piece>, half: bool, x: Syntax)
    ensures |Put(ps, x)| <= |Print(PieceItems(ps), half, x)|
    decreases |ps|
  {
    if ps != [] {
      var p, more := ps[0], ps[1..];
      assert ps == [p] + more;
      PieceStep(p, more, half, x);
      if p.Lit? {
        PrintHalf(p.s, x);
        EscapeIsPrint(p.s, x);
        PutIsShort(more, HalfAfter(p.s, half), x);
      } else {
        PutIsShort(more, false, x);
      }
    }
  }

  lemma {:induction false} BadSeamIsShort(ps: seq<Piece>, odd: bool, x: Syntax)
    requires !Seams(ps, odd)
    ensures |Put(ps, x)| < |Print(PieceItems(ps), odd, x)|
    decreases |ps|
  {
    var p, more := ps[0], ps[1..];
    assert ps == [p] + more;
    PieceStep(p, more, odd, x);
    if p.Keep? {
      BadSeamIsShort(more, false, x);
    } else {
      PrintHalf(p.s, x);
      EscapeIsPrint(p.s, x);
      if odd && Leading(p.s) % 2 == 1 {
        PutIsShort(more, HalfAfter(p.s, odd), x);
      } else {
        HalfIsOdd(p.s, odd);
        BadSeamIsShort(more, HalfAfter(p.s, odd), x);
      }
    }
  }

  lemma {:induction false} PiecesAreClean(ps: seq<Piece>, x: Syntax)
    requires Fit(ps, x)
    ensures Clean(PieceItems(ps), x)
    decreases |ps|
  {
    if ps != [] {
      assert Fit(ps[1..], x) by { assert forall i | 0 <= i < |ps| - 1 :: ps[1..][i] == ps[i + 1]; }
      PiecesAreClean(ps[1..], x);
      var now := match ps[0] case Lit(s) => Chars(s) case Keep(tok) => [Hole(tok)];
      CleanCons(now, PieceItems(ps[1..]), x);
    }
  }

  /** What the pieces mean together: their literals run together between the placeholders. */
  function Merged(ps: seq<Piece>): seq<Token> {
    Group(PieceItems(ps), "")
  }

  /** A text means `ts`: it has no issues and is tokenized as `ts`. */
  ghost predicate Means(text: string, ts: seq<Token>, mode: Mode) {
    TextIssues(text, mode) == [] && Tokens(text, mode) == ts
  }

  /** A text means the grouping of clean items exactly when it is their print. */
  lemma MeansExactly(text: string, items: seq<Item>, mode: Mode)
    requires Clean(items, Grammar(mode))
    ensures Means(text, Group(items, ""), mode) <==> text == Print(items, false, Grammar(mode))
  {
    var x := Grammar(mode);
    GrammarIsLawful(mode);
    if text == Print(items, false, x) {
      ItemsOfPrint(items, 0, x);
      CleanHasNoIssues(items, x);
    }
    if Means(text, Group(items, ""), mode) {
      var read := Items(text, 0, x);
      ItemsOfText(text, 0, x);
      ExplodeGroup(read, "", x);
      ExplodeGroup(items, "", x);
      assert Chars("") + read == read && Chars("") + items == items;
    }
  }

  /** The text put together from pieces means their concatenation exactly when the seams are good. */
  lemma SubstitutionExactly(ps: seq<Piece>, mode: Mode)
    requires Fit(ps, Grammar(mode))
    ensures Means(Put(ps, Grammar(mode)), Merged(ps), mode) <==> Seams(ps, false)
  {
    var x := Grammar(mode);
    PiecesAreClean(ps, x);
    MeansExactly(Put(ps, x), PieceItems(ps), mode);
    if Seams(ps, false) { SeamsPrint(ps, false, x); } else { BadSeamIsShort(ps, false, x); }
  }

  /** Two literal braces side by side are written as the opening of a placeholder. */
  lemma TwoBraces(mode: Mode)
    ensures var ps := [Lit("{"), Lit("{")];
            && Put(ps, Grammar(mode)) == "{{" && Merged(ps) == [Text("{{")]
            && TextIssues("{{", mode) == [Issue(Unclosed, 0)]
  {
    var ps := [Lit("{"), Lit("{")];
    var x := Grammar(mode);
    assert ps[1..] == [Lit("{")] && ps[1..][1..] == [];
    assert Escape("{") == "{" by { assert Escape("") == "" && "{"[1..] == ""; }
    assert Put([Lit("{")], x) == "{" + Put([], x);
    assert Chars("{") == [Ch('{')];
    assert PieceItems([Lit("{")]) == [Ch('{')] + [];
    assert PieceItems(ps) == [Ch('{')] + [Ch('{')];
    assert PieceItems(ps) == Chars("{{") + [];
    GroupChars("{{", [], "");
    assert "" + "{{" == "{{";
    assert CloseFrom("{{", 2) == 2;
    OpenStep("{{", 0, x);
    assert Issues([Bad(Unclosed, 0, "{{")]) == [Issue(Unclosed, 0)] + Issues([]);
  }

  // ---------------------------------------------------------------------------
  // Texts and token lists
  // ---------------------------------------------------------------------------

  /** A token list as pieces that are all kept. */
  function Kept(ts: seq<Token>): seq<Piece> {
    if ts == [] then []
    else [if ts[0].Text? then Lit(ts[0].v) else Keep(ts[0])] + Kept(ts[1..])
  }

  /** `renderTemplate` with every placeholder kept. */
  function RenderKept(ts: seq<Token>, mode: Mode): string {
    Put(Kept(ts), Grammar(mode))
  }

  lemma NormalTail(ts: seq<Token>, x: Syntax)
    requires ts != [] && Normal(ts, x)
    ensures Normal(ts[1..], x)
  {
    assert forall i | 0 <= i < |ts| - 1 :: ts[1..][i] == ts[i + 1];
  }

  lemma {:induction false} KeptFits(ts: seq<Token>, x: Syntax)
    requires Normal(ts, x)
    ensures Fit(Kept(ts), x) && PieceItems(Kept(ts)) == Explode(ts)
    decreases |ts|
  {
    if ts != [] {
      NormalTail(ts, x);
      KeptFits(ts[1..], x);
      assert Kept(ts)[1..] == Kept(ts[1..]);
      assert forall i | 0 < i < |Kept(ts)| :: Kept(ts)[i] == Kept(ts[1..])[i - 1];
    }
  }

  /** Between two placeholders there is at most one literal, so no seam is bad. */
  lemma {:induction false} KeptSeams(ts: seq<Token>, odd: bool, x: Syntax)
    requires Normal(ts, x) && (odd ==> ts == [] || !ts[0].Text?)
    ensures Seams(Kept(ts), odd)
    decreases |ts|
  {
    if ts != [] {
      NormalTail(ts, x);
      assert Kept(ts)[1..] == Kept(ts[1..]);
      if ts[0].Text? {
        var s := ts[0].v;
        KeptSeams(ts[1..], if Leading(s) == |s| then odd || Leading(s) % 2 == 1 else Trailing(s) % 2 == 1, x);
      } else {
        KeptSeams(ts[1..], false, x);
      }
    }
  }

  /** Printing a normal token list and tokenizing the print gives the list back. */
  lemma TokenizeRender(ts: seq<Token>, mode: Mode)
    requires Normal(ts, Grammar(mode))
    ensures Means(RenderKept(ts, mode), ts, mode)
  {
    var x := Grammar(mode);
    KeptFits(ts, x);
    KeptSeams(ts, false, x);
    SubstitutionExactly(Kept(ts), mode);
    GroupExplode(ts, x);
  }

  /** Tokenizing a text without issues gives a normal list, whose print is the text. */
  lemma RenderTokenize(text: string, mode: Mode)
    requires TextIssues(text, mode) == []
    ensures Normal(Tokens(text, mode), Grammar(mode)) && RenderKept(Tokens(text, mode), mode) == text
  {
    var x := Grammar(mode);
    GrammarIsLawful(mode);
    var items := Items(text, 0, x);
    ItemsOfText(text, 0, x);
    ExplodeGroup(items, "", x);
    var ts := Tokens(text, mode);
    assert Chars("") + items == items;
    KeptFits(ts, x);
    KeptSeams(ts, false, x);
    SeamsPrint(Kept(ts), false, x);
  }

  // ---------------------------------------------------------------------------
  // Rendering with substitutions, and finalizing
  // ---------------------------------------------------------------------------

  /** What a placeholder is replaced by: a literal, a raw text, or itself. */
  datatype Resolved = Literal(s: string) | Raw(text: string) | AsIs

  function RenderOne(tok: Token, resolve: Token -> Resolved): string {
    if tok.Text? then Escape(tok.v)
    else
      match resolve(tok)
      case AsIs => PlaceholderText(tok)
      case Literal(s) => Escape(s)
      case Raw(text) => text
  }

  function Render(ts: seq<Token>, resolve: Token -> Resolved): string {
    if ts == [] then "" else RenderOne(ts[0], resolve) + Render(ts[1..], resolve)
  }

  /** What a token contributes; a text inserted raw is a placeholder of the target language. */
  ghost predicate Contributes(tok: Token, resolve: Token -> Resolved, p: Piece, mode: Mode) {
    if tok.Text? then p == Lit(tok.v)
    else
      match resolve(tok)
      case Literal(s) => p == Lit(s)
      case AsIs => p == Keep(tok) && IsHole(tok, mode)
      case Raw(text) => p.Keep? && IsHole(p.tok, mode) && text == PlaceholderText(p.tok)
  }

  ghost predicate Substitutes(ts: seq<Token>, resolve: Token -> Resolved, ps: seq<Piece>, mode: Mode) {
    |ps| == |ts| && forall i | 0 <= i < |ts| :: Contributes(ts[i], resolve, ps[i], mode)
  }

  lemma RenderOnePiece(tok: Token, resolve: Token -> Resolved, p: Piece, mode: Mode)
    requires Contributes(tok, resolve, p, mode)
    ensures RenderOne(tok, resolve) == if p.Lit? then Escape(p.s) else Grammar(mode).Spell(p.tok)
    ensures p.Keep? ==> Grammar(mode).hole(p.tok)
  {
  }

  lemma {:induction false} RenderIsPut(ts: seq<Token>, resolve: Token -> Resolved, ps: seq<Piece>, mode: Mode)
    requires Substitutes(ts, resolve, ps, mode)
    ensures Render(ts, resolve) == Put(ps, Grammar(mode))
    decreases |ts|
  {
    if ts != [] {
      assert Contributes(ts[0], resolve, ps[0], mode);
      RenderOnePiece(ts[0], resolve, ps[0], mode);
      RenderIsPut(ts[1..], resolve, ps[1..], mode);
    }
  }

  lemma SubstitutesFit(ts: seq<Token>, resolve: Token -> Resolved, ps: seq<Piece>, mode: Mode)
    requires Substitutes(ts, resolve, ps, mode)
    ensures Fit(ps, Grammar(mode))
  {
    forall i | 0 <= i < |ps| && ps[i].Keep? ensures Grammar(mode).hole(ps[i].tok) {
      assert Contributes(ts[i], resolve, ps[i], mode);
      RenderOnePiece(ts[i], resolve, ps[i], mode);
    }
  }

  /** A brace before a placeholder whose value is a brace: the output is no valid template. */
  lemma OddSeamBreaks(resolve: Token -> Resolved)
    requires resolve(Self) == Literal("{")
    ensures var ts := [Text("{"), Self];
            && Means(RenderKept(ts, Creation), ts, Creation)
            && Render(ts, resolve) == "{{" && TextIssues("{{", Creation) == [Issue(Unclosed, 0)]
  {
    var ts := [Text("{"), Self];
    TwoBraces(Creation);
    TokenizeRender(ts, Creation);
    assert ts[1..] == [Self] && ts[1..][1..] == [];
    assert Escape("{") == "{" by { assert Escape("") == "" && "{"[1..] == ""; }
    assert Render([Self], resolve) == Escape("{") + Render([], resolve);
    assert Render(ts, resolve) == Escape("{") + Render([Self], resolve);
  }

  /** Rendering means the pieces run together exactly when no brace run has two odd pieces. */
  lemma RenderMeansExactly(ts: seq<Token>, resolve: Token -> Resolved, ps: seq<Piece>, mode: Mode)
    requires Substitutes(ts, resolve, ps, mode)
    ensures Means(Render(ts, resolve), Merged(ps), mode) <==> Seams(ps, false)
  {
    RenderIsPut(ts, resolve, ps, mode);
    SubstitutesFit(ts, resolve, ps, mode);
    SubstitutionExactly(ps, mode);
  }

  function Speak(ts: seq<Token>, say: Token -> string): string {
    if ts == [] then ""
    else (if ts[0].Text? then ts[0].v else say(ts[0])) + Speak(ts[1..], say)
  }

  /** Late placeholders are bound; the final text has no others. */
  function LateBy(bind: string -> string): Token -> string {
    (tok: Token) => if tok.Late? then bind(tok.key) else ""
  }

  function Finalize(text: string, bind: string -> string): Result<string, Issue> {
    var issues := TextIssues(text, Ir);
    if issues != [] then Err(issues[0]) else Ok(Speak(Tokens(text, Ir), LateBy(bind)))
  }

  /** What pieces say one after another. */
  function SpeakPieces(ps: seq<Piece>, say: Token -> string): string {
    if ps == [] then ""
    else (match ps[0] case Lit(s) => s case Keep(tok) => say(tok)) + SpeakPieces(ps[1..], say)
  }

  function SpeakItems(items: seq<Item>, say: Token -> string): string {
    if items == [] then ""
    else
      (match items[0]
       case Ch(c) => [c]
       case Hole(tok) => say(tok)
       case Bad(_, _, raw) => raw) + SpeakItems(items[1..], say)
  }

  ghost predicate HolesAreHoles(items: seq<Item>) {
    forall i | 0 <= i < |items| :: items[i].Hole? ==> !items[i].tok.Text?
  }

  lemma {:induction false} SpeakGroup(items: seq<Item>, buf: string, say: Token -> string)
    requires HolesAreHoles(items)
    ensures Speak(Group(items, buf), say) == buf + SpeakItems(items, say)
    decreases |items|
  {
    if items == [] {
      assert Speak([], say) == "" && buf + "" == buf;
      assert buf != "" ==> Speak([Text(buf)], say) == buf + Speak([], say);
    } else {
      var item, more := items[0], items[1..];
      assert HolesAreHoles(more) by { assert forall i | 0 <= i < |more| :: more[i] == items[i + 1]; }
      if item.Ch? {
        SpeakGroup(more, buf + [item.c], say);
        assert buf + [item.c] + SpeakItems(more, say) == buf + ([item.c] + SpeakItems(more, say));
      } else if item.Bad? {
        SpeakGroup(more, buf + item.raw, say);
        assert buf + item.raw + SpeakItems(more, say) == buf + (item.raw + SpeakItems(more, say));
      } else {
        SpeakGroup(more, "", say);
        SpeakFlushed(buf, item.tok, Group(more, ""), say);
        SpokenHole(items, buf, say);
      }
    }
  }

  lemma SpokenHole(items: seq<Item>, buf: string, say: Token -> string)
    requires items != [] && items[0].Hole?
    ensures buf + say(items[0].tok) + ("" + SpeakItems(items[1..], say)) == buf + SpeakItems(items, say)
  {
  }

  lemma SpeakFlushed(buf: string, tok: Token, rest: seq<Token>, say: Token -> string)
    requires !tok.Text?
    ensures Speak(Flushed(buf) + [tok] + rest, say) == buf + say(tok) + Speak(rest, say)
  {
    assert ([tok] + rest)[1..] == rest;
    assert Flushed(buf) + [tok] + rest == Flushed(buf) + ([tok] + rest);
    if buf != "" { assert ([Text(buf)] + ([tok] + rest))[1..] == [tok] + rest; }
  }

  lemma {:induction false} SpeakItemsJoin(s: string, items: seq<Item>, say: Token -> string)
    ensures SpeakItems(Chars(s) + items, say) == s + SpeakItems(items, say)
    decreases |s|
  {
    if s == "" {
      assert Chars(s) + items == items;
    } else {
      assert (Chars(s) + items)[1..] == Chars(s[1..]) + items;
      SpeakItemsJoin(s[1..], items, say);
      assert [s[0]] + s[1..] == s;
    }
  }

  lemma {:induction false} SpeakPieceItems(ps: seq<Piece>, say: Token -> string)
    ensures SpeakItems(PieceItems(ps), say) == SpeakPieces(ps, say)
    decreases |ps|
  {
    if ps != [] {
      SpeakPieceItems(ps[1..], say);
      match ps[0]
      case Lit(s) => SpeakItemsJoin(s, PieceItems(ps[1..]), say);
      case Keep(tok) => assert ([Hole(tok)] + PieceItems(ps[1..]))[1..] == PieceItems(ps[1..]);
    }
  }

  /** Whoever says the tokens of a text says its items. */
  lemma MeansSays(text: string, items: seq<Item>, mode: Mode, say: Token -> string)
    requires Clean(items, Grammar(mode)) && Means(text, Group(items, ""), mode)
    ensures Speak(Tokens(text, mode), say) == SpeakItems(items, say)
  {
    assert HolesAreHoles(items) by {
      forall i | 0 <= i < |items| && items[i].Hole? ensures !items[i].tok.Text? { assert IsHole(items[i].tok, mode); }
    }
    SpeakGroup(items, "", say);
    assert "" + SpeakItems(items, say) == SpeakItems(items, say);
  }

  /** A text put together from pieces with good seams says its pieces one after another. */
  lemma PutSays(ps: seq<Piece>, mode: Mode, say: Token -> string)
    requires Fit(ps, Grammar(mode)) && Seams(ps, false)
    ensures TextIssues(Put(ps, Grammar(mode)), mode) == []
    ensures Speak(Tokens(Put(ps, Grammar(mode)), mode), say) == SpeakPieces(ps, say)
  {
    SubstitutionExactly(ps, mode);
    PiecesAreClean(ps, Grammar(mode));
    MeansSays(Put(ps, Grammar(mode)), PieceItems(ps), mode, say);
    SpeakPieceItems(ps, say);
  }

  /** Rendered text, finalized, says its pieces one after another. */
  lemma FinalizeRendered(ts: seq<Token>, resolve: Token -> Resolved, ps: seq<Piece>, bind: string -> string)
    requires Substitutes(ts, resolve, ps, Ir) && Seams(ps, false)
    ensures Finalize(Render(ts, resolve), bind) == Ok(SpeakPieces(ps, LateBy(bind)))
  {
    RenderIsPut(ts, resolve, ps, Ir);
    SubstitutesFit(ts, resolve, ps, Ir);
    PutSays(ps, Ir, LateBy(bind));
  }

  /** Finalizing an escaped text gives the text, whatever it holds. */
  lemma FinalizeEscape(s: string, bind: string -> string)
    ensures Finalize(Escape(s), bind) == Ok(s)
  {
    var ts, ps := [Text(s)], [Lit(s)];
    var resolve: Token -> Resolved := (t: Token) => AsIs;
    assert ps[1..] == [] && ts[1..] == [];
    assert Render(ts, resolve) == Escape(s) + Render([], resolve) == Escape(s);
    assert Contributes(ts[0], resolve, ps[0], Ir);
    assert SpeakPieces(ps, LateBy(bind)) == s + SpeakPieces([], LateBy(bind)) == s;
    assert Seams([], true) && Seams([], false);
    FinalizeRendered(ts, resolve, ps, bind);
  }

  // ---------------------------------------------------------------------------
  // The placeholders there are
  // ---------------------------------------------------------------------------

  /** A lower-case letter, then up to 31 of these, digits, underscores and, for cast keys, hyphens. */
  ghost predicate NameForm(s: string, hyphen: bool) {
    && 1 <= |s| <= 32 && s[0] in "abcdefghijklmnopqrstuvwxyz"
    && forall i | 0 <= i < |s| :: s[i] in "abcdefghijklmnopqrstuvwxyz0123456789_" || (hyphen && s[i] == '-')
  }

  ghost predicate LateForm(s: string) {
    s == "user" || (|s| == 66 && s[..2] == "l:" && forall i | 2 <= i < 66 :: s[i] in "0123456789abcdef")
  }

  lemma FormsExactly(s: string, hyphen: bool)
    ensures IsName(s, hyphen) <==> NameForm(s, hyphen)
    ensures IsLateKey(s) <==> LateForm(s)
  {
    forall c: char
      ensures IsLower(c) <==> c in "abcdefghijklmnopqrstuvwxyz"
      ensures IsDigit(c) <==> c in "0123456789"
      ensures c in "abcdefghijklmnopqrstuvwxyz0123456789_" <==> IsLower(c) || IsDigit(c) || c == '_'
      ensures c in "0123456789abcdef" <==> IsDigit(c) || 'a' <= c <= 'f'
    {
      CharSets(c);
    }
  }

  lemma RangeSet(c: char, first: char, all: string)
    requires forall i | 0 <= i < |all| :: all[i] as int == first as int + i
    ensures c in all <==> first as int <= c as int < first as int + |all|
  {
    if first as int <= c as int < first as int + |all| { assert all[c as int - first as int] == c; }
  }

  lemma CharSets(c: char)
    ensures IsLower(c) <==> c in "abcdefghijklmnopqrstuvwxyz"
    ensures IsDigit(c) <==> c in "0123456789"
    ensures c in "abcdefghijklmnopqrstuvwxyz0123456789_" <==> IsLower(c) || IsDigit(c) || c == '_'
    ensures c in "0123456789abcdef" <==> IsDigit(c) || 'a' <= c <= 'f'
  {
    var lower, digits := "abcdefghijklmnopqrstuvwxyz", "0123456789";
    RangeSet(c, 'a', lower);
    RangeSet(c, '0', digits);
    RangeSet(c, 'a', "abcdef");
    assert "abcdefghijklmnopqrstuvwxyz0123456789_" == lower + digits + "_";
    assert "0123456789abcdef" == digits + "abcdef";
  }

  lemma NamedKind(inner: string, kind: string, prefix: string, name: string)
    requires ':' !in kind && prefix == kind + ":"
    ensures var colon := IndexOf(inner, ':');
            inner == prefix + name <==> colon < |inner| && inner[..colon] == kind && inner[colon + 1..] == name
  {
    var colon := IndexOf(inner, ':');
    if inner == prefix + name { ColonAfter(kind, name); }
    if colon < |inner| { assert inner == inner[..colon] + ":" + inner[colon + 1..]; }
  }

  lemma SlotSpelling(inner: string, name: string)
    ensures var colon := IndexOf(inner, ':');
            inner == "slot:" + name <==> colon < |inner| && inner[..colon] == "slot" && inner[colon + 1..] == name
  {
    NamedKind(inner, "slot", "slot:", name);
  }

  lemma ParamSpelling(inner: string, name: string)
    ensures var colon := IndexOf(inner, ':');
            inner == "param:" + name <==> colon < |inner| && inner[..colon] == "param" && inner[colon + 1..] == name
  {
    NamedKind(inner, "param", "param:", name);
  }

  lemma CastSpelling(inner: string, name: string)
    ensures var colon := IndexOf(inner, ':');
            inner == "cast:" + name <==> colon < |inner| && inner[..colon] == "cast" && inner[colon + 1..] == name
  {
    NamedKind(inner, "cast", "cast:", name);
  }

  lemma LateSpelling(inner: string, name: string)
    ensures var colon := IndexOf(inner, ':');
            inner == "late:" + name <==> colon < |inner| && inner[..colon] == "late" && inner[colon + 1..] == name
  {
    NamedKind(inner, "late", "late:", name);
  }

  /** `inner` is of a kind the mode knows, and its name has the wrong form. */
  ghost predicate Misnamed(inner: string, mode: Mode, name: string) {
    if mode == Creation then
      || (inner == "slot:" + name && !NameForm(name, false))
      || (inner == "param:" + name && !NameForm(name, false))
      || (inner == "cast:" + name && !NameForm(name, true))
    else inner == "late:" + name && !LateForm(name)
  }

  /** Each placeholder has one spelling, in one mode; a known kind with a wrong name is told from an unknown kind. */
  lemma PlaceholderExactly(inner: string, mode: Mode, name: string)
    ensures var p := ParsePlaceholder(inner, mode);
            && (p == Known(Self) <==> mode == Creation && inner == "self")
            && (p == Known(User) <==> mode == Creation && inner == "user")
            && (p == Known(Slot(name)) <==> mode == Creation && inner == "slot:" + name && NameForm(name, false))
            && (p == Known(Param(name)) <==> mode == Creation && inner == "param:" + name && NameForm(name, false))
            && (p == Known(Cast(name)) <==> mode == Creation && inner == "cast:" + name && NameForm(name, true))
            && (p == Known(Late(name)) <==> mode == Ir && inner == "late:" + name && LateForm(name))
            && (Misnamed(inner, mode, name) ==> p == Wrong(InvalidName))
            && (p == Wrong(InvalidName) ==> exists n :: Misnamed(inner, mode, n))
  {
    NoColons(inner);
    SlotSpelling(inner, name);
    ParamSpelling(inner, name);
    CastSpelling(inner, name);
    LateSpelling(inner, name);
    FormsExactly(name, true);
    FormsExactly(name, false);
    var colon := IndexOf(inner, ':');
    if ParsePlaceholder(inner, mode) == Wrong(InvalidName) {
      var given := inner[colon + 1..];
      SlotSpelling(inner, given);
      ParamSpelling(inner, given);
      CastSpelling(inner, given);
      LateSpelling(inner, given);
      FormsExactly(given, true);
      FormsExactly(given, false);
      assert Misnamed(inner, mode, given);
    }
  }

  lemma NoColons(inner: string)
    ensures inner == "self" || inner == "user" ==> IndexOf(inner, ':') == |inner|
  {
  }

  // ---------------------------------------------------------------------------
  // Where issues point
  // ---------------------------------------------------------------------------

  /**
   * An issue points at two braces. Either nothing closes them, or what stands between them and the
   * first two closing braces is no placeholder and the issue says why.
   */
  ghost predicate Points(text: string, mode: Mode, issue: Issue) {
    && issue.offset + 2 <= |text| && text[issue.offset..issue.offset + 2] == "{{"
    && if issue.code == Unclosed then forall j :: issue.offset + 2 <= j ==> !Closing(text, j)
       else exists j :: FirstClosing(text, issue.offset, j)
                        && ParsePlaceholder(text[issue.offset + 2..j], mode) == Wrong(issue.code)
  }

  ghost predicate Closing(text: string, j: int) {
    0 <= j && j + 2 <= |text| && text[j] == '}' && text[j + 1] == '}'
  }

  /** The first closing braces after the opening ones at `at`. */
  ghost predicate FirstClosing(text: string, at: nat, j: int) {
    at + 2 <= j && Closing(text, j) && forall k | at + 2 <= k < j :: !Closing(text, k)
  }

  type Claim = Issue -> bool

  ghost function Pointing(text: string, mode: Mode): Claim {
    (issue: Issue) => Points(text, mode, issue)
  }

  /** What reading at two braces can report is as claimed. */
  ghost predicate OpeningClaimed(claim: Claim, text: string, x: Syntax, at: nat) {
    at <= |text| && Leading(text[at..]) == 2 ==>
      var end := at + CloseFrom(text[at..], 2);
      && at + 2 <= end <= |text|
      && (end == |text| ==> claim(Issue(Unclosed, at)))
      && (end < |text| ==>
            && end + 2 <= |text|
            && var p := x.parse(text[at + 2..end]); p.Wrong? ==> claim(Issue(p.code, at)))
  }

  lemma OpeningPoints(text: string, mode: Mode, at: nat)
    ensures OpeningClaimed(Pointing(text, mode), text, Grammar(mode), at)
  {
    if at <= |text| && Leading(text[at..]) == 2 {
      var end := at + CloseFrom(text[at..], 2);
      assert text[at..at + 2] == "{{" by {
        assert text[at..][0] == text[at] && text[at..][1] == text[at + 1];
      }
      ClosingFrom(text, at);
      if end < |text| { WrongIsNotUnclosed(text[at + 2..end], mode); }
    }
  }

  lemma ClosingFrom(text: string, at: nat)
    requires at + 2 <= |text|
    ensures var end := at + CloseFrom(text[at..], 2);
            && (end < |text| ==> FirstClosing(text, at, end))
            && (end == |text| ==> forall j :: at + 2 <= j ==> !Closing(text, j))
  {
    var rest := text[at..];
    forall j | at <= j ensures Closing(text, j) <==> ClosesAt(rest, j - at) {}
  }

  lemma WrongIsNotUnclosed(inner: string, mode: Mode)
    ensures ParsePlaceholder(inner, mode) != Wrong(Unclosed)
  {
  }

  ghost predicate AllClaimed(claim: Claim, issues: seq<Issue>) {
    forall i | 0 <= i < |issues| :: claim(issues[i])
  }

  lemma ClaimedBefore(claim: Claim, item: Item, more: seq<Item>)
    requires AllClaimed(claim, Issues(more)) && (item.Bad? ==> claim(Issue(item.code, item.offset)))
    ensures AllClaimed(claim, Issues([item] + more))
  {
    assert ([item] + more)[1..] == more;
  }

  lemma PairFrom(text: string, at: nat, x: Syntax)
    requires at <= |text| && Leading(text[at..]) >= 4
    ensures Items(text[at..], at, x) == [Ch('{')] + ([Ch('{')] + Items(text[at + 4..], at + 4, x))
  {
    assert text[at..][4..] == text[at + 4..];
  }

  lemma CharFrom(text: string, at: nat, x: Syntax)
    requires at < |text| && Leading(text[at..]) < 4 && Leading(text[at..]) != 2
    ensures Items(text[at..], at, x) == [Ch(text[at])] + Items(text[at + 1..], at + 1, x)
  {
    assert text[at..][1..] == text[at + 1..];
  }

  lemma {:induction false} IssuesFrom(claim: Claim, text: string, x: Syntax, at: nat)
    requires at <= |text| && forall k: nat :: OpeningClaimed(claim, text, x, k)
    ensures AllClaimed(claim, Issues(Items(text[at..], at, x)))
    decreases |text| - at
  {
    if at < |text| {
      var run := Leading(text[at..]);
      if run >= 4 {
        PairFrom(text, at, x);
        IssuesFrom(claim, text, x, at + 4);
        ClaimedBefore(claim, Ch('{'), Items(text[at + 4..], at + 4, x));
        ClaimedBefore(claim, Ch('{'), [Ch('{')] + Items(text[at + 4..], at + 4, x));
      } else if run == 2 {
        var n := CloseFrom(text[at..], 2);
        if n < |text| - at { IssuesFrom(claim, text, x, at + n + 2); }
        OpenedItems(claim, text, x, at, n);
      } else {
        CharFrom(text, at, x);
        IssuesFrom(claim, text, x, at + 1);
        ClaimedBefore(claim, Ch(text[at]), Items(text[at + 1..], at + 1, x));
      }
    }
  }

  lemma OpenedItems(claim: Claim, text: string, x: Syntax, at: nat, n: nat)
    requires at <= |text| && Leading(text[at..]) == 2 && n == CloseFrom(text[at..], 2)
    requires OpeningClaimed(claim, text, x, at)
    requires n < |text| - at ==> AllClaimed(claim, Issues(Items(text[at + n + 2..], at + n + 2, x)))
    ensures AllClaimed(claim, Issues(Items(text[at..], at, x)))
  {
    OpenFrom(text, at, n, x);
    var item := FirstItem(claim, text, x, at, n);
    var more := if n == |text| - at then [] else Items(text[at + n + 2..], at + n + 2, x);
    ClaimedBefore(claim, item, more);
  }

  lemma FirstItem(claim: Claim, text: string, x: Syntax, at: nat, n: nat) returns (item: Item)
    requires at <= |text| && Leading(text[at..]) == 2 && n == CloseFrom(text[at..], 2)
    requires OpeningClaimed(claim, text, x, at)
    ensures item == if n == |text| - at then Bad(Unclosed, at, text[at..])
                    else PlaceholderItem(text[at..][..n + 2], at, x)
    ensures item.Bad? ==> claim(Issue(item.code, item.offset))
  {
    if n == |text| - at {
      item := Bad(Unclosed, at, text[at..]);
    } else {
      InnerOf(text, at, n);
      item := PlaceholderItem(text[at..][..n + 2], at, x);
    }
  }

  lemma OpenFrom(text: string, at: nat, n: nat, x: Syntax)
    requires at <= |text| && Leading(text[at..]) == 2 && n == CloseFrom(text[at..], 2)
    ensures Items(text[at..], at, x)
            == if n == |text| - at then [Bad(Unclosed, at, text[at..])] + []
               else [PlaceholderItem(text[at..][..n + 2], at, x)] + Items(text[at + n + 2..], at + n + 2, x)
  {
    OpenStep(text[at..], at, x);
    if n < |text| - at { assert text[at..][n + 2..] == text[at + n + 2..]; }
  }

  lemma InnerOf(text: string, at: nat, n: nat)
    requires 2 <= n && at + n + 2 <= |text|
    ensures text[at..][..n + 2][2..n] == text[at + 2..at + n]
  {
    var rest := text[at..];
    assert rest[..n + 2][2..n] == rest[2..n];
    assert rest[2..n] == text[at + 2..at + n];
  }

  /** Every issue of a text points at what is wrong with it. */
  lemma IssuesPoint(text: string, mode: Mode)
    ensures forall issue <- TextIssues(text, mode) :: Points(text, mode, issue)
  {
    forall k: nat ensures OpeningClaimed(Pointing(text, mode), text, Grammar(mode), k) {
      OpeningPoints(text, mode, k);
    }
    assert text[0..] == text;
    IssuesFrom(Pointing(text, mode), text, Grammar(mode), 0);
  }
}
