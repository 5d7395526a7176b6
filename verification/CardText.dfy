/**
 * Turning the text of a character card into a template: macros for the character and the user
 * become placeholders, everything else becomes literal text.
 */
module CardText {
  import opened Common
  import opened Template
  import opened TemplateLaws

  // ---------------------------------------------------------------------------
  // Recognising macros
  // ---------------------------------------------------------------------------

  function LowerChar(c: char): char {
    if 'A' <= c <= 'Z' then (c as int + 32) as char else c
  }

  /** Lower case, as far as the tags and macros below can tell. */
  function Lower(s: string): (r: string)
    ensures |r| == |s|
  {
    seq(|s|, i requires 0 <= i < |s| => LowerChar(s[i]))
  }

  /** The white space and line ends `trim` removes. */
  predicate IsSpace(c: char) {
    var v := c as int;
    || 0x09 <= v <= 0x0d || v == 0x20 || v == 0xa0 || v == 0x1680 || 0x2000 <= v <= 0x200a
    || v == 0x2028 || v == 0x2029 || v == 0x202f || v == 0x205f || v == 0x3000 || v == 0xfeff
  }

  function TrimStart(s: string): string {
    if s != "" && IsSpace(s[0]) then TrimStart(s[1..]) else s
  }

  function TrimEnd(s: string): string {
    if s != "" && IsSpace(s[|s| - 1]) then TrimEnd(s[..|s| - 1]) else s
  }

  function Trim(s: string): string {
    TrimEnd(TrimStart(s))
  }

  /** What a macro `{{inner}}` stands for. */
  function MacroOf(inner: string): Option<Token> {
    var key := Lower(Trim(inner));
    if key == "char" then Some(Self)
    else if key == "user" then Some(User)
    else None
  }

  /** What a tag of the older format stands for. */
  function TagOf(tag: string): Option<Token> {
    var t := Lower(tag);
    if t == "<bot>" || t == "<char>" then Some(Self)
    else if t == "<user>" then Some(User)
    else None
  }

  /** A stretch of a card: text kept as it is, a macro that is not known, or one that is and how it was written. */
  datatype Segment = Verbatim(s: string) | Unknown(s: string) | Macro(tok: Token, written: string)

  /** The tag at the start of the text, which begins with `<` and is at most six long. */
  function TagAt(text: string): Option<Segment> {
    var close := IndexOf(text, '>');
    if 0 < close <= 5 && close < |text| then
      match TagOf(text[..close + 1])
      case Some(tok) => Some(Macro(tok, text[..close + 1]))
      case None => None
    else None
  }

  /** The segment the text starts with; it takes up at least one character. */
  function FirstSegment(text: string): (g: Segment)
    requires text != ""
    ensures var w := Written(g); w != "" && w <= text
  {
    if text[0] == '<' then
      match TagAt(text)
      case Some(g) => g
      case None => Verbatim(text[..1])
    else if Leading(text) >= 2 then
      var end := CloseFrom(text, 2);
      if end == |text| then Verbatim(text)
      else
        match MacroOf(text[2..end])
        case Some(tok) => Macro(tok, text[..end + 2])
        case None => Unknown(text[..end + 2])
    else Verbatim(text[..1])
  }

  function Written(g: Segment): string {
    match g case Verbatim(s) => s case Unknown(s) => s case Macro(_, w) => w
  }

  function Segments(text: string): seq<Segment>
    decreases |text|
  {
    if text == "" then []
    else [FirstSegment(text)] + Segments(text[|Written(FirstSegment(text))|..])
  }

  // ---------------------------------------------------------------------------
  // The template, and reading it back
  // ---------------------------------------------------------------------------

  function PieceOf(g: Segment): Piece {
    match g case Verbatim(s) => Lit(s) case Unknown(s) => Lit(s) case Macro(tok, _) => Keep(tok)
  }

  function PiecesOf(gs: seq<Segment>): seq<Piece> {
    if gs == [] then [] else [PieceOf(gs[0])] + PiecesOf(gs[1..])
  }

  function ToTemplate(text: string): string {
    Put(PiecesOf(Segments(text)), Grammar(Creation))
  }

  /** Unknown macros, which are kept as text and reported. */
  function Notes(gs: seq<Segment>): seq<string> {
    if gs == [] then []
    else if gs[0].Unknown? then [gs[0].s] + Notes(gs[1..])
    else Notes(gs[1..])
  }

  /** How a placeholder is written in a card. */
  function MacroText(tok: Token): string {
    match tok case Self => "{{char}}" case User => "{{user}}" case _ => ""
  }

  /** A card text again: the canonical macros for the two placeholders, and text as it is. */
  function ReadBack(template: string): string {
    Speak(Tokens(template, Creation), MacroText)
  }

  function Canonical(g: Segment): string {
    match g case Verbatim(s) => s case Unknown(s) => s case Macro(tok, _) => MacroText(tok)
  }

  function Join(gs: seq<Segment>, as_: Segment -> string): string {
    if gs == [] then "" else as_(gs[0]) + Join(gs[1..], as_)
  }

  // ---------------------------------------------------------------------------
  // The segments make up the text
  // ---------------------------------------------------------------------------

  /** A macro in one of the spellings that are recognised. */
  ghost predicate Recognised(g: Segment) {
    g.Macro? ==>
      || TagOf(g.written) == Some(g.tok)
      || (|g.written| >= 4 && g.written[..2] == "{{" && g.written[|g.written| - 2..] == "}}"
          && MacroOf(g.written[2..|g.written| - 2]) == Some(g.tok))
  }

  lemma FirstIsRecognised(text: string)
    requires text != ""
    ensures Recognised(FirstSegment(text))
    ensures FirstSegment(text).Macro? ==> FirstSegment(text).tok in {Self, User}
  {
    if text[0] != '<' && Leading(text) >= 2 {
      var end := CloseFrom(text, 2);
      if end < |text| {
        var w := text[..end + 2];
        assert w[2..|w| - 2] == text[2..end];
      }
    }
  }

  /** The segments, as written, are the text; the macros among them are recognised ones. */
  lemma {:induction false} SegmentsCover(text: string)
    ensures Join(Segments(text), Written) == text
    ensures forall i | 0 <= i < |Segments(text)| :: Recognised(Segments(text)[i])
    ensures forall i | 0 <= i < |Segments(text)| :: Segments(text)[i].Macro? ==> Segments(text)[i].tok in {Self, User}
    decreases |text|
  {
    if text != "" {
      var g := FirstSegment(text);
      var rest := text[|Written(g)|..];
      FirstIsRecognised(text);
      SegmentsCover(rest);
      assert Segments(text)[1..] == Segments(rest);
      assert text == Written(g) + rest;
      assert forall i | 0 < i < |Segments(text)| :: Segments(text)[i] == Segments(rest)[i - 1];
    }
  }

  // ---------------------------------------------------------------------------
  // The template is valid, and says what the card said
  // ---------------------------------------------------------------------------

  /** No literal piece continues a run of braces that another one has begun. */
  lemma {:induction false} SegmentsSeams(text: string, odd: bool)
    requires odd ==> Leading(text) == 0
    ensures Seams(PiecesOf(Segments(text)), odd)
    decreases |text|
  {
    if text != "" {
      var g := FirstSegment(text);
      var rest := text[|Written(g)|..];
      assert PiecesOf(Segments(text))[1..] == PiecesOf(Segments(rest)) by {
        assert Segments(text)[1..] == Segments(rest);
      }
      if g.Macro? {
        SegmentsSeams(rest, false);
      } else {
        VerbatimSeam(text, odd);
        var next := if Leading(g.s) == |g.s| then odd || Leading(g.s) % 2 == 1 else Trailing(g.s) % 2 == 1;
        SegmentsSeams(rest, next);
      }
    }
  }

  lemma SingleSeam(text: string, odd: bool)
    requires |text| > 1 && (odd ==> Leading(text) == 0) && FirstSegment(text).Verbatim? && |FirstSegment(text).s| == 1
    ensures var s := text[..1];
            && !(odd && Leading(s) % 2 == 1) && Trailing(s) == Leading(s)
            && (Leading(s) == 1 ==> Leading(text[1..]) == 0)
  {
    assert text[0] == '{' ==> text[1] != '{';
  }

  lemma ClosedSeam(text: string, odd: bool)
    requires text != "" && (odd ==> Leading(text) == 0) && FirstSegment(text).Unknown?
    ensures var s := FirstSegment(text).s;
            |s| > 0 && !odd && Leading(s) < |s| && Trailing(s) == 0
  {
    var s := FirstSegment(text).s;
    assert s[|s| - 1] == '}';
  }

  lemma VerbatimSeam(text: string, odd: bool)
    requires text != "" && !FirstSegment(text).Macro? && (odd ==> Leading(text) == 0)
    ensures var s := FirstSegment(text).s;
            var next := if Leading(s) == |s| then odd || Leading(s) % 2 == 1 else Trailing(s) % 2 == 1;
            && !(odd && Leading(s) % 2 == 1)
            && (next ==> Leading(text[|s|..]) == 0)
  {
    var s := FirstSegment(text).s;
    assert s == text[..|s|];
    if |s| == |text| {
      assert text[|s|..] == "";
    } else if FirstSegment(text).Unknown? {
      ClosedSeam(text, odd);
    } else {
      SingleSeam(text, odd);
    }
  }

  lemma {:induction false} PiecesAsSegments(gs: seq<Segment>)
    ensures |PiecesOf(gs)| == |gs| && forall i | 0 <= i < |gs| :: PiecesOf(gs)[i] == PieceOf(gs[i])
    ensures SpeakPieces(PiecesOf(gs), MacroText) == Join(gs, Canonical)
  {
    if gs != [] {
      PiecesAsSegments(gs[1..]);
      assert PiecesOf(gs)[1..] == PiecesOf(gs[1..]);
    }
  }

  /**
   * The template made from a card is always valid and has no placeholders but the two; read back
   * it is the card, except for how recognised macros were spelled.
   */
  lemma CardLaw(text: string)
    ensures TextIssues(ToTemplate(text), Creation) == []
    ensures forall tok <- Tokens(ToTemplate(text), Creation) :: tok.Text? || tok == Self || tok == User
    ensures ReadBack(ToTemplate(text)) == Join(Segments(text), Canonical)
    ensures Join(Segments(text), Written) == text
    ensures forall g <- Segments(text) :: Recognised(g)
  {
    var gs := Segments(text);
    var ps := PiecesOf(gs);
    SegmentsCover(text);
    PiecesAsSegments(gs);
    SegmentsSeams(text, false);
    PutSays(ps, Creation, MacroText);
    CardTokens(text);
  }

  lemma CardTokens(text: string)
    requires Fit(PiecesOf(Segments(text)), Grammar(Creation)) && Seams(PiecesOf(Segments(text)), false)
    ensures forall tok <- Tokens(ToTemplate(text), Creation) :: tok.Text? || tok == Self || tok == User
  {
    var ps := PiecesOf(Segments(text));
    SubstitutionExactly(ps, Creation);
    SegmentsCover(text);
    PiecesAsSegments(Segments(text));
    forall tok <- Merged(ps) ensures tok.Text? || tok == Self || tok == User {
      MergedTokens(ps, tok);
    }
  }

  lemma {:induction false} PieceHoles(ps: seq<Piece>, i: nat)
    requires i < |PieceItems(ps)| && PieceItems(ps)[i].Hole?
    ensures Keep(PieceItems(ps)[i].tok) in ps
  {
    var now := if ps[0].Lit? then Chars(ps[0].s) else [Hole(ps[0].tok)];
    assert PieceItems(ps) == now + PieceItems(ps[1..]);
    if i >= |now| {
      PieceHoles(ps[1..], i - |now|);
      assert Keep(PieceItems(ps)[i].tok) in ps[1..];
    }
  }

  lemma {:induction false} GroupHoles(items: seq<Item>, buf: string, tok: Token)
    requires tok in Group(items, buf) && !tok.Text?
    ensures Hole(tok) in items
    decreases |items|
  {
    if items != [] {
      var more := items[1..];
      assert forall item | item in more :: item in items;
      match items[0]
      case Ch(c) => GroupHoles(more, buf + [c], tok);
      case Bad(_, _, raw) => GroupHoles(more, buf + raw, tok);
      case Hole(t) =>
        assert items[0] in items;
        if tok != t { GroupHoles(more, "", tok); }
    }
  }

  lemma MergedTokens(ps: seq<Piece>, tok: Token)
    requires tok in Merged(ps)
    ensures tok.Text? || Keep(tok) in ps
  {
    if !tok.Text? {
      GroupHoles(PieceItems(ps), "", tok);
      var i :| 0 <= i < |PieceItems(ps)| && PieceItems(ps)[i] == Hole(tok);
      PieceHoles(ps, i);
    }
  }
}
