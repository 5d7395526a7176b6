/** What becomes of a card text, told by how its macros are written. */
module CardLaws {
  import opened Common
  import opened Template
  import opened TemplateLaws
  import opened CardText

  // ---------------------------------------------------------------------------
  // Spellings
  // ---------------------------------------------------------------------------

  /** `s` is `word`, which is in lower case, with some of its letters possibly capital. */
  ghost predicate SpelledAs(s: string, word: string) {
    && |s| == |word|
    && forall i | 0 <= i < |s| :: s[i] == word[i] || ('A' <= s[i] <= 'Z' && s[i] as int + 32 == word[i] as int)
  }

  /** White space and line ends, by code. */
  const SPACES: seq<int> := [
    9, 10, 11, 12, 13, 32, 160, 5760, 8192, 8193, 8194, 8195, 8196, 8197, 8198, 8199, 8200, 8201, 8202,
    8232, 8233, 8239, 8287, 12288, 65279]

  ghost predicate Blank(s: string) {
    forall i | 0 <= i < |s| :: s[i] as int in SPACES
  }

  /** `s` is `word`, possibly in capitals, between white space. */
  ghost predicate Spaced(s: string, word: string) {
    exists a, b :: 0 <= a <= b <= |s| && Blank(s[..a]) && SpelledAs(s[a..b], word) && Blank(s[b..])
  }

  /** A macro between braces, `{{word}}`. */
  ghost predicate Braced(s: string, word: string) {
    |s| >= 4 && s[..2] == "{{" && s[|s| - 2..] == "}}" && Spaced(s[2..|s| - 2], word)
  }

  /** How the character may be written in a card. */
  ghost predicate SaysCharacter(s: string) {
    SpelledAs(s, "<bot>") || SpelledAs(s, "<char>") || Braced(s, "char")
  }

  /** How the user may be written in a card. */
  ghost predicate SaysUser(s: string) {
    SpelledAs(s, "<user>") || Braced(s, "user")
  }

  lemma SpaceExactly(c: char)
    ensures IsSpace(c) <==> c as int in SPACES
  {
    var v := c as int;
    if 9 <= v <= 13 { assert SPACES[v - 9] == v; }
    if 0x2000 <= v <= 0x200a { assert SPACES[v - 0x2000 + 8] == v; }
    assert SPACES[5] == 0x20 && SPACES[6] == 0xa0 && SPACES[7] == 0x1680;
    assert SPACES[19] == 0x2028 && SPACES[20] == 0x2029 && SPACES[21] == 0x202f;
    assert SPACES[22] == 0x205f && SPACES[23] == 0x3000 && SPACES[24] == 0xfeff;
  }

  lemma BlankExactly(s: string)
    ensures Blank(s) <==> forall i | 0 <= i < |s| :: IsSpace(s[i])
  {
    forall i | 0 <= i < |s| ensures IsSpace(s[i]) <==> s[i] as int in SPACES { SpaceExactly(s[i]); }
  }

  /** A word without capitals. */
  ghost predicate Small(word: string) {
    forall i | 0 <= i < |word| :: !('A' <= word[i] <= 'Z')
  }

  lemma LowerExactly(s: string, word: string)
    requires Small(word)
    ensures Lower(s) == word <==> SpelledAs(s, word)
  {
    if Lower(s) == word {
      forall i | 0 <= i < |s|
        ensures s[i] == word[i] || ('A' <= s[i] <= 'Z' && s[i] as int + 32 == word[i] as int)
      {
        assert Lower(s)[i] == LowerChar(s[i]);
      }
    }
    if SpelledAs(s, word) {
      forall i | 0 <= i < |s| ensures Lower(s)[i] == word[i] {
        assert s[i] == word[i] || ('A' <= s[i] <= 'Z' && s[i] as int + 32 == word[i] as int);
      }
    }
  }

  lemma {:induction false} StartTrimmed(s: string) returns (a: nat)
    ensures a <= |s| && TrimStart(s) == s[a..] && (forall i | 0 <= i < a :: IsSpace(s[i]))
    ensures a < |s| ==> !IsSpace(s[a])
  {
    a := 0;
    if s != "" && IsSpace(s[0]) {
      var rest := StartTrimmed(s[1..]);
      a := rest + 1;
      forall i | 0 <= i < a ensures IsSpace(s[i]) { if i > 0 { assert s[1..][i - 1] == s[i]; } }
    }
  }

  lemma {:induction false} EndTrimmed(s: string) returns (b: nat)
    ensures b <= |s| && TrimEnd(s) == s[..b] && (forall i | b <= i < |s| :: IsSpace(s[i]))
    ensures b > 0 ==> !IsSpace(s[b - 1])
    decreases |s|
  {
    b := |s|;
    if s != "" && IsSpace(s[|s| - 1]) {
      var front := s[..|s| - 1];
      b := EndTrimmed(front);
      assert front[..b] == s[..b];
      forall i | b <= i < |s| ensures IsSpace(s[i]) { if i < |front| { assert front[i] == s[i]; } }
      assert b > 0 ==> front[b - 1] == s[b - 1];
    }
  }

  /** Trimming takes off white space at both ends, and all of it. */
  lemma Trimmed(s: string) returns (a: nat, b: nat)
    ensures a <= b <= |s| && Trim(s) == s[a..b]
    ensures (forall i | 0 <= i < a :: IsSpace(s[i])) && (forall i | b <= i < |s| :: IsSpace(s[i]))
    ensures a < b ==> !IsSpace(s[a]) && !IsSpace(s[b - 1])
  {
    a := StartTrimmed(s);
    var rest := s[a..];
    var n := EndTrimmed(rest);
    b := a + n;
    assert rest[..n] == s[a..b];
    forall i | b <= i < |s| ensures IsSpace(s[i]) { assert rest[i - a] == s[i]; }
    assert n > 0 ==> rest[n - 1] == s[b - 1] && rest[0] == s[a];
  }

  ghost predicate NoSpaces(s: string) {
    forall i | 0 <= i < |s| :: !IsSpace(s[i])
  }

  lemma SpelledIsSolid(s: string, word: string)
    requires SpelledAs(s, word) && NoSpaces(word)
    ensures NoSpaces(s)
  {
  }

  /** What stands between white space is what trimming leaves. */
  lemma CoreIsTrimmed(s: string, a: nat, b: nat)
    requires a < b <= |s| && Blank(s[..a]) && Blank(s[b..]) && NoSpaces(s[a..b])
    ensures Trim(s) == s[a..b]
  {
    var c, d := Trimmed(s);
    BlankExactly(s[..a]);
    BlankExactly(s[b..]);
    assert forall i | 0 <= i < a :: IsSpace(s[i]) by {
      forall i | 0 <= i < a ensures IsSpace(s[i]) { assert s[..a][i] == s[i]; }
    }
    assert forall i | b <= i < |s| :: IsSpace(s[i]) by {
      forall i | b <= i < |s| ensures IsSpace(s[i]) { assert s[b..][i - b] == s[i]; }
    }
    assert !IsSpace(s[a]) by { assert s[a..b][0] == s[a]; }
    assert !IsSpace(s[b - 1]) by { assert s[a..b][b - 1 - a] == s[b - 1]; }
    assert c == a && d == b;
  }

  lemma SpacedExactly(s: string, word: string)
    requires word != "" && Small(word) && NoSpaces(word)
    ensures Lower(Trim(s)) == word <==> Spaced(s, word)
  {
    var a, b := Trimmed(s);
    LowerExactly(Trim(s), word);
    if Lower(Trim(s)) == word {
      BlankExactly(s[..a]);
      BlankExactly(s[b..]);
      assert Blank(s[..a]) && SpelledAs(s[a..b], word) && Blank(s[b..]);
    }
    if Spaced(s, word) {
      var c, d :| 0 <= c <= d <= |s| && Blank(s[..c]) && SpelledAs(s[c..d], word) && Blank(s[d..]);
      SpelledIsSolid(s[c..d], word);
      CoreIsTrimmed(s, c, d);
    }
  }

  /** A macro is the character's or the user's by what stands between its braces, and else is unknown. */
  lemma MacroExactly(inner: string)
    ensures MacroOf(inner) == Some(Self) <==> Spaced(inner, "char")
    ensures MacroOf(inner) == Some(User) <==> Spaced(inner, "user")
    ensures MacroOf(inner).Some? ==> MacroOf(inner).value in {Self, User}
  {
    SpacedExactly(inner, "char");
    SpacedExactly(inner, "user");
  }

  lemma TagExactly(tag: string)
    ensures TagOf(tag) == Some(Self) <==> SpelledAs(tag, "<bot>") || SpelledAs(tag, "<char>")
    ensures TagOf(tag) == Some(User) <==> SpelledAs(tag, "<user>")
    ensures TagOf(tag).Some? ==> TagOf(tag).value in {Self, User}
  {
    LowerExactly(tag, "<bot>");
    LowerExactly(tag, "<char>");
    LowerExactly(tag, "<user>");
  }

  // ---------------------------------------------------------------------------
  // What each stretch of a card is
  // ---------------------------------------------------------------------------

  /** The text starts with a tag of the older format that takes up `n` characters. */
  ghost predicate TagTo(text: string, n: int) {
    && 0 <= n <= |text|
    && (SpelledAs(text[..n], "<bot>") || SpelledAs(text[..n], "<char>") || SpelledAs(text[..n], "<user>"))
  }

  lemma TagShape(text: string, n: int)
    requires TagTo(text, n)
    ensures 5 <= n <= 6 && text[0] == '<' && IndexOf(text, '>') == n - 1
  {
    var tag := text[..n];
    assert tag[0] == text[0] && tag[n - 1] == text[n - 1] == '>';
    forall j | 0 <= j < n - 1 ensures text[j] != '>' { assert tag[j] == text[j]; }
  }

  lemma TagFound(text: string)
    requires text != "" && text[0] == '<'
    ensures match FirstSegment(text)
            case Macro(tok, w) => TagTo(text, |w|) && w <= text && (tok == User <==> SpelledAs(w, "<user>"))
                                  && tok in {Self, User}
            case Verbatim(s) => s == text[..1] && forall n :: !TagTo(text, n)
            case Unknown(_) => false
  {
    var close := IndexOf(text, '>');
    if 0 < close <= 5 && close < |text| { TagExactly(text[..close + 1]); }
    forall n | TagTo(text, n) ensures n == close + 1 && 0 < close <= 5 { TagShape(text, n); }
  }

  ghost predicate ClosedAt(text: string, k: int) {
    0 <= k <= |text| - 2 && text[k..k + 2] == "}}"
  }

  /** `}}` stands at `j` and nowhere before it, after the opening. */
  ghost predicate FirstClose(text: string, j: int) {
    2 <= j && ClosedAt(text, j) && forall k | 2 <= k < j :: !ClosedAt(text, k)
  }

  lemma CloseFound(text: string, j: int)
    requires |text| >= 2
    ensures FirstClose(text, j) <==> j == CloseFrom(text, 2) < |text|
  {
    forall k: nat ensures ClosedAt(text, k) <==> ClosesAt(text, k) {
      if k + 2 <= |text| { assert text[k..k + 2] == [text[k], text[k + 1]]; }
    }
    var end := CloseFrom(text, 2);
    if FirstClose(text, j) {
      assert ClosesAt(text, j) && j >= end;
      assert end < |text| && ClosedAt(text, end);
    }
  }

  /**
   * The stretch a text begins with. A tag of the older format is a macro; two braces open a macro
   * that ends at the next two closing braces, known or not, or else keep all that follows as it
   * is; any other character stands for itself.
   */
  lemma SegmentExactly(text: string)
    requires text != ""
    ensures var g := FirstSegment(text);
            if text[0] == '<' then
              if g.Macro? then TagTo(text, |g.written|) && g.written <= text
              else g == Verbatim(text[..1]) && forall n :: !TagTo(text, n)
            else if "{{" <= text then
              if g.Verbatim? then g.s == text && forall j :: !FirstClose(text, j)
              else exists j ::
                && FirstClose(text, j) && Written(g) == text[..j + 2]
                && (g.Macro? <==> Spaced(text[2..j], "char") || Spaced(text[2..j], "user"))
            else g == Verbatim(text[..1])
    ensures var g := FirstSegment(text);
            g.Macro? ==> (g.tok == Self <==> SaysCharacter(g.written)) && (g.tok == User <==> SaysUser(g.written))
  {
    var g := FirstSegment(text);
    if text[0] == '<' {
      TagFound(text);
      if g.Macro? { TagSays(g.written); }
    } else if "{{" <= text {
      assert Leading(text) >= 2;
      var end := CloseFrom(text, 2);
      forall j ensures FirstClose(text, j) <==> j == end < |text| { CloseFound(text, j); }
      if end < |text| {
        MacroExactly(text[2..end]);
        assert FirstClose(text, end) && Written(g) == text[..end + 2];
        if g.Macro? { MacroSays(text, end); }
      }
    } else {
      assert Leading(text) < 2;
    }
  }

  lemma TagSays(w: string)
    requires w != "" && TagTo(w, |w|)
    ensures TagOf(w).Some?
    ensures TagOf(w) == Some(Self) <==> SaysCharacter(w)
    ensures TagOf(w) == Some(User) <==> SaysUser(w)
  {
    assert w[..|w|] == w;
    TagShape(w, |w|);
    TagExactly(w);
    assert |w| >= 4 ==> w[..2][0] == w[0];
  }

  lemma MacroSays(text: string, end: nat)
    requires "{{" <= text && FirstClose(text, end) && MacroOf(text[2..end]).Some?
    ensures var w := text[..end + 2];
            && (MacroOf(text[2..end]) == Some(Self) <==> SaysCharacter(w))
            && (MacroOf(text[2..end]) == Some(User) <==> SaysUser(w))
  {
    var w := text[..end + 2];
    assert w[2..|w| - 2] == text[2..end] && w[..2] == "{{" && w[|w| - 2..] == "}}" && w[0] == '{';
    MacroExactly(text[2..end]);
  }

  // ---------------------------------------------------------------------------
  // Reading a card back
  // ---------------------------------------------------------------------------

  /** A macro written the way it is read back. */
  ghost predicate Plain(g: Segment) {
    g.Macro? ==> g.written == "{{char}}" || g.written == "{{user}}"
  }

  /** Every macro of a card is the character's or the user's, as it is written. */
  lemma {:induction false} MacrosExactly(text: string)
    ensures forall g <- Segments(text) | g.Macro? ::
              && (g.tok == Self <==> SaysCharacter(g.written)) && (g.tok == User <==> SaysUser(g.written))
              && g.tok in {Self, User}
    decreases |text|
  {
    if text != "" {
      var g := FirstSegment(text);
      SegmentExactly(text);
      FirstIsRecognised(text);
      MacrosExactly(text[|Written(g)|..]);
    }
  }

  lemma PlainSays()
    ensures SaysCharacter("{{char}}") && !SaysUser("{{char}}") && SaysUser("{{user}}") && !SaysCharacter("{{user}}")
  {
    PlainBraced("char");
    PlainBraced("user");
    assert "{{char}}" == "{{" + "char" + "}}" && "{{user}}" == "{{" + "user" + "}}";
    MacroExactly("char");
    MacroExactly("user");
    assert "{{char}}"[2..6] == "char" && "{{user}}"[2..6] == "user";
    assert "{{char}}"[0] == '{' && "{{user}}"[0] == '{';
  }

  lemma PlainBraced(word: string)
    ensures Braced("{{" + word + "}}", word)
  {
    var s := "{{" + word + "}}";
    assert s[..2] == "{{" && s[|s| - 2..] == "}}" && s[2..|s| - 2] == word;
    assert word[..0] == "" && word[0..|word|] == word && word[|word|..] == "";
    assert Blank(word[..0]) && SpelledAs(word[0..|word|], word) && Blank(word[|word|..]);
  }

  /** A macro that is not plain differs from the plain one within the length of both. */
  lemma NotPlainDiffers(g: Segment) returns (i: nat)
    requires g.Macro? && !Plain(g) && g.tok in {Self, User}
    requires (g.tok == Self <==> SaysCharacter(g.written)) && (g.tok == User <==> SaysUser(g.written))
    ensures i < |g.written| && i < |Canonical(g)| && g.written[i] != Canonical(g)[i]
  {
    var w, word := g.written, if g.tok == Self then "char" else "user";
    assert Canonical(g) == "{{" + word + "}}";
    if w[0] == '<' {
      i := 0;
    } else {
      NoTag(w);
      i := BracedDiffers(w, word);
    }
  }

  lemma NoTag(w: string)
    requires w != "" && w[0] != '<'
    ensures !SpelledAs(w, "<bot>") && !SpelledAs(w, "<char>") && !SpelledAs(w, "<user>")
  {
  }

  lemma CoreDiffers(inner: string, word: string, a: nat, b: nat) returns (j: nat)
    requires a <= b <= |inner| && Blank(inner[..a]) && SpelledAs(inner[a..b], word) && Blank(inner[b..])
    requires NoSpaces(word) && word != "" && inner != word
    ensures j < |inner| && j <= |word| && inner[j] != if j < |word| then word[j] else '}'
  {
    assert inner[b..] == "" ==> inner == inner[..b];
    if a > 0 {
      j := 0;
      SpaceExactly(inner[0]);
      assert inner[..a][0] == inner[0];
    } else if k: nat :| k < |word| && inner[k] != word[k] {
      j := k;
    } else {
      j := |word|;
      assert inner[..b] == word;
      SpaceExactly(inner[b]);
      assert inner[b..][0] == inner[b];
      SpaceExactly('}');
    }
  }

  lemma InBraces(word: string, j: nat)
    requires j <= |word|
    ensures ("{{" + word + "}}")[j + 2] == if j < |word| then word[j] else '}'
  {
  }

  lemma BracesMatch(w: string, word: string)
    requires |w| >= 4 && w[..2] == "{{" && w[|w| - 2..] == "}}"
    ensures w == "{{" + word + "}}" <==> w[2..|w| - 2] == word
  {
    assert w == w[..2] + w[2..|w| - 2] + w[|w| - 2..];
    assert ("{{" + word + "}}")[2..|word| + 2] == word;
  }

  lemma BracedDiffers(w: string, word: string) returns (i: nat)
    requires Braced(w, word) && w != "{{" + word + "}}" && NoSpaces(word) && word != ""
    ensures i < |w| && i < |word| + 4 && w[i] != ("{{" + word + "}}")[i]
  {
    var inner := w[2..|w| - 2];
    BracesMatch(w, word);
    var a, b :| 0 <= a <= b <= |inner| && Blank(inner[..a]) && SpelledAs(inner[a..b], word) && Blank(inner[b..]);
    var j := CoreDiffers(inner, word, a, b);
    i := j + 2;
    InBraces(word, j);
  }

  lemma {:induction false} JoinPlain(gs: seq<Segment>)
    requires forall g <- gs | g.Macro? ::
               && (g.tok == Self <==> SaysCharacter(g.written)) && (g.tok == User <==> SaysUser(g.written))
               && g.tok in {Self, User}
    ensures CardText.Join(gs, Canonical) == CardText.Join(gs, Written) <==> forall g <- gs :: Plain(g)
  {
    if gs != [] {
      var g, rest := gs[0], gs[1..];
      assert gs == [g] + rest;
      JoinPlain(rest);
      var c, w := CardText.Join(rest, Canonical), CardText.Join(rest, Written);
      if Plain(g) {
        PlainSays();
        assert Canonical(g) == Written(g);
        assert Written(g) + c == Written(g) + w <==> c == w by {
          if Written(g) + c == Written(g) + w {
            assert c == (Written(g) + c)[|Written(g)|..] && w == (Written(g) + w)[|Written(g)|..];
          }
        }
      } else {
        var i := NotPlainDiffers(g);
        assert (Canonical(g) + c)[i] == Canonical(g)[i] && (Written(g) + w)[i] == Written(g)[i];
      }
    }
  }

  /**
   * The template of a card is always valid and has no placeholders but the two, and the card text
   * comes back from it exactly when its macros are written `{{char}}` and `{{user}}`.
   */
  lemma RoundTripExactly(text: string)
    ensures TextIssues(ToTemplate(text), Creation) == []
    ensures forall tok <- Tokens(ToTemplate(text), Creation) :: tok.Text? || tok == Self || tok == User
    ensures ReadBack(ToTemplate(text)) == text
            <==> forall g <- Segments(text) | g.Macro? :: g.written == "{{char}}" || g.written == "{{user}}"
  {
    CardLaw(text);
    MacrosExactly(text);
    JoinPlain(Segments(text));
  }

  /** A template is made stretch by stretch: `{{self}}`, `{{user}}`, or the stretch with its braces escaped. */
  lemma {:induction false} TemplateByParts(gs: seq<Segment>) returns (parts: seq<string>)
    requires forall g <- gs | g.Macro? :: g.tok in {Self, User}
    ensures Put(PiecesOf(gs), Grammar(Creation)) == Flat(parts) && |parts| == |gs|
    ensures forall i | 0 <= i < |gs| :: parts[i] == PartOf(gs[i])
  {
    parts := [];
    if gs != [] {
      assert gs == [gs[0]] + gs[1..];
      var rest := TemplateByParts(gs[1..]);
      var part := PartOf(gs[0]);
      parts := [part] + rest;
      assert PiecesOf(gs)[1..] == PiecesOf(gs[1..]) && parts[1..] == rest;
      FirstPart(gs);
      forall i | 0 < i < |gs| ensures gs[i] == gs[1..][i - 1] && parts[i] == rest[i - 1] {}
    }
  }

  ghost function PartOf(g: Segment): string {
    if g.Macro? then (if g.tok == Self then "{{self}}" else "{{user}}") else Escape(Written(g))
  }

  lemma FirstPart(gs: seq<Segment>)
    requires gs != [] && (gs[0].Macro? ==> gs[0].tok in {Self, User})
    ensures Put(PiecesOf(gs), Grammar(Creation)) == PartOf(gs[0]) + Put(PiecesOf(gs[1..]), Grammar(Creation))
  {
    assert PiecesOf(gs)[1..] == PiecesOf(gs[1..]);
    if gs[0].Macro? { TwoSpelled(); }
  }

  lemma TwoSpelled()
    ensures Grammar(Creation).Spell(Self) == "{{self}}" && Grammar(Creation).Spell(User) == "{{user}}"
  {
    assert "{{" + "self" + "}}" == "{{self}}" && "{{" + "user" + "}}" == "{{user}}";
  }

  /** What a card's template is, by the way the card is written. */
  lemma TemplateExactly(text: string) returns (parts: seq<string>)
    ensures ToTemplate(text) == Flat(parts) && |parts| == |Segments(text)|
    ensures forall i | 0 <= i < |parts| ::
              var g := Segments(text)[i];
              parts[i] == if g.Macro? then (if SaysCharacter(g.written) then "{{self}}" else "{{user}}")
                          else Escape(Written(g))
    ensures forall g <- Segments(text) | g.Macro? :: SaysCharacter(g.written) <==> !SaysUser(g.written)
  {
    var gs := Segments(text);
    MacrosExactly(text);
    parts := TemplateByParts(gs);
    forall i | 0 <= i < |gs| ensures gs[i] in gs {}
  }

  /** What is reported: the unknown macros, in order and as they are written. */
  ghost function IsUnknown(): Segment -> bool {
    (g: Segment) => g.Unknown?
  }

  lemma {:induction false} NotesExactly(gs: seq<Segment>)
    ensures |Notes(gs)| == |Filter(IsUnknown(), gs)|
    ensures forall i | 0 <= i < |Notes(gs)| :: Notes(gs)[i] == Written(Filter(IsUnknown(), gs)[i])
  {
    if gs != [] { NotesExactly(gs[1..]); }
  }
}
