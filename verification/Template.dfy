/**
 * The template language: literal text, placeholders `{{...}}`, and `{{{{` for a literal `{{`.
 * A run of braces stands for pairs in groups of four; what remains of the run is nothing, a
 * literal brace, a placeholder, or a literal brace before a placeholder.
 */
module Template {
  import opened Common

  datatype Token =
    | Text(v: string)
    | Self
    | User
    | Slot(name: string)
    | Cast(name: string)
    | Param(name: string)
    | Late(key: string)

  datatype Mode = Creation | Ir

  datatype IssueCode = UnknownPlaceholder | Unclosed | InvalidName

  datatype Issue = Issue(code: IssueCode, offset: nat)

  // ---------------------------------------------------------------------------
  // Names and placeholders
  // ---------------------------------------------------------------------------

  predicate IsLower(c: char) { 'a' <= c <= 'z' }

  predicate IsDigit(c: char) { '0' <= c <= '9' }

  /** `[a-z][a-z0-9_]{0,31}`, for cast keys with `-` as well. */
  predicate IsName(s: string, hyphen: bool) {
    && 1 <= |s| <= 32 && IsLower(s[0])
    && (forall i | 0 <= i < |s| :: IsLower(s[i]) || IsDigit(s[i]) || s[i] == '_' || (hyphen && s[i] == '-'))
  }

  /** `user` or `l:` and 64 lower-case hexadecimal digits. */
  predicate IsLateKey(s: string) {
    || s == "user"
    || (|s| == 66 && s[0] == 'l' && s[1] == ':' && forall i | 2 <= i < 66 :: IsDigit(s[i]) || 'a' <= s[i] <= 'f')
  }

  datatype Parsed = Known(tok: Token) | Wrong(code: IssueCode)

  /** `s.indexOf(c)`, or the length. */
  function IndexOf(s: string, c: char): (i: nat)
    ensures i <= |s| && (i < |s| ==> s[i] == c) && (forall j | 0 <= j < i :: s[j] != c)
  {
    if s == [] || s[0] == c then 0 else 1 + IndexOf(s[1..], c)
  }

  function Checked(ok: bool, tok: Token): Parsed {
    if ok then Known(tok) else Wrong(InvalidName)
  }

  function ParsePlaceholder(inner: string, mode: Mode): Parsed {
    if inner == "self" && mode == Creation then Known(Self)
    else if inner == "user" && mode == Creation then Known(User)
    else
      var colon := IndexOf(inner, ':');
      if colon == |inner| then Wrong(UnknownPlaceholder)
      else
        var kind, name := inner[..colon], inner[colon + 1..];
        match mode
        case Creation =>
          if kind == "cast" then Checked(IsName(name, true), Cast(name))
          else if kind == "slot" then Checked(IsName(name, false), Slot(name))
          else if kind == "param" then Checked(IsName(name, false), Param(name))
          else Wrong(UnknownPlaceholder)
        case Ir =>
          if kind == "late" then Checked(IsLateKey(name), Late(name))
          else Wrong(UnknownPlaceholder)
  }

  function InnerText(tok: Token): string {
    match tok
    case Text(v) => v
    case Self => "self"
    case User => "user"
    case Slot(n) => "slot:" + n
    case Cast(n) => "cast:" + n
    case Param(n) => "param:" + n
    case Late(k) => "late:" + k
  }

  function PlaceholderText(tok: Token): string {
    "{{" + InnerText(tok) + "}}"
  }

  /** The placeholders a mode knows. */
  predicate IsHole(tok: Token, mode: Mode) {
    match tok
    case Text(_) => false
    case Self => mode == Creation
    case User => mode == Creation
    case Slot(n) => mode == Creation && IsName(n, false)
    case Cast(n) => mode == Creation && IsName(n, true)
    case Param(n) => mode == Creation && IsName(n, false)
    case Late(k) => mode == Ir && IsLateKey(k)
  }

  lemma ColonAfter(kind: string, name: string)
    requires ':' !in kind
    ensures var s := kind + ":" + name;
            IndexOf(s, ':') == |kind| && s[..|kind|] == kind && s[|kind| + 1..] == name
  {
    var s := kind + ":" + name;
    assert s[|kind|] == ':';
    assert forall j | 0 <= j < |kind| :: s[j] == kind[j];
  }

  /** A placeholder's text is parsed as that placeholder. */
  lemma ParseThere(tok: Token, mode: Mode)
    requires IsHole(tok, mode)
    ensures ParsePlaceholder(InnerText(tok), mode) == Known(tok)
  {
    match tok
    case Slot(n) => ColonAfter("slot", n); assert InnerText(tok) == "slot" + ":" + n;
    case Cast(n) => ColonAfter("cast", n); assert InnerText(tok) == "cast" + ":" + n;
    case Param(n) => ColonAfter("param", n); assert InnerText(tok) == "param" + ":" + n;
    case Late(k) => ColonAfter("late", k); assert InnerText(tok) == "late" + ":" + k;
    case _ =>
  }

  /** Whatever is parsed as a placeholder is the text of that placeholder. */
  lemma ParseBack(inner: string, mode: Mode)
    requires ParsePlaceholder(inner, mode).Known?
    ensures var tok := ParsePlaceholder(inner, mode).tok;
            IsHole(tok, mode) && InnerText(tok) == inner
  {
    var colon := IndexOf(inner, ':');
    if colon < |inner| {
      var kind, name := inner[..colon], inner[colon + 1..];
      assert inner == kind + ":" + name;
      var tok := ParsePlaceholder(inner, mode).tok;
      assert kind == "cast" ==> inner == "cast:" + name;
      assert kind == "slot" ==> inner == "slot:" + name;
      assert kind == "param" ==> inner == "param:" + name;
      assert kind == "late" ==> inner == "late:" + name;
    }
  }

  /** What reading and printing need to know about placeholders. */
  datatype Syntax = Syntax(parse: string -> Parsed, inner: Token -> string, hole: Token -> bool)
  {
    function Spell(tok: Token): string {
      "{{" + inner(tok) + "}}"
    }
  }

  /** Placeholders and their texts match, and a placeholder's text is free of braces where it matters. */
  ghost predicate Lawful(x: Syntax) {
    && (forall s :: x.parse(s).Known? ==> x.hole(x.parse(s).tok) && x.inner(x.parse(s).tok) == s)
    && (forall t :: x.hole(t) ==> x.parse(x.inner(t)) == Known(t))
    && (forall t :: x.hole(t) ==> x.inner(t) != "" && x.inner(t)[0] != '{' && '}' !in x.inner(t) && !t.Text?)
  }

  function Grammar(mode: Mode): Syntax {
    Syntax(s => ParsePlaceholder(s, mode), InnerText, t => IsHole(t, mode))
  }

  lemma NamesAreBraceless(tok: Token, mode: Mode)
    requires IsHole(tok, mode)
    ensures InnerText(tok) != "" && InnerText(tok)[0] != '{' && '}' !in InnerText(tok)
  {
  }

  lemma GrammarIsLawful(mode: Mode)
    ensures Lawful(Grammar(mode))
  {
    var x := Grammar(mode);
    forall s | x.parse(s).Known? ensures x.hole(x.parse(s).tok) && x.inner(x.parse(s).tok) == s {
      ParseBack(s, mode);
    }
    forall t | x.hole(t)
      ensures x.parse(x.inner(t)) == Known(t) && x.inner(t) != "" && x.inner(t)[0] != '{' && '}' !in x.inner(t)
    {
      ParseThere(t, mode);
      NamesAreBraceless(t, mode);
    }
  }

  // ---------------------------------------------------------------------------
  // Reading
  // ---------------------------------------------------------------------------

  /** A literal character, a placeholder, or a stretch that is neither and is kept as literal text. */
  datatype Item = Ch(c: char) | Hole(tok: Token) | Bad(code: IssueCode, offset: nat, raw: string)

  /** `}}` stands at `j`. */
  predicate ClosesAt(text: string, j: nat) {
    j + 2 <= |text| && text[j] == '}' && text[j + 1] == '}'
  }

  /** `text.indexOf("}}", from)`, or the length. */
  function CloseFrom(text: string, from: nat): (end: nat)
    requires from <= |text|
    ensures from <= end <= |text| && (end < |text| ==> ClosesAt(text, end))
    ensures forall j: nat | from <= j < end :: !ClosesAt(text, j)
    decreases |text| - from
  {
    if from + 2 > |text| then |text|
    else if ClosesAt(text, from) then from
    else CloseFrom(text, from + 1)
  }

  /** The number of braces `s` starts with. */
  function Leading(s: string): (n: nat)
    ensures n <= |s| && (forall i | 0 <= i < n :: s[i] == '{') && (n < |s| ==> s[n] != '{')
  {
    if s == "" || s[0] != '{' then 0 else 1 + Leading(s[1..])
  }

  /** The text read from left to right: four braces at a time, then what is left of the run. */
  function Items(text: string, offset: nat, x: Syntax): seq<Item>
    decreases |text|
  {
    if text == [] then []
    else if Leading(text) >= 4 then [Ch('{'), Ch('{')] + Items(text[4..], offset + 4, x)
    else if Leading(text) == 3 then [Ch('{')] + Items(text[1..], offset + 1, x)
    else if Leading(text) == 2 then
      var end := CloseFrom(text, 2);
      if end == |text| then [Bad(Unclosed, offset, text)]
      else [PlaceholderItem(text[..end + 2], offset, x)] + Items(text[end + 2..], offset + end + 2, x)
    else [Ch(text[0])] + Items(text[1..], offset + 1, x)
  }

  function PlaceholderItem(raw: string, offset: nat, x: Syntax): Item
    requires |raw| >= 4
  {
    match x.parse(raw[2..|raw| - 2])
    case Known(tok) => Hole(tok)
    case Wrong(code) => Bad(code, offset, raw)
  }

  function Flushed(buf: string): seq<Token> {
    if buf == "" then [] else [Text(buf)]
  }

  /** Literal characters gathered into text tokens between the placeholders. */
  function Group(items: seq<Item>, buf: string): seq<Token>
    decreases |items|
  {
    if items == [] then Flushed(buf)
    else
      match items[0]
      case Ch(c) => Group(items[1..], buf + [c])
      case Bad(_, _, raw) => Group(items[1..], buf + raw)
      case Hole(tok) => Flushed(buf) + [tok] + Group(items[1..], "")
  }

  function Issues(items: seq<Item>): seq<Issue> {
    if items == [] then []
    else if items[0].Bad? then [Issue(items[0].code, items[0].offset)] + Issues(items[1..])
    else Issues(items[1..])
  }

  /** What tokenizing a text gives: its tokens and its issues. */
  function Tokens(text: string, mode: Mode): seq<Token> {
    Group(Items(text, 0, Grammar(mode)), "")
  }

  function TextIssues(text: string, mode: Mode): seq<Issue> {
    Issues(Items(text, 0, Grammar(mode)))
  }

  // ---------------------------------------------------------------------------
  // Writing
  // ---------------------------------------------------------------------------

  /** `s.replaceAll("{{", "{{{{")`. */
  function Escape(s: string): string {
    if "{{" <= s then "{{{{" + Escape(s[2..])
    else if s == "" then ""
    else [s[0]] + Escape(s[1..])
  }

  /**
   * Items printed from left to right; `half` says that the last brace printed still lacks its
   * partner. The second brace of a pair completes the four that stand for both.
   */
  function Print(items: seq<Item>, half: bool, x: Syntax): string
    decreases |items|
  {
    if items == [] then ""
    else
      match items[0]
      case Ch(c) =>
        if c != '{' then [c] + Print(items[1..], false, x)
        else (if half then "{{{" else "{") + Print(items[1..], !half, x)
      case Hole(tok) => x.Spell(tok) + Print(items[1..], false, x)
      case Bad(_, _, raw) => raw + Print(items[1..], false, x)
  }

  ghost predicate Clean(items: seq<Item>, x: Syntax) {
    forall i | 0 <= i < |items| :: items[i].Ch? || (items[i].Hole? && x.hole(items[i].tok))
  }

  function Chars(s: string): seq<Item> {
    seq(|s|, i requires 0 <= i < |s| => Ch(s[i]))
  }

  // ---------------------------------------------------------------------------
  // Printing and reading are inverse
  // ---------------------------------------------------------------------------

  lemma {:induction false} IssuesConcat(a: seq<Item>, b: seq<Item>)
    ensures Issues(a + b) == Issues(a) + Issues(b)
  {
    if a == [] {
      assert a + b == b;
    } else {
      assert (a + b)[1..] == a[1..] + b;
      IssuesConcat(a[1..], b);
    }
  }

  ghost predicate StartsWithBrace(items: seq<Item>) {
    items != [] && items[0] == Ch('{')
  }

  /** Only a brace printed next can tell whether a brace is waiting for its partner. */
  lemma PrintSame(items: seq<Item>, x: Syntax)
    requires !StartsWithBrace(items)
    ensures Print(items, true, x) == Print(items, false, x)
  {
  }

  lemma PrintPair(items: seq<Item>, x: Syntax)
    ensures Print([Ch('{'), Ch('{')] + items, false, x) == "{{{{" + Print(items, false, x)
  {
    var all := [Ch('{'), Ch('{')] + items;
    assert all[1..] == [Ch('{')] + items && all[1..][1..] == items;
    assert Print(all[1..], true, x) == "{{{" + Print(items, false, x);
    assert "{" + ("{{{" + Print(items, false, x)) == "{{{{" + Print(items, false, x);
  }

  lemma PrintOne(item: Item, items: seq<Item>, x: Syntax)
    ensures item.Ch? ==> Print([item] + items, false, x) == [item.c] + Print(items, item.c == '{', x)
    ensures item.Hole? ==> Print([item] + items, false, x) == x.Spell(item.tok) + Print(items, false, x)
  {
    assert ([item] + items)[1..] == items;
  }

  /** A run of two braces, or no brace at all, is not read as a literal brace. */
  lemma ItemsStart(text: string, offset: nat, x: Syntax)
    requires Leading(text) == 0 || Leading(text) == 2
    ensures !StartsWithBrace(Items(text, offset, x))
  {
  }

  lemma PlaceholderBack(raw: string, offset: nat, x: Syntax)
    requires Lawful(x) && |raw| >= 4 && raw[..2] == "{{" && raw[|raw| - 2..] == "}}"
             && PlaceholderItem(raw, offset, x).Hole?
    ensures x.hole(PlaceholderItem(raw, offset, x).tok)
    ensures x.Spell(PlaceholderItem(raw, offset, x).tok) == raw
  {
    assert raw == "{{" + raw[2..|raw| - 2] + "}}";
  }

  /** The rule for `{{` that opens a placeholder or nothing, as one step. */
  lemma OpenStep(text: string, offset: nat, x: Syntax)
    requires Leading(text) == 2
    ensures var end := CloseFrom(text, 2);
            Items(text, offset, x)
            == if end == |text| then [Bad(Unclosed, offset, text)]
               else [PlaceholderItem(text[..end + 2], offset, x)] + Items(text[end + 2..], offset + end + 2, x)
  {
  }

  lemma OpenStepTo(text: string, offset: nat, x: Syntax, raw: string, rest: string, next: nat)
    requires Leading(text) == 2 && CloseFrom(text, 2) < |text|
    requires |raw| == CloseFrom(text, 2) + 2 && text[..|raw|] == raw && text[|raw|..] == rest && next == offset + |raw|
    ensures Items(text, offset, x) == [PlaceholderItem(raw, offset, x)] + Items(rest, next, x)
  {
    var end := CloseFrom(text, 2);
    OpenStep(text, offset, x);
    assert end + 2 == |raw| && offset + end + 2 == next;
    assert text[..end + 2] == raw && text[end + 2..] == rest;
  }

  lemma OpenIsHole(text: string, offset: nat, x: Syntax)
    requires Leading(text) == 2
    requires Lawful(x) && Issues(Items(text, offset, x)) == []
    ensures var end := CloseFrom(text, 2);
            && end < |text|
            && Issues(Items(text[end + 2..], offset + end + 2, x)) == []
            && PlaceholderItem(text[..end + 2], offset, x).Hole?
  {
    var end := CloseFrom(text, 2);
    assert |Issues([Bad(Unclosed, offset, text)])| == 1;
    OpenStep(text, offset, x);
    if end < |text| {
      var item := PlaceholderItem(text[..end + 2], offset, x);
      IssuesConcat([item], Items(text[end + 2..], offset + end + 2, x));
      assert item.Bad? ==> |Issues([item])| == 1;
    }
  }

  lemma OpenOfText(text: string, offset: nat, x: Syntax) returns (tok: Token, rest: string, next: nat)
    requires Leading(text) == 2
    requires Lawful(x) && Issues(Items(text, offset, x)) == []
    ensures x.hole(tok) && text == x.Spell(tok) + rest && |rest| < |text|
    ensures Items(text, offset, x) == [Hole(tok)] + Items(rest, next, x)
    ensures Issues(Items(rest, next, x)) == []
  {
    var end := CloseFrom(text, 2);
    OpenIsHole(text, offset, x);
    OpenStep(text, offset, x);
    rest, next := text[end + 2..], offset + end + 2;
    PlaceholderBack(text[..end + 2], offset, x);
    tok := PlaceholderItem(text[..end + 2], offset, x).tok;
    assert text == text[..end + 2] + rest;
  }

  lemma CleanCons(items: seq<Item>, more: seq<Item>, x: Syntax)
    ensures Clean(items + more, x) <==> Clean(items, x) && Clean(more, x)
  {
    var all := items + more;
    if Clean(all, x) {
      assert forall i | 0 <= i < |items| :: items[i] == all[i];
      assert forall i | 0 <= i < |more| :: more[i] == all[|items| + i];
    }
  }

  /** A text without issues is the print of its items. */
  lemma {:induction false} ItemsOfText(text: string, offset: nat, x: Syntax)
    requires Lawful(x) && Issues(Items(text, offset, x)) == []
    ensures Clean(Items(text, offset, x), x) && Print(Items(text, offset, x), false, x) == text
    decreases |text|, 1
  {
    if text == [] {
    } else if Leading(text) >= 4 {
      PairOfText(text, offset, x);
    } else if Leading(text) == 2 {
      HoleOfText(text, offset, x);
    } else {
      CharOfText(text, offset, x);
    }
  }

  lemma {:induction false} PairOfText(text: string, offset: nat, x: Syntax)
    requires Leading(text) >= 4 && Lawful(x) && Issues(Items(text, offset, x)) == []
    ensures Clean(Items(text, offset, x), x) && Print(Items(text, offset, x), false, x) == text
    decreases |text|, 0
  {
    var more := Items(text[4..], offset + 4, x);
    IssuesConcat([Ch('{'), Ch('{')], more);
    ItemsOfText(text[4..], offset + 4, x);
    PrintPair(more, x);
    CleanCons([Ch('{'), Ch('{')], more, x);
  }

  lemma {:induction false} HoleOfText(text: string, offset: nat, x: Syntax)
    requires Leading(text) == 2 && Lawful(x) && Issues(Items(text, offset, x)) == []
    ensures Clean(Items(text, offset, x), x) && Print(Items(text, offset, x), false, x) == text
    decreases |text|, 0
  {
    var tok, rest, next := OpenOfText(text, offset, x);
    var more := Items(rest, next, x);
    ItemsOfText(rest, next, x);
    PrintOne(Hole(tok), more, x);
    CleanCons([Hole(tok)], more, x);
  }

  lemma {:induction false} CharOfText(text: string, offset: nat, x: Syntax)
    requires text != [] && Leading(text) < 4 && Leading(text) != 2
    requires Lawful(x) && Issues(Items(text, offset, x)) == []
    ensures Clean(Items(text, offset, x), x) && Print(Items(text, offset, x), false, x) == text
    decreases |text|, 0
  {
    var more := Items(text[1..], offset + 1, x);
    IssuesConcat([Ch(text[0])], more);
    ItemsOfText(text[1..], offset + 1, x);
    PrintOne(Ch(text[0]), more, x);
    CleanCons([Ch(text[0])], more, x);
    if text[0] == '{' {
      ItemsStart(text[1..], offset + 1, x);
      PrintSame(more, x);
    }
  }

  /** What is printed for anything but a literal brace starts with no brace or with exactly two. */
  lemma PrintStart(items: seq<Item>, x: Syntax)
    requires Lawful(x) && Clean(items, x) && !StartsWithBrace(items)
    ensures var text := Print(items, false, x);
            Leading(text) == 0 || Leading(text) == 2
  {
    if items != [] && items[0].Hole? {
      var text, inner := Print(items, false, x), x.inner(items[0].tok);
      assert text == "{{" + inner + "}}" + Print(items[1..], false, x);
      assert text[2] == inner[0];
    } else if items != [] {
      assert items[0].Ch? && Print(items, false, x)[0] == items[0].c != '{';
    }
  }

  /** The first close after an opening is the one that ends the placeholder. */
  lemma CloseOfHole(inner: string, rest: string, from: nat)
    requires 2 <= from <= 2 + |inner| && '}' !in inner
    ensures CloseFrom("{{" + inner + "}}" + rest, from) == 2 + |inner|
    decreases 2 + |inner| - from
  {
    var text := "{{" + inner + "}}" + rest;
    if from < 2 + |inner| {
      assert text[from] == inner[from - 2];
      CloseOfHole(inner, rest, from + 1);
    }
  }

  lemma SpelledShape(tok: Token, rest: string, x: Syntax)
    requires Lawful(x) && x.hole(tok)
    ensures var text, raw := x.Spell(tok) + rest, x.Spell(tok);
            && Leading(text) == 2 && CloseFrom(text, 2) == |raw| - 2 < |text|
            && text[..|raw|] == raw && text[|raw|..] == rest && raw[2..|raw| - 2] == x.inner(tok)
  {
    var inner := x.inner(tok);
    var text := x.Spell(tok) + rest;
    assert text == "{{" + inner + "}}" + rest;
    CloseOfHole(inner, rest, 2);
    assert text[0] == '{' && text[1] == '{' && text[2] == inner[0];
  }

  lemma HoleThere(tok: Token, rest: string, offset: nat, x: Syntax)
    requires Lawful(x) && x.hole(tok)
    ensures Items(x.Spell(tok) + rest, offset, x) == [Hole(tok)] + Items(rest, offset + |x.Spell(tok)|, x)
  {
    var raw := x.Spell(tok);
    var text := raw + rest;
    SpelledShape(tok, rest, x);
    OpenStepTo(text, offset, x, raw, rest, offset + |raw|);
    assert PlaceholderItem(raw, offset, x) == Hole(tok);
  }

  lemma PairThere(rest: string, offset: nat, x: Syntax)
    ensures Items("{{{{" + rest, offset, x) == [Ch('{'), Ch('{')] + Items(rest, offset + 4, x)
  {
    assert ("{{{{" + rest)[4..] == rest;
  }

  lemma CharThere(c: char, rest: string, offset: nat, x: Syntax)
    requires c == '{' ==> Leading(rest) == 0 || Leading(rest) == 2
    ensures Items([c] + rest, offset, x) == [Ch(c)] + Items(rest, offset + 1, x)
  {
    var text := [c] + rest;
    assert text[1..] == rest;
  }

  lemma HoleBefore(tok: Token, more: seq<Item>, offset: nat, x: Syntax)
    requires Lawful(x) && x.hole(tok)
    requires Items(Print(more, false, x), offset + |x.Spell(tok)|, x) == more
    ensures Items(Print([Hole(tok)] + more, false, x), offset, x) == [Hole(tok)] + more
  {
    PrintOne(Hole(tok), more, x);
    HoleThere(tok, Print(more, false, x), offset, x);
  }

  lemma PairBefore(more: seq<Item>, offset: nat, x: Syntax)
    requires Items(Print(more, false, x), offset + 4, x) == more
    ensures Items(Print([Ch('{'), Ch('{')] + more, false, x), offset, x) == [Ch('{'), Ch('{')] + more
  {
    PrintPair(more, x);
    PairThere(Print(more, false, x), offset, x);
  }

  lemma CharBefore(c: char, more: seq<Item>, offset: nat, x: Syntax)
    requires Lawful(x) && Clean(more, x) && (c == '{' ==> !StartsWithBrace(more))
    requires Items(Print(more, false, x), offset + 1, x) == more
    ensures Items(Print([Ch(c)] + more, false, x), offset, x) == [Ch(c)] + more
  {
    PrintOne(Ch(c), more, x);
    if c == '{' {
      PrintSame(more, x);
      PrintStart(more, x);
    }
    CharThere(c, Print(more, false, x), offset, x);
  }

  lemma CleanTail(items: seq<Item>, n: nat, x: Syntax)
    requires Clean(items, x) && n <= |items|
    ensures Clean(items[n..], x)
  {
  }

  /** Clean items are what is read from their print. */
  lemma {:induction false} ItemsOfPrint(items: seq<Item>, offset: nat, x: Syntax)
    requires Lawful(x) && Clean(items, x)
    ensures Items(Print(items, false, x), offset, x) == items
    decreases |items|
  {
    if items == [] {
    } else if items[0].Hole? {
      var tok, more := items[0].tok, items[1..];
      assert items == [Hole(tok)] + more;
      CleanTail(items, 1, x);
      ItemsOfPrint(more, offset + |x.Spell(tok)|, x);
      HoleBefore(tok, more, offset, x);
    } else if |items| > 1 && items[0] == Ch('{') && items[1] == Ch('{') {
      var more := items[2..];
      assert items == [Ch('{'), Ch('{')] + more;
      CleanTail(items, 2, x);
      ItemsOfPrint(more, offset + 4, x);
      PairBefore(more, offset, x);
    } else {
      var more := items[1..];
      assert items == [Ch(items[0].c)] + more;
      CleanTail(items, 1, x);
      ItemsOfPrint(more, offset + 1, x);
      CharBefore(items[0].c, more, offset, x);
    }
  }

  lemma {:induction false} CleanHasNoIssues(items: seq<Item>, x: Syntax)
    requires Clean(items, x)
    ensures Issues(items) == []
  {
    if items != [] { CleanHasNoIssues(items[1..], x); }
  }

  // ---------------------------------------------------------------------------
  // Tokens and items
  // ---------------------------------------------------------------------------

  /** Token lists without empty or adjacent texts, whose placeholders the mode knows. */
  ghost predicate Normal(ts: seq<Token>, x: Syntax) {
    && (forall i | 0 <= i < |ts| :: if ts[i].Text? then ts[i].v != "" else x.hole(ts[i]))
    && (forall i | 0 <= i < |ts| - 1 :: !(ts[i].Text? && ts[i + 1].Text?))
  }

  function Explode(ts: seq<Token>): seq<Item> {
    if ts == [] then []
    else (if ts[0].Text? then Chars(ts[0].v) else [Hole(ts[0])]) + Explode(ts[1..])
  }

  lemma {:induction false} GroupChars(s: string, items: seq<Item>, buf: string)
    ensures Group(Chars(s) + items, buf) == Group(items, buf + s)
    decreases |s|
  {
    if s == "" {
      assert Chars(s) + items == items && buf + s == buf;
    } else {
      assert (Chars(s) + items)[1..] == Chars(s[1..]) + items;
      GroupChars(s[1..], items, buf + [s[0]]);
      assert buf + [s[0]] + s[1..] == buf + s;
    }
  }

  /** Grouping the items of a normal token list gives the tokens back. */
  lemma {:induction false} GroupExplode(ts: seq<Token>, x: Syntax)
    requires Normal(ts, x)
    ensures Group(Explode(ts), "") == ts
    decreases |ts|
  {
    if ts != [] {
      var more := ts[1..];
      assert Normal(more, x) by {
        assert forall i | 0 <= i < |more| :: more[i] == ts[i + 1];
      }
      GroupExplode(more, x);
      assert ts == [ts[0]] + more;
      if ts[0].Text? {
        GroupChars(ts[0].v, Explode(more), "");
        assert "" + ts[0].v == ts[0].v;
        if more != [] {
          assert !more[0].Text?;
          GroupHole(more[0], Explode(more[1..]), ts[0].v);
          GroupHole(more[0], Explode(more[1..]), "");
        }
      } else {
        GroupHole(ts[0], Explode(more), "");
      }
    }
  }

  lemma GroupHole(tok: Token, items: seq<Item>, buf: string)
    ensures Group([Hole(tok)] + items, buf) == Flushed(buf) + [tok] + Group(items, "")
  {
    assert ([Hole(tok)] + items)[1..] == items;
  }

  lemma {:induction false} ExplodeConcat(a: seq<Token>, b: seq<Token>)
    ensures Explode(a + b) == Explode(a) + Explode(b)
  {
    if a == [] {
      assert a + b == b;
    } else {
      assert (a + b)[1..] == a[1..] + b;
      ExplodeConcat(a[1..], b);
    }
  }

  lemma FlushThere(buf: string)
    ensures Explode(Flushed(buf)) == Chars(buf)
  {
    if buf != "" { assert Explode([Text(buf)]) == Chars(buf) + Explode([]); }
  }

  lemma ExplodeHole(buf: string, tok: Token, rest: seq<Token>)
    requires !tok.Text?
    ensures Explode(Flushed(buf) + [tok] + rest) == Chars(buf) + ([Hole(tok)] + Explode(rest))
  {
    assert Flushed(buf) + [tok] + rest == Flushed(buf) + ([tok] + rest);
    ExplodeConcat(Flushed(buf), [tok] + rest);
    assert ([tok] + rest)[1..] == rest;
    FlushThere(buf);
  }

  lemma NormalHole(buf: string, tok: Token, rest: seq<Token>, x: Syntax)
    requires !tok.Text? && x.hole(tok) && Normal(rest, x)
    ensures Normal(Flushed(buf) + [tok] + rest, x)
  {
    var ts := Flushed(buf) + [tok] + rest;
    var k := |Flushed(buf)|;
    assert ts[k] == tok && (forall i | k < i < |ts| :: ts[i] == rest[i - k - 1]);
  }

  /** Grouping loses nothing: the tokens explode into the items again, and are normal. */
  lemma {:induction false} ExplodeGroup(items: seq<Item>, buf: string, x: Syntax)
    requires Lawful(x) && Clean(items, x)
    ensures Explode(Group(items, buf)) == Chars(buf) + items && Normal(Group(items, buf), x)
    decreases |items|
  {
    if items == [] {
      FlushThere(buf);
    } else if items[0].Ch? {
      CleanTail(items, 1, x);
      ExplodeGroup(items[1..], buf + [items[0].c], x);
      assert Chars(buf + [items[0].c]) + items[1..] == Chars(buf) + items;
    } else {
      var tok := items[0].tok;
      CleanTail(items, 1, x);
      assert x.hole(tok);
      ExplodeGroup(items[1..], "", x);
      var rest := Group(items[1..], "");
      ExplodeHole(buf, tok, rest);
      NormalHole(buf, tok, rest, x);
      assert Chars("") + items[1..] == items[1..];
      assert [Hole(tok)] + items[1..] == items;
    }
  }
}
