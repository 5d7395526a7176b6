/** The loops of the template language, against the functions of Template and TemplateLaws. */
module TemplateRun {
  import opened Common
  import opened Template
  import opened TemplateLaws

  /** `"{".repeat(n)`. */
  function Braces(n: nat): (s: string)
    ensures |s| == n && forall i | 0 <= i < n :: s[i] == '{'
  {
    seq(n, i => '{')
  }

  /** The braces a run of `n` stands for, four at a time. */
  function LiteralOf(n: nat): nat {
    if n >= 4 then 2 + LiteralOf(n - 4) else if n == 1 || n == 3 then 1 else 0
  }

  /** How much of a run of `n` is read as literal; what is left opens a placeholder or nothing. */
  function ReadOf(n: nat): (m: nat)
    ensures m <= n
  {
    if n >= 4 then 4 + ReadOf(n - 4) else if n == 1 || n == 3 then 1 else 0
  }

  lemma {:induction false} RunNumbers(n: nat)
    ensures LiteralOf(n) == n / 4 * 2 + n % 2 && ReadOf(n) == if n % 4 < 2 then n else n - 2
  {
    if n >= 4 {
      RunNumbers(n - 4);
      assert n / 4 == (n - 4) / 4 + 1 && n % 4 == (n - 4) % 4 && n % 2 == (n - 4) % 2;
    }
  }

  lemma LeadingAfter(rest: string, k: nat)
    requires k <= Leading(rest)
    ensures Leading(rest[k..]) == Leading(rest) - k
  {
    var n := Leading(rest);
    assert forall i | 0 <= i < n - k :: rest[k..][i] == rest[i + k];
    assert k <= n < |rest| ==> rest[k..][n - k] == rest[n];
  }

  lemma SliceOfSlice<T>(s: seq<T>, i: nat, a: nat, b: nat)
    requires i <= |s| && a <= b <= |s| - i
    ensures s[i..][a..b] == s[i + a..i + b] && s[i..][..b] == s[i..i + b] && s[i..][b..] == s[i + b..]
  {
  }

  lemma SliceInSlice<T>(s: seq<T>, i: nat, j: nat, a: nat, b: nat)
    requires i <= j <= |s| && a <= b <= j - i
    ensures s[i..j][a..b] == s[i + a..i + b]
  {
    forall k | 0 <= k < b - a ensures s[i..j][a..b][k] == s[i + a..i + b][k] {
      assert s[i..j][a + k] == s[i + a + k];
    }
  }

  lemma CharsAreClean(s: string, items: seq<Item>, buf: string)
    ensures Group(Chars(s) + items, buf) == Group(items, buf + s) && Issues(Chars(s) + items) == Issues(items)
  {
    GroupChars(s, items, buf);
    IssuesConcat(Chars(s), items);
    CharsHaveNoIssues(s);
  }

  lemma {:induction false} CharsHaveNoIssues(s: string)
    ensures Issues(Chars(s)) == []
    decreases |s|
  {
    if s != "" {
      assert Chars(s)[1..] == Chars(s[1..]);
      CharsHaveNoIssues(s[1..]);
    }
  }

  method CountRun(text: string, i: nat) returns (run: nat)
    requires i < |text|
    ensures run == Leading(text[i..])
  {
    run := 0;
    while i + run < |text| && text[i + run] == '{'
      invariant i + run <= |text| && forall j | i <= j < i + run :: text[j] == '{'
    {
      run := run + 1;
    }
    assert forall j | 0 <= j < run :: text[i..][j] == text[i + j];
    assert i + run < |text| ==> text[i..][run] == text[i + run];
  }

  /** What is still to come: the tokens of the text from `i` on, after the literal `buf`. */
  ghost function TokensFrom(text: string, i: nat, buf: string, x: Syntax): seq<Token>
    requires i <= |text|
  {
    Group(Items(text[i..], i, x), buf)
  }

  ghost function IssuesFrom(text: string, i: nat, x: Syntax): seq<Issue>
    requires i <= |text|
  {
    Issues(Items(text[i..], i, x))
  }

  lemma PlainStep(text: string, i: nat, x: Syntax, buf: string)
    requires i < |text| && text[i] != '{'
    ensures TokensFrom(text, i, buf, x) == TokensFrom(text, i + 1, buf + [text[i]], x)
    ensures IssuesFrom(text, i, x) == IssuesFrom(text, i + 1, x)
  {
    assert text[i..][0] == text[i] && text[i..][1..] == text[i + 1..];
  }

  lemma CharsStep(text: string, i: nat, x: Syntax, buf: string, lit: string, k: nat)
    requires i + k <= |text| && Items(text[i..], i, x) == Chars(lit) + Items(text[i + k..], i + k, x)
    ensures TokensFrom(text, i, buf, x) == TokensFrom(text, i + k, buf + lit, x)
    ensures IssuesFrom(text, i, x) == IssuesFrom(text, i + k, x)
  {
    CharsAreClean(lit, Items(text[i + k..], i + k, x), buf);
  }

  lemma OneBrace(text: string, i: nat, x: Syntax, buf: string)
    requires i < |text| && (Leading(text[i..]) == 1 || Leading(text[i..]) == 3)
    ensures TokensFrom(text, i, buf, x) == TokensFrom(text, i + 1, buf + "{", x)
    ensures IssuesFrom(text, i, x) == IssuesFrom(text, i + 1, x)
  {
    SliceOfSlice(text, i, 0, 1);
    assert Chars("{") == [Ch('{')];
    CharsStep(text, i, x, buf, "{", 1);
  }

  lemma FourBraces(text: string, i: nat, x: Syntax, buf: string)
    requires i < |text| && Leading(text[i..]) >= 4
    ensures i + 4 <= |text| && Leading(text[i + 4..]) == Leading(text[i..]) - 4
    ensures TokensFrom(text, i, buf, x) == TokensFrom(text, i + 4, buf + "{{", x)
    ensures IssuesFrom(text, i, x) == IssuesFrom(text, i + 4, x)
  {
    SliceOfSlice(text, i, 0, 4);
    LeadingAfter(text[i..], 4);
    assert Chars("{{") == [Ch('{'), Ch('{')];
    CharsStep(text, i, x, buf, "{{", 4);
  }

  lemma BracesStep(buf: string, run: nat)
    requires run >= 4
    ensures buf + "{{" + Braces(LiteralOf(run - 4)) == buf + Braces(LiteralOf(run))
  {
    assert "{{" + Braces(LiteralOf(run - 4)) == Braces(LiteralOf(run));
    Regroup(buf, "{{", Braces(LiteralOf(run - 4)));
  }

  /** Reading a run four braces at a time is reading it by its length. */
  lemma {:induction false} RunStep(text: string, i: nat, x: Syntax, buf: string, run: nat, read: string, m: nat)
    requires i <= |text| && run == Leading(text[i..])
    requires m == i + ReadOf(run) && read == buf + Braces(LiteralOf(run))
    ensures TokensFrom(text, i, buf, x) == TokensFrom(text, m, read, x)
    ensures IssuesFrom(text, i, x) == IssuesFrom(text, m, x)
    decreases run
  {
    if run >= 4 {
      FourBraces(text, i, x, buf);
      BracesStep(buf, run);
      RunStep(text, i + 4, x, buf + "{{", run - 4, read, m);
    } else if run == 1 || run == 3 {
      OneBrace(text, i, x, buf);
      assert Braces(1) == "{";
    } else {
      assert buf + Braces(0) == buf;
    }
  }

  /** The literal braces of a run, by its length, and how much of the run they take up. */
  method LiteralRun(run: nat) returns (lit: string, m: nat)
    ensures lit == Braces(LiteralOf(run)) && m == ReadOf(run) && (m < run ==> m == run - 2)
  {
    RunNumbers(run);
    lit := Braces(run / 4 * 2);
    var left := run % 4;
    if left == 0 || left == 1 {
      if left == 1 { lit := lit + "{"; }
      m := run;
    } else {
      if left == 3 { lit := lit + "{"; }
      m := run - 2;
    }
  }

  /** Reads a run of braces up to where it opens a placeholder, if it does. */
  method ReadRun(text: string, i: nat, buf: string, ghost x: Syntax) returns (read: string, next: nat, opens: bool)
    requires i < |text| && text[i] == '{'
    ensures i <= next <= |text| && (next == i ==> opens) && (opens ==> Leading(text[next..]) == 2)
    ensures TokensFrom(text, i, buf, x) == TokensFrom(text, next, read, x)
    ensures IssuesFrom(text, i, x) == IssuesFrom(text, next, x)
  {
    var run := CountRun(text, i);
    assert text[i..][0] == '{';
    var lit, m := LiteralRun(run);
    read, next, opens := buf + lit, i + m, m < run;
    RunStep(text, i, x, buf, run, read, next);
    LeadingAfter(text[i..], m);
    SliceOfSlice(text, i, 0, m);
  }

  lemma {:induction false} CloseAt(text: string, i: nat, from: nat)
    requires i + from <= |text|
    ensures CloseFrom(text, i + from) == i + CloseFrom(text[i..], from)
    decreases |text| - i - from
  {
    if i + from + 2 <= |text| && !ClosesAt(text, i + from) {
      CloseAt(text, i, from + 1);
    }
  }

  lemma SlicesAt(text: string, i: nat, end: nat, raw: string)
    requires i <= end && end + 2 <= |text| && raw == text[i..end + 2]
    ensures text[i..][..|raw|] == raw && text[i..][|raw|..] == text[end + 2..] && i + |raw| == end + 2
  {
  }

  lemma OpenItems(text: string, i: nat, end: nat, x: Syntax)
    requires i + 2 <= |text| && Leading(text[i..]) == 2 && end == CloseFrom(text, i + 2)
    ensures end == |text| ==> Items(text[i..], i, x) == [Bad(Unclosed, i, text[i..])]
    ensures end < |text| ==>
              Items(text[i..], i, x) == [PlaceholderItem(text[i..end + 2], i, x)] + Items(text[end + 2..], end + 2, x)
  {
    CloseAt(text, i, 2);
    if end == |text| {
      OpenStep(text[i..], i, x);
    } else {
      SlicesAt(text, i, end, text[i..end + 2]);
      OpenStepTo(text[i..], i, x, text[i..end + 2], text[end + 2..], end + 2);
    }
  }

  lemma ItemStep(item: Item, more: seq<Item>, buf: string)
    ensures item.Hole? ==> Group([item] + more, buf) == Flushed(buf) + [item.tok] + Group(more, "")
    ensures item.Bad? ==> Group([item] + more, buf) == Group(more, buf + item.raw)
    ensures Issues([item] + more) == if item.Bad? then [Issue(item.code, item.offset)] + Issues(more) else Issues(more)
  {
    assert ([item] + more)[1..] == more;
  }

  lemma UnclosedStep(text: string, i: nat, x: Syntax, buf: string)
    requires i + 2 <= |text| && Leading(text[i..]) == 2 && CloseFrom(text, i + 2) == |text|
    ensures TokensFrom(text, i, buf, x) == [] + TokensFrom(text, |text|, buf + text[i..], x)
    ensures IssuesFrom(text, i, x) == [Issue(Unclosed, i)] + IssuesFrom(text, |text|, x)
  {
    OpenItems(text, i, |text|, x);
    var item := Bad(Unclosed, i, text[i..]);
    ItemStep(item, [], buf);
    assert [item] + [] == [item] && text[|text|..] == [];
    assert [] + TokensFrom(text, |text|, buf + text[i..], x) == TokensFrom(text, |text|, buf + text[i..], x);
  }

  lemma InnerOf(text: string, i: nat, end: nat, x: Syntax)
    requires i + 2 <= end && end + 2 <= |text|
    ensures var parsed := x.parse(text[i + 2..end]);
            PlaceholderItem(text[i..end + 2], i, x)
            == if parsed.Known? then Hole(parsed.tok) else Bad(parsed.code, i, text[i..end + 2])
  {
    SliceInSlice(text, i, end + 2, 2, end - i);
  }

  lemma KnownStep(text: string, i: nat, end: nat, x: Syntax, buf: string)
    requires i + 2 <= |text| && Leading(text[i..]) == 2 && end == CloseFrom(text, i + 2) < |text|
    requires x.parse(text[i + 2..end]).Known?
    ensures TokensFrom(text, i, buf, x) == Flushed(buf) + [x.parse(text[i + 2..end]).tok]
            + TokensFrom(text, end + 2, "", x)
    ensures IssuesFrom(text, i, x) == [] + IssuesFrom(text, end + 2, x)
  {
    var tok := x.parse(text[i + 2..end]).tok;
    OpenItems(text, i, end, x);
    InnerOf(text, i, end, x);
    HoleThen(Items(text[i..], i, x), tok, Items(text[end + 2..], end + 2, x), buf);
  }

  lemma HoleThen(items: seq<Item>, tok: Token, more: seq<Item>, buf: string)
    requires items == [Hole(tok)] + more
    ensures Group(items, buf) == Flushed(buf) + [tok] + Group(more, "")
    ensures Issues(items) == [] + Issues(more)
  {
    ItemStep(Hole(tok), more, buf);
  }

  lemma BadThen(items: seq<Item>, bad: Item, more: seq<Item>, buf: string)
    requires bad.Bad? && items == [bad] + more
    ensures Group(items, buf) == [] + Group(more, buf + bad.raw)
    ensures Issues(items) == [Issue(bad.code, bad.offset)] + Issues(more)
  {
    ItemStep(bad, more, buf);
  }

  lemma WrongStep(text: string, i: nat, end: nat, x: Syntax, buf: string)
    requires i + 2 <= |text| && Leading(text[i..]) == 2 && end == CloseFrom(text, i + 2) < |text|
    requires x.parse(text[i + 2..end]).Wrong?
    ensures TokensFrom(text, i, buf, x) == [] + TokensFrom(text, end + 2, buf + text[i..end + 2], x)
    ensures IssuesFrom(text, i, x) == [Issue(x.parse(text[i + 2..end]).code, i)] + IssuesFrom(text, end + 2, x)
  {
    var code := x.parse(text[i + 2..end]).code;
    OpenItems(text, i, end, x);
    InnerOf(text, i, end, x);
    BadThen(Items(text[i..], i, x), Bad(code, i, text[i..end + 2]), Items(text[end + 2..], end + 2, x), buf);
  }

  /** Reads what an opening of two braces starts: a placeholder, an issue, or nothing closed at all. */
  method ReadOpening(text: string, i: nat, buf: string, x: Syntax)
      returns (more: seq<Token>, found: seq<Issue>, read: string, next: nat)
    requires i + 2 <= |text| && Leading(text[i..]) == 2
    ensures i < next <= |text|
    ensures TokensFrom(text, i, buf, x) == more + TokensFrom(text, next, read, x)
    ensures IssuesFrom(text, i, x) == found + IssuesFrom(text, next, x)
  {
    more, found := [], [];
    var end := CloseFrom(text, i + 2);
    if end == |text| {
      UnclosedStep(text, i, x, buf);
      found, read, next := [Issue(Unclosed, i)], buf + text[i..], |text|;
      assert TokensFrom(text, i, buf, x) == more + TokensFrom(text, next, read, x);
      assert IssuesFrom(text, i, x) == found + IssuesFrom(text, next, x);
    } else {
      var parsed := x.parse(text[i + 2..end]);
      next := end + 2;
      if parsed.Wrong? {
        WrongStep(text, i, end, x, buf);
        found, read := [Issue(parsed.code, i)], buf + text[i..end + 2];
        assert TokensFrom(text, i, buf, x) == more + TokensFrom(text, next, read, x);
        assert IssuesFrom(text, i, x) == found + IssuesFrom(text, next, x);
      } else {
        KnownStep(text, i, end, x, buf);
        more, read := Flushed(buf) + [parsed.tok], "";
        assert TokensFrom(text, i, buf, x) == more + TokensFrom(text, next, read, x);
        assert IssuesFrom(text, i, x) == found + IssuesFrom(text, next, x);
      }
    }
  }

  /** The loop over the text, for any syntax of placeholders. */
  method Tokenize(text: string, x: Syntax) returns (tokens: seq<Token>, issues: seq<Issue>)
    ensures tokens == Group(Items(text, 0, x), "") && issues == Issues(Items(text, 0, x))
  {
    ghost var allTokens, allIssues := TokensFrom(text, 0, "", x), IssuesFrom(text, 0, x);
    assert text[0..] == text;
    tokens, issues := [], [];
    var buf, i := "", 0;
    while i < |text|
      invariant i <= |text|
      invariant allTokens == tokens + TokensFrom(text, i, buf, x)
      invariant allIssues == issues + IssuesFrom(text, i, x)
    {
      if text[i] != '{' {
        PlainStep(text, i, x, buf);
        buf, i := buf + [text[i]], i + 1;
        continue;
      }
      var opens;
      buf, i, opens := ReadRun(text, i, buf, x);
      if !opens { continue; }
      var more, found, read, next := ReadOpening(text, i, buf, x);
      Regroup(tokens, more, TokensFrom(text, next, read, x));
      Regroup(issues, found, IssuesFrom(text, next, x));
      tokens, issues, buf, i := tokens + more, issues + found, read, next;
    }
    assert text[|text|..] == [];
    tokens := tokens + Flushed(buf);
  }

  method TokenizeTemplate(text: string, mode: Mode) returns (tokens: seq<Token>, issues: seq<Issue>)
    ensures tokens == Tokens(text, mode) && issues == TextIssues(text, mode)
  {
    tokens, issues := Tokenize(text, Grammar(mode));
  }

  lemma RenderStep(ts: seq<Token>, i: nat, resolve: Token -> Resolved, out: string)
    requires i < |ts|
    ensures out + Render(ts[i..], resolve) == out + RenderOne(ts[i], resolve) + Render(ts[i + 1..], resolve)
  {
    var now, later := RenderOne(ts[i], resolve), Render(ts[i + 1..], resolve);
    assert ts[i..][1..] == ts[i + 1..];
    assert out + (now + later) == out + now + later;
  }

  method RenderTemplate(ts: seq<Token>, resolve: Token -> Resolved) returns (out: string)
    ensures out == Render(ts, resolve)
  {
    out := "";
    for i := 0 to |ts|
      invariant out + Render(ts[i..], resolve) == Render(ts, resolve)
    {
      RenderStep(ts, i, resolve, out);
      out := out + RenderOne(ts[i], resolve);
    }
  }

  lemma SpeakStep(ts: seq<Token>, i: nat, say: Token -> string, out: string)
    requires i < |ts|
    ensures out + Speak(ts[i..], say) == out + (if ts[i].Text? then ts[i].v else say(ts[i])) + Speak(ts[i + 1..], say)
  {
    assert ts[i..][1..] == ts[i + 1..];
    Regroup(out, if ts[i].Text? then ts[i].v else say(ts[i]), Speak(ts[i + 1..], say));
  }

  method SpeakLate(ts: seq<Token>, bind: string -> string) returns (out: string)
    ensures out == Speak(ts, LateBy(bind))
  {
    out := "";
    for i := 0 to |ts|
      invariant out + Speak(ts[i..], LateBy(bind)) == Speak(ts, LateBy(bind))
    {
      SpeakStep(ts, i, LateBy(bind), out);
      if ts[i].Text? {
        out := out + ts[i].v;
      } else if ts[i].Late? {
        out := out + bind(ts[i].key);
      }
    }
  }

  method FinalizeIrText(text: string, bind: string -> string) returns (r: Result<string, Issue>)
    ensures r == Finalize(text, bind)
  {
    var tokens, issues := TokenizeTemplate(text, Ir);
    if issues != [] { return Err(issues[0]); }
    var out := SpeakLate(tokens, bind);
    r := Ok(out);
  }
}
