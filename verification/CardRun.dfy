/** The loop that turns a card text into a template, against the function of CardText. */
module CardRun {
  import opened Common
  import opened Template
  import opened TemplateLaws
  import opened CardText

  lemma {:induction false} EscapeBefore(s: string)
    ensures Escape(s + "}}") == Escape(s) + "}}"
    decreases |s|
  {
    if s == "" {
      assert Escape("}}") == "}" + Escape("}") && Escape("}") == "}" + Escape("");
    } else if |s| >= 2 && s[0] == '{' && s[1] == '{' {
      assert (s + "}}")[2..] == s[2..] + "}}" && (s + "}}")[..2] == "{{";
      EscapeBefore(s[2..]);
    } else {
      var t := s + "}}";
      assert t[1..] == s[1..] + "}}" && t[0] == s[0] && t[1] == if |s| > 1 then s[1] else '}';
      EscapeBefore(s[1..]);
    }
  }

  /** An unknown macro is escaped as a whole by escaping its braces and its inside. */
  lemma EscapeMacro(inner: string)
    ensures Escape("{{" + inner + "}}") == "{{{{" + Escape(inner) + "}}"
  {
    var s := "{{" + inner + "}}";
    assert s[2..] == inner + "}}" && s[..2] == "{{";
    EscapeBefore(inner);
  }

  lemma EscapeChar(c: char)
    ensures Escape([c]) == [c]
  {
    assert Escape("") == "";
    assert [c][1..] == "";
  }

  ghost function TemplateFrom(text: string): string {
    Put(PiecesOf(Segments(text)), Grammar(Creation))
  }

  /** What the first segment of a text adds to the template, and to the notes. */
  function FirstOutput(text: string): string
    requires text != ""
  {
    var g := FirstSegment(text);
    if g.Macro? then PlaceholderText(g.tok) else Escape(g.s)
  }

  function FirstNote(text: string): seq<string>
    requires text != ""
  {
    var g := FirstSegment(text);
    if g.Unknown? then [g.s] else []
  }

  function FirstLength(text: string): (n: nat)
    requires text != ""
    ensures 0 < n <= |text|
  {
    |Written(FirstSegment(text))|
  }

  lemma NextSegment(text: string, rest: string)
    requires text != "" && rest == text[FirstLength(text)..]
    ensures TemplateFrom(text) == FirstOutput(text) + TemplateFrom(rest)
    ensures Notes(Segments(text)) == FirstNote(text) + Notes(Segments(rest))
  {
    var g := FirstSegment(text);
    assert Segments(text)[1..] == Segments(rest);
    assert PiecesOf(Segments(text)) == [PieceOf(g)] + PiecesOf(Segments(rest));
    assert PiecesOf(Segments(text))[1..] == PiecesOf(Segments(rest));
  }

  lemma CardStep(text: string, i: nat, next: nat, out: string, notes: seq<string>, piece: string, note: seq<string>)
    requires i < |text| && next == i + FirstLength(text[i..])
    requires piece == FirstOutput(text[i..]) && note == FirstNote(text[i..])
    ensures next <= |text|
    ensures out + TemplateFrom(text[i..]) == out + piece + TemplateFrom(text[next..])
    ensures notes + Notes(Segments(text[i..])) == notes + note + Notes(Segments(text[next..]))
  {
    var rest := text[i..];
    assert rest[FirstLength(rest)..] == text[next..];
    NextSegment(rest, text[next..]);
    Regroup(out, FirstOutput(rest), TemplateFrom(text[next..]));
    Regroup(notes, FirstNote(rest), Notes(Segments(text[next..])));
  }

  /** The output for the segment at the start of `rest`, how much of `rest` it takes, and its note. */
  method ConvertOne(rest: string) returns (piece: string, used: nat, note: seq<string>)
    requires rest != ""
    ensures used == FirstLength(rest) && piece == FirstOutput(rest) && note == FirstNote(rest)
  {
    var ch := rest[0];
    EscapeChar(ch);
    assert rest[..1] == [ch];
    if ch == '<' {
      var close := IndexOf(rest, '>');
      if close < |rest| && close > 0 && close <= 5 {
        var mapped := TagOf(rest[..close + 1]);
        if mapped.Some? {
          return PlaceholderText(mapped.value), close + 1, [];
        }
      }
      return [ch], 1, [];
    }
    if ch == '{' && |rest| > 1 && rest[1] == '{' {
      var end := CloseFrom(rest, 2);
      if end == |rest| { return Escape(rest), |rest|, []; }
      var inner := rest[2..end];
      assert rest[..end + 2] == "{{" + inner + "}}";
      var mapped := MacroOf(inner);
      if mapped.Some? { return PlaceholderText(mapped.value), end + 2, []; }
      EscapeMacro(inner);
      return "{{{{" + Escape(inner) + "}}", end + 2, [rest[..end + 2]];
    }
    return [ch], 1, [];
  }

  method CardTextToTemplate(text: string) returns (out: string, notes: seq<string>)
    ensures out == ToTemplate(text) && notes == Notes(Segments(text))
  {
    out, notes := "", [];
    var i := 0;
    ghost var whole, reported := TemplateFrom(text), Notes(Segments(text));
    assert text[0..] == text && "" + whole == whole && [] + reported == reported;
    while i < |text|
      invariant i <= |text|
      invariant whole == out + TemplateFrom(text[i..])
      invariant reported == notes + Notes(Segments(text[i..]))
    {
      var piece, used, note := ConvertOne(text[i..]);
      var next := i + used;
      CardStep(text, i, next, out, notes, piece, note);
      out, notes, i := out + piece, notes + note, next;
    }
    assert text[|text|..] == "" && out + "" == out;
  }
}
