/**
 * The text chunks of a PNG (section 4.2.7 of RFC 2083): a keyword, a zero byte and a text, both
 * in Latin-1; removing them, replacing them, and reading them back.
 */
module PngText {
  import opened Common
  import opened Png
  import Base64

  datatype TextEntry = TextEntry(keyword: string, text: string)

  const TEXT: string := "tEXt"

  /** The place of the first zero byte, or the length when there is none. */
  function FirstZero(b: Bytes): (i: nat)
    ensures i <= |b| && (i < |b| ==> b[i] == 0) && (forall j | 0 <= j < i :: b[j] != 0)
  {
    if b == [] || b[0] == 0 then 0 else 1 + FirstZero(b[1..])
  }

  function DecodeText(data: Bytes): Option<TextEntry> {
    var nul := FirstZero(data);
    if nul == |data| || nul < 1 || nul > 79 then None
    else Some(TextEntry(LatinText(data[..nul]), LatinText(data[nul + 1..])))
  }

  function EncodeText(e: TextEntry): Result<Chunk, PngError> {
    if |e.keyword| < 1 || |e.keyword| > 79 || '\0' in e.keyword then Err(BadTextChunk)
    else if '\0' in e.text then Err(BadTextChunk)
    else if !IsLatin(e.keyword) || !IsLatin(e.text) then Err(BadTextChunk)
    else Ok(Chunk(TEXT, LatinBytes(e.keyword) + [0] + LatinBytes(e.text)))
  }

  lemma ZeroFree(s: string)
    requires IsLatin(s)
    ensures '\0' in s <==> exists i | 0 <= i < |s| :: LatinBytes(s)[i] == 0
  {
    forall i | 0 <= i < |s| ensures s[i] == '\0' <==> LatinBytes(s)[i] == 0 {
    }
  }

  lemma TextThere(e: TextEntry)
    requires EncodeText(e).Ok?
    ensures DecodeText(EncodeText(e).value.data) == Some(e)
  {
    var k, t := LatinBytes(e.keyword), LatinBytes(e.text);
    var data := k + [0] + t;
    ZeroFree(e.keyword);
    assert forall j | 0 <= j < |k| :: data[j] == k[j] != 0;
    assert data[|k|] == 0 && data[..|k|] == k && data[|k| + 1..] == t;
    assert FirstZero(data) == |k|;
    LatinBack(e.keyword);
    LatinBack(e.text);
  }

  lemma TextBack(data: Bytes)
    requires DecodeText(data).Some? && '\0' !in DecodeText(data).value.text
    ensures EncodeText(DecodeText(data).value) == Ok(Chunk(TEXT, data))
  {
    var nul := FirstZero(data);
    var k, t := data[..nul], data[nul + 1..];
    LatinThere(k);
    LatinThere(t);
    ZeroFree(LatinText(k));
    assert data == k + [0] + t;
  }

  /** An entry is written as `data` exactly when `data` is read as the entry and its text has no zero. */
  lemma TextChunkExactly(e: TextEntry, data: Bytes)
    ensures EncodeText(e) == Ok(Chunk(TEXT, data)) <==> DecodeText(data) == Some(e) && '\0' !in e.text
  {
    if EncodeText(e).Ok? { TextThere(e); }
    if DecodeText(data) == Some(e) && '\0' !in e.text { TextBack(data); }
  }

  // ---------------------------------------------------------------------------
  // Text entries of a file
  // ---------------------------------------------------------------------------

  function EntryOf(c: Chunk): seq<TextEntry> {
    if c.kind != TEXT then []
    else match DecodeText(c.data) case None => [] case Some(e) => [e]
  }

  function Entries(cs: seq<Chunk>): seq<TextEntry> {
    if cs == [] then [] else EntryOf(cs[0]) + Entries(cs[1..])
  }

  /** A text chunk whose keyword is to be removed. */
  function IsKept(remove: seq<string>): Chunk -> bool {
    (c: Chunk) => !(EntryOf(c) != [] && EntryOf(c)[0].keyword in remove)
  }

  function StaysFor(remove: seq<string>): TextEntry -> bool {
    (e: TextEntry) => e.keyword !in remove
  }

  function EncodeAll(es: seq<TextEntry>): Result<seq<Chunk>, PngError> {
    if es == [] then Ok([])
    else
      match EncodeText(es[0])
      case Err(e) => Err(e)
      case Ok(first) =>
        match EncodeAll(es[1..])
        case Err(e) => Err(e)
        case Ok(rest) => Ok([first] + rest)
  }

  /** The chunks of the file with the old texts removed and the new ones put before its end. */
  function Replaced(cs: seq<Chunk>, entries: seq<TextEntry>, remove: seq<string>): Result<seq<Chunk>, PngError> {
    var kept := Filter(IsKept(remove), cs);
    if kept == [] || kept[|kept| - 1].kind != END then Err(Truncated)
    else
      match EncodeAll(entries)
      case Err(e) => Err(e)
      case Ok(texts) => Ok(kept[..|kept| - 1] + texts + kept[|kept| - 1..])
  }

  ghost function ReplaceText(png: Bytes, entries: seq<TextEntry>, remove: seq<string>, lim: Limits)
      : Result<Bytes, PngError>
  {
    match Read(png, lim)
    case Err(e) => Err(e)
    case Ok(cs) =>
      match Replaced(cs, entries, remove)
      case Err(e) => Err(e)
      case Ok(out) => Write(out)
  }

  const METADATA: set<string> := {"tEXt", "zTXt", "iTXt", "eXIf", "tIME"}

  function IsImage(c: Chunk): bool { c.kind !in METADATA }

  ghost function StripMetadata(png: Bytes, lim: Limits): Result<Bytes, PngError> {
    match Read(png, lim)
    case Err(e) => Err(e)
    case Ok(cs) => Write(Filter(IsImage, cs))
  }

  lemma {:induction false} EntriesConcat(a: seq<Chunk>, b: seq<Chunk>)
    ensures Entries(a + b) == Entries(a) + Entries(b)
  {
    if a == [] {
      assert a + b == b;
    } else {
      assert (a + b)[1..] == a[1..] + b;
      EntriesConcat(a[1..], b);
    }
  }

  lemma {:induction false} EntriesOfKept(cs: seq<Chunk>, remove: seq<string>)
    ensures Entries(Filter(IsKept(remove), cs)) == Filter(StaysFor(remove), Entries(cs))
  {
    if cs != [] {
      EntriesOfKept(cs[1..], remove);
      var c := cs[0];
      FilterConcat(StaysFor(remove), EntryOf(c), Entries(cs[1..]));
      var now := if IsKept(remove)(c) then [c] else [];
      EntriesConcat(now, Filter(IsKept(remove), cs[1..]));
      assert Entries([c]) == EntryOf(c) + Entries([]);
      assert Filter(StaysFor(remove), EntryOf(c)) == Entries(now);
    }
  }

  lemma {:induction false} EntriesOfEncoded(es: seq<TextEntry>)
    requires EncodeAll(es).Ok?
    ensures Entries(EncodeAll(es).value) == es
    ensures forall i | 0 <= i < |EncodeAll(es).value| :: EncodeAll(es).value[i].kind == TEXT
  {
    if es != [] {
      EntriesOfEncoded(es[1..]);
      TextThere(es[0]);
    }
  }

  lemma EndIsKept<T>(cs: seq<T>, keep: T -> bool)
    requires cs != [] && keep(cs[|cs| - 1])
    ensures var kept, last := Filter(keep, cs), |cs| - 1;
            kept == Filter(keep, cs[..last]) + [cs[last]]
  {
    var last := |cs| - 1;
    assert cs == cs[..last] + [cs[last]];
    FilterConcat(keep, cs[..last], [cs[last]]);
    assert Filter(keep, [cs[last]]) == [cs[last]];
  }

  /** Room for a list of chunks: their number, each one's size, and the size of the file. */
  ghost predicate Fits(cs: seq<Chunk>, lim: Limits) {
    && |cs| <= lim.maxChunks && 8 + BodySize(cs) <= lim.maxFileBytes
    && (forall i | 0 <= i < |cs| :: |cs[i].data| <= 0x7fffffff && |cs[i].data| <= lim.maxChunkBytes)
  }

  /** A header, other chunks of known kinds, and an end chunk are well-formed when there is room. */
  lemma Assembled(front: seq<Chunk>, last: Chunk, lim: Limits)
    requires front != [] && front[0].kind == HEADER && last.kind == END
    requires forall i | 0 <= i < |front| :: IsKind(front[i].kind) && front[i].kind != END
    ensures WellFormed(front + [last], lim) <==> Fits(front + [last], lim)
  {
    var cs := front + [last];
    forall i | 0 <= i < |cs| ensures IsKind(cs[i].kind) && (cs[i].kind == END <==> i == |cs| - 1) {
      if i < |front| { assert cs[i] == front[i]; }
    }
    if WellFormed(cs, lim) {
      forall i | 0 <= i < |cs| ensures |cs[i].data| <= 0x7fffffff && |cs[i].data| <= lim.maxChunkBytes {
        assert ChunkFits(cs[i], lim);
      }
    }
  }

  /** What a filter that keeps the header leaves of the chunks before the end. */
  lemma FrontKept(cs: seq<Chunk>, keep: Chunk -> bool, lim: Limits)
    requires WellFormed(cs, lim) && keep(cs[0])
    ensures |cs| >= 2
    ensures var front := Filter(keep, cs[..|cs| - 1]);
            && front != [] && front[0] == cs[0] && cs[0].kind == HEADER
            && (forall i | 0 <= i < |front| :: IsKind(front[i].kind) && front[i].kind != END)
  {
    assert ChunkFits(cs[0], lim) && (cs[0].kind == END <==> 0 == |cs| - 1);
    var before := cs[..|cs| - 1];
    var front := Filter(keep, before);
    FilterMembers(keep, before);
    forall i | 0 <= i < |front| ensures IsKind(front[i].kind) && front[i].kind != END {
      var j :| 0 <= j < |before| && before[j] == front[i];
      assert ChunkFits(cs[j], lim) && (cs[j].kind == END <==> j == |cs| - 1);
    }
  }

  lemma ReplacedShape(cs: seq<Chunk>, entries: seq<TextEntry>, remove: seq<string>, lim: Limits)
    requires WellFormed(cs, lim) && EncodeAll(entries).Ok?
    ensures Replaced(cs, entries, remove)
            == Ok(Filter(IsKept(remove), cs[..|cs| - 1]) + EncodeAll(entries).value + [cs[|cs| - 1]])
  {
    var last := |cs| - 1;
    assert ChunkFits(cs[last], lim) && cs[last].kind == END;
    EndIsKept(cs, IsKept(remove));
    var rest, kept := Filter(IsKept(remove), cs[..last]), Filter(IsKept(remove), cs);
    assert kept[..|kept| - 1] == rest && kept[|kept| - 1..] == [cs[last]];
  }

  lemma EntriesAround(rest: seq<Chunk>, texts: seq<Chunk>, last: Chunk)
    requires last.kind != TEXT
    ensures Entries(rest + texts + [last]) == Entries(rest + [last]) + Entries(texts)
  {
    EntriesConcat(rest + texts, [last]);
    EntriesConcat(rest, texts);
    EntriesConcat(rest, [last]);
    assert Entries([last]) == EntryOf(last) + Entries([]) == [];
  }

  lemma ReplacedEntries(cs: seq<Chunk>, texts: seq<Chunk>, entries: seq<TextEntry>, remove: seq<string>, lim: Limits)
    requires WellFormed(cs, lim) && EncodeAll(entries) == Ok(texts)
    ensures Entries(Filter(IsKept(remove), cs[..|cs| - 1]) + texts + [cs[|cs| - 1]])
            == Filter(StaysFor(remove), Entries(cs)) + entries
  {
    var last := cs[|cs| - 1];
    assert ChunkFits(last, lim) && last.kind == END;
    EndIsKept(cs, IsKept(remove));
    EntriesAround(Filter(IsKept(remove), cs[..|cs| - 1]), texts, last);
    EntriesOfEncoded(entries);
    EntriesOfKept(cs, remove);
  }

  /**
   * Replacing texts: the chunks that stay are unchanged and in order, the new texts stand before
   * the end chunk, and the entries read from the result are the old ones that stay and then the new.
   */
  lemma ReplaceLaw(cs: seq<Chunk>, entries: seq<TextEntry>, remove: seq<string>, lim: Limits)
    requires WellFormed(cs, lim) && EncodeAll(entries).Ok?
    ensures var out := Replaced(cs, entries, remove);
            && out == Ok(Filter(IsKept(remove), cs[..|cs| - 1]) + EncodeAll(entries).value + [cs[|cs| - 1]])
            && Entries(out.value) == Filter(StaysFor(remove), Entries(cs)) + entries
            && (WellFormed(out.value, lim) <==> Fits(out.value, lim))
  {
    var texts := EncodeAll(entries).value;
    var rest := Filter(IsKept(remove), cs[..|cs| - 1]);
    ReplacedShape(cs, entries, remove, lim);
    ReplacedEntries(cs, texts, entries, remove, lim);
    FrontKept(cs, IsKept(remove), lim);
    EntriesOfEncoded(entries);
    forall i | 0 <= i < |rest + texts| ensures IsKind((rest + texts)[i].kind) && (rest + texts)[i].kind != END {
      if i >= |rest| { assert (rest + texts)[i] == texts[i - |rest|]; }
    }
    Assembled(rest + texts, cs[|cs| - 1], lim);
  }

  // ---------------------------------------------------------------------------
  // Embedding bytes in a file, and taking them out
  // ---------------------------------------------------------------------------

  /** `texts.find(t => t.keyword === keyword)`. */
  function FirstEntry(es: seq<TextEntry>, keyword: string): Option<TextEntry> {
    if es == [] then None
    else if es[0].keyword == keyword then Some(es[0])
    else FirstEntry(es[1..], keyword)
  }

  lemma {:induction false} FirstEntryConcat(a: seq<TextEntry>, b: seq<TextEntry>, keyword: string)
    ensures FirstEntry(a + b, keyword) == if FirstEntry(a, keyword).Some? then FirstEntry(a, keyword)
            else FirstEntry(b, keyword)
  {
    if a == [] {
      assert a + b == b;
    } else {
      assert (a + b)[1..] == a[1..] + b;
      FirstEntryConcat(a[1..], b, keyword);
    }
  }

  lemma {:induction false} FirstEntryAbsent(es: seq<TextEntry>, keyword: string)
    requires forall i | 0 <= i < |es| :: es[i].keyword != keyword
    ensures FirstEntry(es, keyword) == None
  {
    if es != [] { FirstEntryAbsent(es[1..], keyword); }
  }

  /**
   * Texts put into a file come back when the file that results is read: it is accepted exactly
   * when there is room for it; the first entry under a keyword that was removed is the first new
   * one; and the chunks that stay are the same chunks in the same order.
   */
  lemma ReplacedTextComesBack(png: Bytes, entries: seq<TextEntry>, remove: seq<string>, keyword: string, lim: Limits)
    requires Read(png, lim).Ok? && EncodeAll(entries).Ok? && keyword in remove
    ensures ReplaceText(png, entries, remove, lim).Ok?
    ensures var cs := Read(png, lim).value;
            var back := Read(ReplaceText(png, entries, remove, lim).value, lim);
            var out := Replaced(cs, entries, remove).value;
            && (back == Ok(out) <==> Fits(out, lim))
            && FirstEntry(Entries(out), keyword) == FirstEntry(entries, keyword)
            && out == Filter(IsKept(remove), cs[..|cs| - 1]) + EncodeAll(entries).value + [cs[|cs| - 1]]
  {
    var cs := Read(png, lim).value;
    WriteInvertsRead(png, lim);
    ReplaceLaw(cs, entries, remove, lim);
    var out := Replaced(cs, entries, remove).value;
    ChunksOfKnownKinds(cs, entries, remove, lim);
    WriteSucceeds(out);
    ReadInvertsWrite(out, lim);
    var olds := Filter(StaysFor(remove), Entries(cs));
    FilterMembers(StaysFor(remove), Entries(cs));
    FirstEntryAbsent(olds, keyword);
    FirstEntryConcat(olds, entries, keyword);
  }

  lemma ChunksOfKnownKinds(cs: seq<Chunk>, entries: seq<TextEntry>, remove: seq<string>, lim: Limits)
    requires WellFormed(cs, lim) && EncodeAll(entries).Ok?
    ensures var out := Filter(IsKept(remove), cs[..|cs| - 1]) + EncodeAll(entries).value + [cs[|cs| - 1]];
            forall i | 0 <= i < |out| :: IsKind(out[i].kind)
  {
    var last := |cs| - 1;
    var rest, texts := Filter(IsKept(remove), cs[..last]), EncodeAll(entries).value;
    FrontKept(cs, IsKept(remove), lim);
    EntriesOfEncoded(entries);
    assert ChunkFits(cs[last], lim);
    var out := rest + texts + [cs[last]];
    forall i | 0 <= i < |out| ensures IsKind(out[i].kind) {
      if |rest| <= i < |rest| + |texts| { assert out[i] == texts[i - |rest|]; }
    }
  }

  lemma {:induction false} BodySucceeds(crc: Check, cs: seq<Chunk>)
    requires forall i | 0 <= i < |cs| :: IsKind(cs[i].kind)
    ensures Body(WriterFor(crc), cs).Ok?
  {
    if cs != [] { BodySucceeds(crc, cs[1..]); }
  }

  lemma WriteSucceeds(cs: seq<Chunk>)
    requires forall i | 0 <= i < |cs| :: IsKind(cs[i].kind)
    ensures Write(cs).Ok?
  {
    BodySucceeds(ChunkCrc, cs);
  }

  const V2: string := "chara"

  const V3: string := "ccv3"

  /** What the exporter embeds: the older form of the card, then the newer, both in Base64. */
  function CardEntries(v2: seq<bv8>, v3: seq<bv8>): seq<TextEntry> {
    [TextEntry(V2, Base64.Encode(v2)), TextEntry(V3, Base64.Encode(v3))]
  }

  /** What the importer takes out: the newer form if there is one, else the older. */
  function CardText(es: seq<TextEntry>): Option<string> {
    match FirstEntry(es, V3)
    case Some(e) => Some(e.text)
    case None =>
      match FirstEntry(es, V2)
      case Some(e) => Some(e.text)
      case None => None
  }

  lemma EncodedIsPlain(b: seq<bv8>)
    ensures IsLatin(Base64.Encode(b)) && '\0' !in Base64.Encode(b)
  {
    var s := Base64.Encode(b);
    forall i | 0 <= i < |s| ensures 0 < s[i] as int < 256 {
      if i < |Base64.Pack(b)| { assert s[i] == Base64.CharOf(Base64.Pack(b)[i]); }
    }
  }

  lemma CardEntriesEncode(v2: seq<bv8>, v3: seq<bv8>)
    ensures EncodeAll(CardEntries(v2, v3)).Ok?
  {
    var es := CardEntries(v2, v3);
    EncodedIsPlain(v2);
    EncodedIsPlain(v3);
    assert EncodeText(es[0]).Ok? && EncodeText(es[1]).Ok?;
    assert EncodeAll([]) == Ok([]);
    assert EncodeAll([es[1]]).Ok?;
    assert es[1..] == [es[1]];
  }

  /** A card exported into a picture is the card imported from it, whatever cards the picture held. */
  lemma CardRoundTrip(png: Bytes, v2: seq<bv8>, v3: seq<bv8>, lim: Limits)
    requires Read(png, lim).Ok?
    ensures var entries := [TextEntry("chara", Base64.Encode(v2)), TextEntry("ccv3", Base64.Encode(v3))];
            var out := ReplaceText(png, entries, ["chara", "ccv3"], lim);
            && CardEntries(v2, v3) == entries && out.Ok?
            && (Fits(Replaced(Read(png, lim).value, entries, ["chara", "ccv3"]).value, lim) ==>
                  && Read(out.value, lim).Ok?
                  && CardText(Entries(Read(out.value, lim).value)) == Some(Base64.Encode(v3))
                  && Base64.Decode(CardText(Entries(Read(out.value, lim).value)).value) == Ok(v3))
  {
    var entries := CardEntries(v2, v3);
    CardEntriesEncode(v2, v3);
    ReplacedTextComesBack(png, entries, [V2, V3], V3, lim);
    assert entries[1..][0] == entries[1];
    assert FirstEntry(entries, V3) == Some(entries[1]);
    Base64.DecodeEncode(v3);
  }

  // ---------------------------------------------------------------------------
  // Stripping metadata
  // ---------------------------------------------------------------------------

  lemma {:induction false} FilterSize(p: Chunk -> bool, cs: seq<Chunk>)
    ensures BodySize(Filter(p, cs)) <= BodySize(cs)
  {
    if cs != [] {
      FilterSize(p, cs[1..]);
      assert ([cs[0]] + Filter(p, cs[1..]))[1..] == Filter(p, cs[1..]);
    }
  }

  lemma StrippedIsWellFormed(cs: seq<Chunk>, lim: Limits)
    requires WellFormed(cs, lim)
    ensures WellFormed(Filter(IsImage, cs), lim)
  {
    var last := |cs| - 1;
    assert ChunkFits(cs[last], lim) && cs[last].kind == END;
    EndIsKept(cs, IsImage);
    FrontKept(cs, IsImage, lim);
    var out := Filter(IsImage, cs);
    FilterMembers(IsImage, cs);
    FilterSize(IsImage, cs);
    forall i | 0 <= i < |out| ensures |out[i].data| <= 0x7fffffff && |out[i].data| <= lim.maxChunkBytes {
      var j :| 0 <= j < |cs| && cs[j] == out[i];
      assert ChunkFits(cs[j], lim);
    }
    Assembled(Filter(IsImage, cs[..last]), cs[last], lim);
  }

  /**
   * Stripping always gives a file that is accepted; it holds the chunks that are no metadata, in
   * order and unchanged; stripping it again changes no byte; and the first stripping changes a
   * file exactly when it holds metadata.
   */
  lemma StripLaw(png: Bytes, lim: Limits)
    requires Read(png, lim).Ok?
    ensures StripMetadata(png, lim).Ok?
    ensures var cs, out := Read(png, lim).value, StripMetadata(png, lim).value;
            && Read(out, lim) == Ok(Filter(IsImage, cs))
            && StripMetadata(out, lim) == Ok(out)
            && (out == png <==> forall i | 0 <= i < |cs| :: cs[i].kind !in METADATA)
  {
    var cs := Read(png, lim).value;
    WriteInvertsRead(png, lim);
    StrippedIsWellFormed(cs, lim);
    var images := Filter(IsImage, cs);
    ReadInvertsWrite(images, lim);
    FilterMembers(IsImage, cs);
    FilterAll(IsImage, images);
    FilterSame(IsImage, cs);
    if forall i | 0 <= i < |cs| :: cs[i].kind !in METADATA {
      FilterAll(IsImage, cs);
    }
  }
}
