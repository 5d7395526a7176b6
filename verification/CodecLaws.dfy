/** What the codecs write, byte by byte and letter by letter. */
module CodecLaws {
  import opened Common
  import Crc
  import Base64
  import opened Png
  import opened PngText

  // ---------------------------------------------------------------------------
  // Base64
  // ---------------------------------------------------------------------------

  const ALPHABET: string := "ABCDEFGHIJKLMNOPQRSTUVWXYZ" + "abcdefghijklmnopqrstuvwxyz" + "0123456789" + "+/"

  lemma Capitals()
    ensures forall i | 0 <= i < 26 :: "ABCDEFGHIJKLMNOPQRSTUVWXYZ"[i] == 'A' + i as char
  {
  }

  lemma SmallLetters()
    ensures forall i | 0 <= i < 26 :: "abcdefghijklmnopqrstuvwxyz"[i] == 'a' + i as char
  {
  }

  lemma Digits()
    ensures forall i | 0 <= i < 10 :: "0123456789"[i] == '0' + i as char
  {
  }

  lemma FourStretches(a: string, b: string, c: string, d: string, i: nat)
    requires i < |a| + |b| + |c| + |d|
    ensures (a + b + c + d)[i]
            == if i < |a| then a[i]
               else if i < |a| + |b| then b[i - |a|]
               else if i < |a| + |b| + |c| then c[i - |a| - |b|]
               else d[i - |a| - |b| - |c|]
  {
  }

  /** The letters of the values, as section 4 of RFC 4648 lists them. */
  lemma AlphabetExactly(v: int)
    requires 0 <= v < 64
    ensures |ALPHABET| == 64 && Base64.Letter(v) == ALPHABET[v]
  {
    var upper, lower, digits := "ABCDEFGHIJKLMNOPQRSTUVWXYZ", "abcdefghijklmnopqrstuvwxyz", "0123456789";
    FourStretches(upper, lower, digits, "+/", v);
    if v < 26 {
      Capitals();
    } else if v < 52 {
      SmallLetters();
    } else if v < 62 {
      Digits();
    }
  }

  /** The byte at `i`, or zero past the end. */
  ghost function ByteOrZero(b: seq<bv8>, i: nat): bv8 {
    if i < |b| then b[i] else 0
  }

  /** Four six-bit values hold the same 24 bits as three bytes. */
  ghost predicate SameBits(vs: seq<bv6>, x: bv8, y: bv8, z: bv8) {
    |vs| == 4 &&
    ((vs[0] as bv24) << 18) | ((vs[1] as bv24) << 12) | ((vs[2] as bv24) << 6) | (vs[3] as bv24)
      == ((x as bv24) << 16) | ((y as bv24) << 8) | (z as bv24)
  }

  lemma GroupHasBits(x: bv8, y: bv8, z: bv8)
    ensures SameBits(Base64.Group(x, y, z), x, y, z)
  {
  }

  /** The four characters for a group of which `n` bytes are there. */
  ghost predicate SpellsGroup(alphabet: string, four: string, vs: seq<bv6>, n: nat) {
    && |four| == |vs| == 4 && |alphabet| == 64
    && forall j | 0 <= j < 4 :: four[j] == if j <= n then alphabet[vs[j] as int] else '='
  }

  /** The letters of all values are those of `alphabet`. */
  ghost predicate Spelled(alphabet: string) {
    |alphabet| == 64 && forall v | 0 <= v < 64 :: Base64.Letter(v) == alphabet[v]
  }

  lemma AlphabetSpelled()
    ensures Spelled(ALPHABET)
  {
    forall v | 0 <= v < 64 ensures |ALPHABET| == 64 && Base64.Letter(v) == ALPHABET[v] { AlphabetExactly(v); }
    AlphabetExactly(0);
  }

  lemma LetterOf(alphabet: string, v: bv6)
    requires Spelled(alphabet)
    ensures 0 <= v as int < 64 && Base64.CharOf(v) == alphabet[v as int]
  {
    Base64.SixBitsBack(v);
  }

  lemma LettersSpell(alphabet: string, vs: seq<bv6>, n: nat)
    requires |vs| == 4 && 1 <= n <= 3 && Spelled(alphabet)
    ensures var pad := if n == 1 then "==" else if n == 2 then "=" else "";
            SpellsGroup(alphabet, Base64.Letters(vs[..n + 1]) + pad, vs, n)
  {
    LetterOf(alphabet, vs[0]);
    LetterOf(alphabet, vs[1]);
    LetterOf(alphabet, vs[2]);
    LetterOf(alphabet, vs[3]);
  }

  /** The first four characters of a text, and what comes after them. */
  lemma FirstFour(alphabet: string, b: seq<bv8>) returns (vs: seq<bv6>, four: string)
    requires b != [] && Spelled(alphabet)
    ensures Base64.Encode(b) == four + Base64.Encode(if |b| < 3 then [] else b[3..])
    ensures SameBits(vs, b[0], ByteOrZero(b, 1), ByteOrZero(b, 2))
    ensures SpellsGroup(alphabet, four, vs, if |b| < 3 then |b| else 3)
  {
    vs := Base64.Group(b[0], ByteOrZero(b, 1), ByteOrZero(b, 2));
    GroupHasBits(b[0], ByteOrZero(b, 1), ByteOrZero(b, 2));
    LettersSpell(alphabet, vs, if |b| < 3 then |b| else 3);
    assert Base64.Encode([]) == "";
    if |b| == 1 {
      assert b == [b[0]];
      Base64.EncodeOne(b[0]);
      four := Base64.Letters(vs[..2]) + "==";
    } else if |b| == 2 {
      assert b == [b[0], b[1]];
      Base64.EncodeTwo(b[0], b[1]);
      four := Base64.Letters(vs[..3]) + "=";
    } else {
      Base64.EncodeGroup(b);
      assert vs[..4] == vs && Base64.Letters(vs) + "" == Base64.Letters(vs);
      four := Base64.Letters(vs);
    }
  }

  /**
   * The text of a byte string has four characters for each three bytes or what is left of three:
   * letters for the bytes' bits, six at a time, and an equals sign for each byte that lacks.
   */
  lemma {:induction false} EncodeExactly(b: seq<bv8>, i: nat) returns (vs: seq<bv6>)
    requires 3 * i < |b|
    ensures 4 * i + 4 <= |Base64.Encode(b)|
    ensures SameBits(vs, b[3 * i], ByteOrZero(b, 3 * i + 1), ByteOrZero(b, 3 * i + 2))
    ensures SpellsGroup(ALPHABET, Base64.Encode(b)[4 * i..4 * i + 4], vs, if |b| - 3 * i < 3 then |b| - 3 * i else 3)
  {
    AlphabetSpelled();
    forall b ensures StartsSomehow(ALPHABET, Base64.Encode, b) { EncodeStarts(ALPHABET, b); }
    vs := GroupFrom(ALPHABET, Base64.Encode, b, i);
  }

  /** What `FirstFour` says of `encode`. */
  ghost predicate FoursFirst(alphabet: string, encode: seq<bv8> -> string) {
    forall b :: StartsSomehow(alphabet, encode, b)
  }

  ghost predicate StartsSomehow(alphabet: string, encode: seq<bv8> -> string, b: seq<bv8>) {
    b != [] ==> exists vs, four :: StartsWithGroup(alphabet, encode, b, vs, four)
  }

  ghost predicate StartsWithGroup(alphabet: string, encode: seq<bv8> -> string, b: seq<bv8>, vs: seq<bv6>, four: string)
    requires b != []
  {
    && encode(b) == four + encode(if |b| < 3 then [] else b[3..])
    && SameBits(vs, b[0], ByteOrZero(b, 1), ByteOrZero(b, 2))
    && SpellsGroup(alphabet, four, vs, if |b| < 3 then |b| else 3)
  }

  lemma EncodeStarts(alphabet: string, b: seq<bv8>)
    requires Spelled(alphabet)
    ensures StartsSomehow(alphabet, Base64.Encode, b)
  {
    if b != [] {
      var vs, four := FirstFour(alphabet, b);
      assert StartsWithGroup(alphabet, Base64.Encode, b, vs, four);
    }
  }

  lemma {:induction false} GroupFrom(alphabet: string, encode: seq<bv8> -> string, b: seq<bv8>, i: nat)
    returns (vs: seq<bv6>)
    requires FoursFirst(alphabet, encode) && 3 * i < |b|
    ensures 4 * i + 4 <= |encode(b)|
    ensures SameBits(vs, b[3 * i], ByteOrZero(b, 3 * i + 1), ByteOrZero(b, 3 * i + 2))
    ensures SpellsGroup(alphabet, encode(b)[4 * i..4 * i + 4], vs, if |b| - 3 * i < 3 then |b| - 3 * i else 3)
    decreases i
  {
    assert StartsSomehow(alphabet, encode, b);
    var first, four :| StartsWithGroup(alphabet, encode, b, first, four);
    var s := encode(b);
    if i == 0 {
      vs := first;
      assert s[..4] == four;
    } else {
      var rest := b[3..];
      vs := GroupFrom(alphabet, encode, rest, i - 1);
      var t := encode(rest);
      LaterFour(s, four, t, i);
      assert rest[3 * i - 3] == b[3 * i];
      assert ByteOrZero(rest, 3 * i - 2) == ByteOrZero(b, 3 * i + 1);
      assert ByteOrZero(rest, 3 * i - 1) == ByteOrZero(b, 3 * i + 2);
    }
  }

  lemma LaterFour(s: string, four: string, t: string, i: nat)
    requires i > 0 && |four| == 4 && s == four + t && 4 * i <= |t|
    ensures s[4 * i..4 * i + 4] == t[4 * i - 4..4 * i]
  {
  }

  lemma {:induction false} EncodedLength(b: seq<bv8>)
    ensures |Base64.Encode(b)| == (|b| + 2) / 3 * 4
    decreases |b|
  {
    if b != [] {
      AlphabetSpelled();
      var vs, four := FirstFour(ALPHABET, b);
      EncodedLength(if |b| < 3 then [] else b[3..]);
    }
  }

  // ---------------------------------------------------------------------------
  // What is accepted as Base64
  // ---------------------------------------------------------------------------

  /** Letters of the alphabet, not one more than a multiple of four; padded, if at all, to a multiple of four. */
  ghost predicate Acceptable(alphabet: string, data: string, pad: string) {
    && (forall i | 0 <= i < |data| :: data[i] in alphabet) && |data| % 4 != 1
    && (pad == "" || ((pad == "=" || pad == "==") && (|data| + |pad|) % 4 == 0))
  }

  lemma InAlphabet(alphabet: string, c: char)
    requires Spelled(alphabet)
    ensures c in alphabet <==> Base64.Code(c) >= 0
    ensures c == '=' ==> c !in alphabet
  {
    if Base64.Code(c) >= 0 { assert alphabet[Base64.Code(c)] == c; }
    if c in alphabet {
      var i :| 0 <= i < 64 && alphabet[i] == c;
      Base64.CodeOfLetter(i);
    }
  }

  /** White space is left out before anything is read. */
  lemma {:induction false} StripExactly(s: string)
    ensures Base64.Strip(s) == Filter((c: char) => c !in "\t\n\U{0C}\r ", s)
  {
    if s != "" { StripExactly(s[1..]); }
  }

  lemma EndExactly(s: string, data: string, pad: string)
    requires s == data + pad && (pad == "" || pad == "=" || pad == "==") && '=' !in data
    ensures Base64.DataEnd(s) == |data|
  {
    assert forall i | 0 <= i < |data| :: s[i] == data[i] && data[i] in data;
    assert forall i | |data| <= i < |s| :: s[i] == '=';
  }

  lemma EqualSigns(pad: string)
    requires |pad| <= 2 && forall i | 0 <= i < |pad| :: pad[i] == '='
    ensures pad == "" || pad == "=" || pad == "=="
  {
  }

  lemma AcceptedParts(alphabet: string, t: string) returns (data: string, pad: string)
    requires Base64.DecodeStripped(t).Ok? && Spelled(alphabet)
    ensures t == data + pad && Acceptable(alphabet, data, pad)
  {
    var end := Base64.DataEnd(t);
    data, pad := t[..end], t[end..];
    forall i | 0 <= i < end ensures data[i] in alphabet { InAlphabet(alphabet, t[i]); }
    EqualSigns(pad);
  }

  lemma PartsAccepted(alphabet: string, t: string, data: string, pad: string)
    requires t == data + pad && Acceptable(alphabet, data, pad) && Spelled(alphabet)
    ensures Base64.DecodeStripped(t).Ok?
  {
    InAlphabet(alphabet, '=');
    EndExactly(t, data, pad);
    forall i | 0 <= i < |data| ensures Base64.Code(t[i]) >= 0 {
      assert t[i] == data[i] && data[i] in alphabet;
      InAlphabet(alphabet, t[i]);
    }
  }

  /** A text is decoded exactly when, white space apart, it is such data with such padding. */
  lemma DecodeAccepts(s: string)
    ensures Base64.Decode(s).Ok?
            <==> exists data, pad :: Base64.Strip(s) == data + pad && Acceptable(ALPHABET, data, pad)
  {
    var t := Base64.Strip(s);
    AlphabetSpelled();
    if Base64.Decode(s).Ok? {
      var data, pad := AcceptedParts(ALPHABET, t);
    }
    forall data, pad | t == data + pad && Acceptable(ALPHABET, data, pad) ensures Base64.DecodeStripped(t).Ok? {
      PartsAccepted(ALPHABET, t, data, pad);
    }
  }

  // ---------------------------------------------------------------------------
  // The checksum
  // ---------------------------------------------------------------------------

  /** The register after the four letters of an end chunk, one by one. */
  lemma EndRegister()
    ensures Crc.FeedByte(0xffffffff, 0x49) == 0x22fde946 && Crc.FeedByte(0x22fde946, 0x45) == 0x992bac53
    ensures Crc.FeedByte(0x992bac53, 0x4e) == 0x639f4775 && Crc.FeedByte(0x639f4775, 0x44) == 0x51bd9f7d
  {
  }

  /** The checksum of an empty end chunk, as every PNG file ends with it. */
  lemma EndChecksum()
    ensures Crc.Checksum([0x49, 0x45, 0x4e, 0x44], 0) == 0xae426082
  {
    EndRegister();
    var bytes: seq<bv8> := [0x49, 0x45, 0x4e, 0x44];
    assert Crc.Invert(0) == 0xffffffff && Crc.Invert(0x51bd9f7d) == 0xae426082;
    assert bytes[1..] == [0x45, 0x4e, 0x44] && bytes[1..][1..] == [0x4e, 0x44];
    assert bytes[1..][1..][1..] == [0x44] && bytes[1..][1..][1..][1..] == [];
    assert Crc.Fold(Crc.FeedByte, 0xffffffff, bytes) == Crc.Fold(Crc.FeedByte, 0x22fde946, bytes[1..]);
    assert Crc.Fold(Crc.FeedByte, 0x22fde946, bytes[1..]) == Crc.Fold(Crc.FeedByte, 0x992bac53, bytes[1..][1..]);
    assert Crc.Fold(Crc.FeedByte, 0x992bac53, bytes[1..][1..])
        == Crc.Fold(Crc.FeedByte, 0x639f4775, bytes[1..][1..][1..]);
    assert Crc.Fold(Crc.FeedByte, 0x639f4775, bytes[1..][1..][1..]) == 0x51bd9f7d;
  }

  // ---------------------------------------------------------------------------
  // A file, byte by byte
  // ---------------------------------------------------------------------------

  /** The number of four bytes, highest first. */
  ghost function Number(b: Bytes): nat
    requires |b| == 4
  {
    b[0] as int * 0x100_0000 + b[1] as int * 0x1_0000 + b[2] as int * 0x100 + b[3] as int
  }

  lemma NumberExactly(b: Bytes)
    requires |b| == 4
    ensures BigEndian(b) == Number(b)
  {
    assert b[..3][..2] == b[..2] && b[..2][..1] == b[..1] && b[..1][..0] == [];
    assert BigEndian(b[..1]) == b[0] as int;
    assert BigEndian(b[..2]) == BigEndian(b[..1]) * 256 + b[1] as int;
    assert BigEndian(b[..3]) == BigEndian(b[..2]) * 256 + b[2] as int;
  }

  /** Characters and bytes with the same codes. */
  ghost predicate SameCodes(s: string, b: Bytes) {
    |s| == |b| && forall i | 0 <= i < |s| :: s[i] as int == b[i] as int
  }

  /** Four letters. */
  ghost predicate FourLetters(kind: string) {
    |kind| == 4 && forall i | 0 <= i < 4 :: 'A' <= kind[i] <= 'Z' || 'a' <= kind[i] <= 'z'
  }

  /** A chunk in a file: the length of its data, its type, its data, and the checksum over type and data. */
  ghost predicate Laid(c: Chunk, b: Bytes) {
    && |b| == 12 + |c.data| && Number(b[..4]) == |c.data|
    && SameCodes(c.kind, b[4..8]) && b[8..|b| - 4] == c.data
    && Number(b[|b| - 4..]) == Crc.Checksum(Bits(b[4..|b| - 4]), 0) as int
  }

  lemma ChecksumOfBoth(kind: Bytes, data: Bytes)
    ensures ChunkCrc(kind, data) as int == Crc.Checksum(Bits(kind + data), 0) as int
  {
    assert Bits(kind + data) == Bits(kind) + Bits(data);
    Crc.ChecksumInPieces(Bits(kind), Bits(data), 0);
  }

  lemma ChunkExactly(c: Chunk)
    requires |c.data| < 0x1_0000_0000
    ensures EncodeWith(ChunkCrc, c).Ok? <==> FourLetters(c.kind)
    ensures EncodeWith(ChunkCrc, c).Ok? ==> Laid(c, EncodeWith(ChunkCrc, c).value)
  {
    assert FourLetters(c.kind) <==> IsKind(c.kind);
    if IsKind(c.kind) {
      KindIsLatin(c.kind);
      var kind := LatinBytes(c.kind);
      ChecksumOfBoth(kind, c.data);
      FieldsLaid(c, kind, U32Bytes(|c.data|), U32Bytes(ChunkCrc(kind, c.data)));
      U32There(|c.data|);
      U32There(ChunkCrc(kind, c.data));
      NumberExactly(U32Bytes(|c.data|));
      NumberExactly(U32Bytes(ChunkCrc(kind, c.data)));
    }
  }

  lemma FieldsLaid(c: Chunk, kind: Bytes, size: Bytes, check: Bytes)
    requires |kind| == |size| == |check| == 4
    ensures var b := size + kind + c.data + check;
            && |b| == 12 + |c.data| && b[..4] == size && b[4..8] == kind && b[8..|b| - 4] == c.data
            && b[|b| - 4..] == check && b[4..|b| - 4] == kind + c.data
  {
  }

  ghost predicate Short(cs: seq<Chunk>) {
    forall i | 0 <= i < |cs| :: |cs[i].data| < 0x1_0000_0000
  }

  ghost predicate Each<T>(p: T -> bool, s: seq<T>) {
    forall i | 0 <= i < |s| :: p(s[i])
  }

  ghost predicate EachPair<T, U>(p: (T, U) -> bool, s: seq<T>, t: seq<U>) {
    |s| == |t| && forall i | 0 <= i < |s| :: p(s[i], t[i])
  }

  lemma EachCons<T>(p: T -> bool, x: T, s: seq<T>)
    ensures Each(p, [x] + s) <==> p(x) && Each(p, s)
  {
    var all := [x] + s;
    assert all[0] == x && forall i | 0 <= i < |s| :: s[i] == all[i + 1];
  }

  lemma EachPairCons<T, U>(p: (T, U) -> bool, x: T, s: seq<T>, y: U, t: seq<U>)
    requires p(x, y) && EachPair(p, s, t)
    ensures EachPair(p, [x] + s, [y] + t)
  {
  }

  ghost predicate AllLaid(cs: seq<Chunk>, parts: seq<Bytes>) {
    EachPair(Laid, cs, parts)
  }

  ghost function HasKind(): Chunk -> bool {
    (c: Chunk) => FourLetters(c.kind)
  }

  ghost predicate AllKinds(cs: seq<Chunk>) {
    Each(HasKind(), cs)
  }

  /** The bodies written one after another by any writer. */
  lemma BodyStep(write: Writer, cs: seq<Chunk>)
    requires cs != []
    ensures Body(write, cs).Ok? <==> write(cs[0]).Ok? && Body(write, cs[1..]).Ok?
    ensures Body(write, cs).Ok? ==> Body(write, cs).value == write(cs[0]).value + Body(write, cs[1..]).value
  {
  }

  lemma {:induction false} BodyExactly(cs: seq<Chunk>) returns (parts: seq<Bytes>)
    requires Short(cs)
    ensures Body(WriterFor(ChunkCrc), cs).Ok? <==> AllKinds(cs)
    ensures Body(WriterFor(ChunkCrc), cs).Ok? ==>
              Body(WriterFor(ChunkCrc), cs).value == Flat(parts) && AllLaid(cs, parts)
  {
    parts := [];
    if cs != [] {
      var write, c, more := WriterFor(ChunkCrc), cs[0], cs[1..];
      assert cs == [c] + more;
      ChunkExactly(c);
      assert write(c) == EncodeWith(ChunkCrc, c);
      BodyStep(write, cs);
      var rest := BodyExactly(more);
      var part := if write(c).Ok? then write(c).value else [];
      EachCons(HasKind(), c, more);
      if Body(write, cs).Ok? { EachPairCons(Laid, c, more, part, rest); }
      parts := [part] + rest;
      assert Flat(parts) == part + Flat(rest) by { assert parts[1..] == rest; }
    }
  }

  /** A file is the signature and the chunks, one after another; it can be written when every type is four letters. */
  lemma FileExactly(cs: seq<Chunk>) returns (parts: seq<Bytes>)
    requires Short(cs)
    ensures Write(cs).Ok? <==> AllKinds(cs)
    ensures Write(cs).Ok? ==>
              Write(cs).value == [0x89, 0x50, 0x4e, 0x47, 0x0d, 0x0a, 0x1a, 0x0a] + Flat(parts) && AllLaid(cs, parts)
  {
    parts := BodyExactly(cs);
  }

  // ---------------------------------------------------------------------------
  // Text chunks
  // ---------------------------------------------------------------------------

  /** A keyword of 1 to 79 characters, a zero, and a text. */
  ghost predicate TextForm(e: TextEntry, data: Bytes) {
    var n := |e.keyword|;
    && 1 <= n <= 79 && |data| == n + 1 + |e.text|
    && SameCodes(e.keyword, data[..n]) && data[n] == 0 && SameCodes(e.text, data[n + 1..])
    && '\0' !in e.keyword
  }

  lemma CodesAreLatin(b: Bytes, s: string)
    ensures SameCodes(s, b) <==> s == LatinText(b)
  {
  }

  lemma TextExactly(e: TextEntry, data: Bytes)
    ensures DecodeText(data) == Some(e) <==> TextForm(e, data)
  {
    var nul := FirstZero(data);
    if DecodeText(data) == Some(e) {
      CodesAreLatin(data[..nul], e.keyword);
      CodesAreLatin(data[nul + 1..], e.text);
      forall i | 0 <= i < nul ensures e.keyword[i] != '\0' { assert data[..nul][i] == data[i]; }
    }
    if TextForm(e, data) {
      var n := |e.keyword|;
      forall i | 0 <= i < n ensures data[i] != 0 { assert data[..n][i] == data[i] && e.keyword[i] in e.keyword; }
      assert nul == n;
      CodesAreLatin(data[..n], e.keyword);
      CodesAreLatin(data[n + 1..], e.text);
    }
  }

  /** The entry a chunk holds, if it is a text chunk of that form. */
  ghost predicate Holds(c: Chunk, e: TextEntry) {
    c.kind == "tEXt" && TextForm(e, c.data)
  }

  /** What is written for an entry, and which chunks stay when keywords are removed. */
  lemma TextChunksExactly(e: TextEntry, c: Chunk, remove: seq<string>)
    ensures EncodeText(e) == Ok(c) <==> Holds(c, e) && '\0' !in e.text
    ensures EntryOf(c) == [e] <==> Holds(c, e)
    ensures IsKept(remove)(c) <==> forall x | Holds(c, x) :: x.keyword !in remove
  {
    forall x ensures EntryOf(c) == [x] <==> Holds(c, x) { TextExactly(x, c.data); }
    TextChunkExactly(e, c.data);
    if EncodeText(e).Ok? { assert EncodeText(e).value.kind == "tEXt"; }
    if EntryOf(c) != [] { assert Holds(c, EntryOf(c)[0]); }
  }

  /** The first entry with a keyword. */
  ghost predicate FirstWith(es: seq<TextEntry>, keyword: string, i: int) {
    0 <= i < |es| && es[i].keyword == keyword && forall j | 0 <= j < i :: es[j].keyword != keyword
  }

  lemma {:induction false} FirstExactly(es: seq<TextEntry>, keyword: string)
    ensures FirstEntry(es, keyword).None? <==> forall i | 0 <= i < |es| :: es[i].keyword != keyword
    ensures FirstEntry(es, keyword).Some? ==>
              exists i :: FirstWith(es, keyword, i) && es[i] == FirstEntry(es, keyword).value
  {
    if es != [] {
      FirstExactly(es[1..], keyword);
      assert forall i | 0 < i < |es| :: es[i] == es[1..][i - 1];
      if es[0].keyword == keyword {
        assert FirstWith(es, keyword, 0);
      } else if i :| FirstWith(es[1..], keyword, i) && es[1..][i] == FirstEntry(es[1..], keyword).value {
        assert FirstWith(es, keyword, i + 1);
      }
    }
  }

  /** A card is taken from the first `ccv3` entry, and from the first `chara` entry only when there is no `ccv3`. */
  lemma CardChoice(es: seq<TextEntry>)
    ensures CardText(es).Some? ==>
              exists i ::
                && (FirstWith(es, "ccv3", i)
                    || (FirstWith(es, "chara", i) && forall j | 0 <= j < |es| :: es[j].keyword != "ccv3"))
                && CardText(es) == Some(es[i].text)
    ensures CardText(es).None? <==> forall i | 0 <= i < |es| :: es[i].keyword !in {"ccv3", "chara"}
  {
    FirstExactly(es, "ccv3");
    FirstExactly(es, "chara");
  }

  /** Stripping takes out exactly the texts in their three forms, the camera data and the time. */
  lemma StrippedKinds(cs: seq<Chunk>, c: Chunk)
    ensures c in Filter(IsImage, cs) <==> c in cs && c.kind !in {"tEXt", "zTXt", "iTXt", "eXIf", "tIME"}
  {
    FilterMembers(IsImage, cs);
    if c in cs && IsImage(c) {
      var i :| 0 <= i < |cs| && cs[i] == c;
      FilterHolds(IsImage, cs, i);
    }
  }
}
