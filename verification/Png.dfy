/**
 * The PNG container (sections 3.2 and 3.4 of RFC 2083): a signature and a list of chunks, each
 * with its length, type, data and checksum.
 */
module Png {
  import opened Common
  import Crc

  newtype byte = v: int | 0 <= v < 256

  type Bytes = seq<byte>

  type u32 = v: nat | v < 0x1_0000_0000

  /** A checksum over the type and the data of a chunk; reading and writing only compare it. */
  type Check = (Bytes, Bytes) -> u32

  datatype Chunk = Chunk(kind: string, data: Bytes)

  datatype Limits = Limits(maxFileBytes: nat, maxChunkBytes: nat, maxChunks: nat)

  datatype PngError =
    | TooLarge | BadSignature | TrailingData | TooManyChunks | Truncated
    | BadChunkLength | ChunkTooLarge | BadChunkType | BadCrc | MissingHeader
    | BadTextChunk

  const HEADER: string := "IHDR"

  const END: string := "IEND"

  const SIGNATURE: Bytes := [0x89, 0x50, 0x4e, 0x47, 0x0d, 0x0a, 0x1a, 0x0a]

  // ---------------------------------------------------------------------------
  // Integers and Latin-1
  // ---------------------------------------------------------------------------

  function ByteOf(v: int): byte {
    (v % 256) as byte
  }

  /** The last `n` base-256 digits of `v`, highest first. */
  function BigEndianBytes(v: nat, n: nat): (b: Bytes)
    ensures |b| == n
    decreases n
  {
    if n == 0 then [] else BigEndianBytes(v / 256, n - 1) + [ByteOf(v)]
  }

  function BigEndian(b: Bytes): nat {
    if b == [] then 0 else BigEndian(b[..|b| - 1]) * 256 + (b[|b| - 1] as int)
  }

  function Power256(n: nat): (p: nat)
    ensures p > 0
  {
    if n == 0 then 1 else 256 * Power256(n - 1)
  }

  /** The four bytes of an unsigned 32-bit number, highest first. */
  function U32Bytes(v: nat): (b: Bytes)
    ensures |b| == 4
  {
    BigEndianBytes(v, 4)
  }

  lemma LastDigit(q: nat, d: nat)
    requires d < 256
    ensures (q * 256 + d) / 256 == q && (q * 256 + d) % 256 == d
  {
  }

  lemma {:induction false} BigEndianThere(v: nat, n: nat)
    requires v < Power256(n)
    ensures BigEndian(BigEndianBytes(v, n)) == v
    decreases n
  {
    if n > 0 {
      BigEndianThere(v / 256, n - 1);
      var front := BigEndianBytes(v / 256, n - 1);
      assert (front + [ByteOf(v)])[..n - 1] == front;
    }
  }

  lemma {:induction false} BigEndianBack(b: Bytes)
    ensures BigEndianBytes(BigEndian(b), |b|) == b && BigEndian(b) < Power256(|b|)
  {
    if b != [] {
      var front, last := b[..|b| - 1], b[|b| - 1];
      BigEndianBack(front);
      LastDigit(BigEndian(front), last as int);
      assert ByteOf(BigEndian(b)) == last;
      assert b == front + [last];
    }
  }

  lemma FourBytes()
    ensures Power256(4) == 0x1_0000_0000
  {
    assert Power256(1) == 256;
    assert Power256(2) == 0x1_0000;
    assert Power256(3) == 0x100_0000;
  }

  lemma U32There(v: nat)
    requires v < 0x1_0000_0000
    ensures BigEndian(U32Bytes(v)) == v
  {
    FourBytes();
    BigEndianThere(v, 4);
  }

  lemma U32Back(b: Bytes)
    requires |b| == 4
    ensures U32Bytes(BigEndian(b)) == b && BigEndian(b) < 0x1_0000_0000
  {
    FourBytes();
    BigEndianBack(b);
  }

  function LatinText(b: Bytes): (s: string)
    ensures |s| == |b|
  {
    seq(|b|, i requires 0 <= i < |b| => b[i] as char)
  }

  predicate IsLatin(s: string) {
    forall i | 0 <= i < |s| :: s[i] as int < 256
  }

  function LatinBytes(s: string): (b: Bytes)
    requires IsLatin(s)
    ensures |b| == |s|
  {
    seq(|s|, i requires 0 <= i < |s| => s[i] as byte)
  }

  lemma LatinThere(b: Bytes)
    ensures IsLatin(LatinText(b)) && LatinBytes(LatinText(b)) == b
  {
  }

  lemma LatinBack(s: string)
    requires IsLatin(s)
    ensures LatinText(LatinBytes(s)) == s
  {
  }

  predicate IsLetter(c: char) {
    'A' <= c <= 'Z' || 'a' <= c <= 'z'
  }

  predicate IsKind(s: string) {
    |s| == 4 && IsLetter(s[0]) && IsLetter(s[1]) && IsLetter(s[2]) && IsLetter(s[3])
  }

  lemma KindIsLatin(s: string)
    requires IsKind(s)
    ensures IsLatin(s)
  {
  }

  type Writer = Chunk -> Result<Bytes, PngError>

  /** Reads the chunk at the start of some bytes; the flag says that it is the first of the file. */
  type Reader = (Bytes, bool) -> Result<Chunk, PngError>

  // ---------------------------------------------------------------------------
  // Writing
  // ---------------------------------------------------------------------------

  function Bits(b: Bytes): seq<bv8> {
    seq(|b|, i requires 0 <= i < |b| => b[i] as bv8)
  }

  /** The checksum over type and data. */
  function ChunkCrc(kind: Bytes, data: Bytes): u32
  {
    Crc.Checksum(Bits(data), Crc.Checksum(Bits(kind), 0)) as u32
  }

  function ChunkBytes(crc: Check, c: Chunk): Bytes
    requires IsLatin(c.kind)
  {
    U32Bytes(|c.data|) + LatinBytes(c.kind) + c.data + U32Bytes(crc(LatinBytes(c.kind), c.data))
  }

  function EncodeWith(crc: Check, c: Chunk): Result<Bytes, PngError> {
    if IsKind(c.kind) then
      KindIsLatin(c.kind);
      Ok(ChunkBytes(crc, c))
    else Err(BadChunkType)
  }

  function WriterFor(crc: Check): Writer {
    (c: Chunk) => EncodeWith(crc, c)
  }

  /** The chunks one after another, each written by `write`. */
  function Body(write: Writer, cs: seq<Chunk>): Result<Bytes, PngError>
    decreases |cs|
  {
    if cs == [] then Ok([])
    else
      match write(cs[0])
      case Err(e) => Err(e)
      case Ok(first) =>
        match Body(write, cs[1..])
        case Err(e) => Err(e)
        case Ok(rest) => Ok(first + rest)
  }

  function WriteWith(crc: Check, cs: seq<Chunk>): Result<Bytes, PngError> {
    match Body(WriterFor(crc), cs)
    case Err(e) => Err(e)
    case Ok(body) => Ok(SIGNATURE + body)
  }

  function Write(cs: seq<Chunk>): Result<Bytes, PngError> {
    WriteWith(ChunkCrc, cs)
  }

  // ---------------------------------------------------------------------------
  // Reading
  // ---------------------------------------------------------------------------

  /** The chunk at the start of `rest`, checked in full. */
  function ReadChunk(crc: Check, rest: Bytes, first: bool, lim: Limits): Result<Chunk, PngError>
  {
    if |rest| < 12 then Err(Truncated)
    else
      var len := BigEndian(rest[..4]);
      if len > 0x7fffffff then Err(BadChunkLength)
      else if len > lim.maxChunkBytes then Err(ChunkTooLarge)
      else if 12 + len > |rest| then Err(Truncated)
      else
        var kind := rest[4..8];
        var data := rest[8..8 + len];
        if !IsKind(LatinText(kind)) then Err(BadChunkType)
        else if crc(kind, data) != BigEndian(rest[8 + len..12 + len]) then Err(BadCrc)
        else if first && LatinText(kind) != HEADER then Err(MissingHeader)
        else Ok(Chunk(LatinText(kind), data))
  }

  ghost predicate Sized(read: Reader) {
    forall b, first :: read(b, first).Ok? ==> 12 + |read(b, first).value.data| <= |b|
  }

  /** The chunks of `rest`, of which the first has the place `n`; at most `max` in all, ended by an end chunk. */
  ghost function Parse(read: Reader, rest: Bytes, n: nat, max: nat): Result<seq<Chunk>, PngError>
    requires Sized(read)
    decreases |rest|
  {
    if rest == [] then Err(Truncated)
    else if n >= max then Err(TooManyChunks)
    else
      match read(rest, n == 0)
      case Err(e) => Err(e)
      case Ok(c) =>
        var tail := rest[12 + |c.data|..];
        if c.kind == END then (if tail == [] then Ok([c]) else Err(TrailingData))
        else
          match Parse(read, tail, n + 1, max)
          case Err(e) => Err(e)
          case Ok(cs) => Ok([c] + cs)
  }

  function ReaderFor(crc: Check, lim: Limits): (read: Reader)
    ensures Sized(read)
  {
    (b: Bytes, first: bool) => ReadChunk(crc, b, first, lim)
  }

  ghost function ReadWith(crc: Check, bytes: Bytes, lim: Limits): Result<seq<Chunk>, PngError> {
    if |bytes| > lim.maxFileBytes then Err(TooLarge)
    else if !(SIGNATURE <= bytes) then Err(BadSignature)
    else Parse(ReaderFor(crc, lim), bytes[8..], 0, lim.maxChunks)
  }

  ghost function Read(bytes: Bytes, lim: Limits): Result<seq<Chunk>, PngError> {
    ReadWith(ChunkCrc, bytes, lim)
  }

  // ---------------------------------------------------------------------------
  // Reading inverts writing
  // ---------------------------------------------------------------------------

  function BodySize(cs: seq<Chunk>): nat {
    if cs == [] then 0 else 12 + |cs[0].data| + BodySize(cs[1..])
  }

  ghost predicate ChunkFits(c: Chunk, lim: Limits) {
    IsKind(c.kind) && |c.data| <= 0x7fffffff && |c.data| <= lim.maxChunkBytes
  }

  /** The chunks from place `n` on: the first one a header, the last one and only that one an end. */
  ghost predicate WellFormedFrom(cs: seq<Chunk>, n: nat, lim: Limits) {
    && cs != [] && n + |cs| <= lim.maxChunks
    && (n == 0 ==> cs[0].kind == HEADER)
    && (forall i | 0 <= i < |cs| :: ChunkFits(cs[i], lim) && (cs[i].kind == END <==> i == |cs| - 1))
  }

  ghost predicate WellFormed(cs: seq<Chunk>, lim: Limits) {
    WellFormedFrom(cs, 0, lim) && 8 + BodySize(cs) <= lim.maxFileBytes
  }

  lemma FieldsThere(size: Bytes, kind: Bytes, data: Bytes, check: Bytes, more: Bytes)
    requires |size| == |kind| == |check| == 4
    ensures var rest, len := size + kind + data + check + more, |data|;
            && rest[..4] == size && rest[4..8] == kind && rest[8..8 + len] == data
            && rest[8 + len..12 + len] == check && rest[12 + len..] == more
  {
  }

  lemma ReadChunkThere(crc: Check, c: Chunk, more: Bytes, first: bool, lim: Limits)
    requires ChunkFits(c, lim) && IsLatin(c.kind) && (first ==> c.kind == HEADER)
    ensures ReadChunk(crc, ChunkBytes(crc, c) + more, first, lim) == Ok(c)
  {
    var kind := LatinBytes(c.kind);
    FieldsThere(U32Bytes(|c.data|), kind, c.data, U32Bytes(crc(kind, c.data)), more);
    U32There(|c.data|);
    U32There(crc(kind, c.data));
    LatinBack(c.kind);
  }

  lemma FieldsOf(rest: Bytes, len: nat)
    requires 12 + len <= |rest|
    ensures rest[..12 + len] == rest[..4] + rest[4..8] + rest[8..8 + len] + rest[8 + len..12 + len]
  {
  }

  lemma ReadChunkBack(crc: Check, rest: Bytes, first: bool, lim: Limits)
    requires ReadChunk(crc, rest, first, lim).Ok?
    ensures var c := ReadChunk(crc, rest, first, lim).value;
            ChunkFits(c, lim) && IsLatin(c.kind) && ChunkBytes(crc, c) == rest[..12 + |c.data|]
  {
    var c := ReadChunk(crc, rest, first, lim).value;
    var len := |c.data|;
    LatinThere(rest[4..8]);
    U32Back(rest[..4]);
    U32Back(rest[8 + len..12 + len]);
    FieldsOf(rest, len);
  }

  /** A well-formed list is an end chunk alone, or another chunk before a well-formed list. */
  lemma WellFormedCons(c: Chunk, more: seq<Chunk>, n: nat, lim: Limits)
    ensures WellFormedFrom([c] + more, n, lim) <==>
            && ChunkFits(c, lim) && (n == 0 ==> c.kind == HEADER)
            && (if c.kind == END then more == [] && n < lim.maxChunks else WellFormedFrom(more, n + 1, lim))
  {
    var cs := [c] + more;
    assert cs[1..] == more;
    if WellFormedFrom(cs, n, lim) {
      assert ChunkFits(cs[0], lim) && (cs[0].kind == END <==> 0 == |cs| - 1);
      forall i | 0 <= i < |more| ensures ChunkFits(more[i], lim) && (more[i].kind == END <==> i == |more| - 1) {
        assert more[i] == cs[i + 1];
      }
    }
  }

  ghost predicate Writes(write: Writer, lim: Limits) {
    forall c :: ChunkFits(c, lim) ==> write(c).Ok? && |write(c).value| == 12 + |c.data|
  }

  /** Each chunk that fits is read as it was written, whatever follows it. */
  ghost predicate ReadsWritten(read: Reader, write: Writer, lim: Limits)
    requires Writes(write, lim)
  {
    forall c, more, first :: ChunkFits(c, lim) && (first ==> c.kind == HEADER)
        ==> read(write(c).value + more, first) == Ok(c)
  }

  /** Each chunk read fits and is written as the bytes it was read from. */
  ghost predicate WritesRead(read: Reader, write: Writer, lim: Limits)
    requires Sized(read)
  {
    forall b, first :: read(b, first).Ok? ==>
      var c := read(b, first).value;
      ChunkFits(c, lim) && (first ==> c.kind == HEADER) && write(c) == Ok(b[..12 + |c.data|])
  }

  lemma {:induction false} ParseThere(read: Reader, write: Writer, cs: seq<Chunk>, n: nat, lim: Limits)
    requires Sized(read) && Writes(write, lim) && ReadsWritten(read, write, lim) && WellFormedFrom(cs, n, lim)
    ensures Body(write, cs).Ok? && |Body(write, cs).value| == BodySize(cs)
    ensures Parse(read, Body(write, cs).value, n, lim.maxChunks) == Ok(cs)
    decreases |cs|
  {
    var c, more := cs[0], cs[1..];
    assert cs == [c] + more;
    WellFormedCons(c, more, n, lim);
    var head := write(c).value;
    if c.kind == END {
      assert more == [] && cs == [c];
      assert read(head + [], n == 0) == Ok(c) && head + [] == head && head[12 + |c.data|..] == [];
      assert Body(write, cs).value == head;
    } else {
      ParseThere(read, write, more, n + 1, lim);
      var tail := Body(write, more).value;
      assert read(head + tail, n == 0) == Ok(c);
      assert (head + tail)[12 + |c.data|..] == tail;
    }
  }

  lemma {:induction false} ParseBack(read: Reader, write: Writer, rest: Bytes, n: nat, lim: Limits)
    requires Sized(read) && WritesRead(read, write, lim) && Parse(read, rest, n, lim.maxChunks).Ok?
    ensures var cs := Parse(read, rest, n, lim.maxChunks).value;
            WellFormedFrom(cs, n, lim) && Body(write, cs) == Ok(rest) && |rest| == BodySize(cs)
    decreases |rest|
  {
    var c := read(rest, n == 0).value;
    var tail := rest[12 + |c.data|..];
    assert rest == rest[..12 + |c.data|] + tail;
    if c.kind == END {
      WellFormedCons(c, [], n, lim);
      assert [c] + [] == [c];
    } else {
      ParseBack(read, write, tail, n + 1, lim);
      var more := Parse(read, tail, n + 1, lim.maxChunks).value;
      WellFormedCons(c, more, n, lim);
      assert ([c] + more)[1..] == more;
    }
  }

  lemma EncodeWrites(crc: Check, lim: Limits)
    ensures Writes(WriterFor(crc), lim)
  {
    var write := WriterFor(crc);
    forall c | ChunkFits(c, lim) ensures write(c).Ok? && |write(c).value| == 12 + |c.data| {
      KindIsLatin(c.kind);
    }
  }

  lemma EncodedIsRead(crc: Check, c: Chunk, more: Bytes, first: bool, lim: Limits)
    requires ChunkFits(c, lim) && (first ==> c.kind == HEADER)
    ensures EncodeWith(crc, c).Ok? && ReadChunk(crc, EncodeWith(crc, c).value + more, first, lim) == Ok(c)
  {
    KindIsLatin(c.kind);
    ReadChunkThere(crc, c, more, first, lim);
  }

  lemma EncodeThere(crc: Check, lim: Limits)
    requires Writes(WriterFor(crc), lim)
    ensures ReadsWritten(ReaderFor(crc, lim), WriterFor(crc), lim)
  {
    var read, write := ReaderFor(crc, lim), WriterFor(crc);
    forall c, more, first | ChunkFits(c, lim) && (first ==> c.kind == HEADER)
      ensures read(write(c).value + more, first) == Ok(c)
    {
      EncodedIsRead(crc, c, more, first, lim);
    }
  }

  lemma ReadIsEncoded(crc: Check, b: Bytes, first: bool, lim: Limits)
    requires ReadChunk(crc, b, first, lim).Ok?
    ensures var c := ReadChunk(crc, b, first, lim).value;
            ChunkFits(c, lim) && (first ==> c.kind == HEADER) && 12 + |c.data| <= |b|
                && EncodeWith(crc, c) == Ok(b[..12 + |c.data|])
  {
    ReadChunkBack(crc, b, first, lim);
  }

  lemma EncodeBack(crc: Check, lim: Limits)
    ensures WritesRead(ReaderFor(crc, lim), WriterFor(crc), lim)
  {
    var read, write := ReaderFor(crc, lim), WriterFor(crc);
    forall b, first | read(b, first).Ok?
      ensures var c := read(b, first).value;
              ChunkFits(c, lim) && (first ==> c.kind == HEADER) && 12 + |c.data| <= |b|
                  && write(c) == Ok(b[..12 + |c.data|])
    {
      ReadIsEncoded(crc, b, first, lim);
    }
  }

  lemma ReadInvertsWriteWith(crc: Check, cs: seq<Chunk>, lim: Limits)
    ensures (WriteWith(crc, cs).Ok? && ReadWith(crc, WriteWith(crc, cs).value, lim) == Ok(cs)) <==> WellFormed(cs, lim)
  {
    EncodeWrites(crc, lim);
    EncodeThere(crc, lim);
    EncodeBack(crc, lim);
    if WellFormed(cs, lim) {
      ParseThere(ReaderFor(crc, lim), WriterFor(crc), cs, 0, lim);
      assert (SIGNATURE + Body(WriterFor(crc), cs).value)[8..] == Body(WriterFor(crc), cs).value;
    }
    if WriteWith(crc, cs).Ok? && ReadWith(crc, WriteWith(crc, cs).value, lim) == Ok(cs) {
      ParseBack(ReaderFor(crc, lim), WriterFor(crc), WriteWith(crc, cs).value[8..], 0, lim);
    }
  }

  lemma WriteInvertsReadWith(crc: Check, bytes: Bytes, lim: Limits)
    requires ReadWith(crc, bytes, lim).Ok?
    ensures WriteWith(crc, ReadWith(crc, bytes, lim).value) == Ok(bytes)
            && WellFormed(ReadWith(crc, bytes, lim).value, lim)
  {
    EncodeBack(crc, lim);
    ParseBack(ReaderFor(crc, lim), WriterFor(crc), bytes[8..], 0, lim);
    assert bytes == SIGNATURE + bytes[8..];
  }

  /** Exactly the well-formed chunk lists within the limits are read back as they were written. */
  lemma ReadInvertsWrite(cs: seq<Chunk>, lim: Limits)
    ensures (Write(cs).Ok? && Read(Write(cs).value, lim) == Ok(cs)) <==> WellFormed(cs, lim)
  {
    ReadInvertsWriteWith(ChunkCrc, cs, lim);
  }

  /** Every accepted file is written back byte for byte. */
  lemma WriteInvertsRead(bytes: Bytes, lim: Limits)
    requires Read(bytes, lim).Ok?
    ensures Write(Read(bytes, lim).value) == Ok(bytes) && WellFormed(Read(bytes, lim).value, lim)
  {
    WriteInvertsReadWith(ChunkCrc, bytes, lim);
  }
}
