/** The loops that read and write PNG files, over byte arrays, against the functions of Png. */
module PngRun {
  import opened Common
  import opened Png
  import Crc

  method CheckOf(table: array<bv32>, kind: Bytes, data: Bytes) returns (crc: u32)
    requires Crc.IsTable(table[..])
    ensures crc == ChunkCrc(kind, data)
  {
    var first := Crc.Crc32(table, Bits(kind), 0);
    var both := Crc.Crc32(table, Bits(data), first);
    crc := both as u32;
  }

  lemma FourDigits(v: nat)
    ensures U32Bytes(v) == [ByteOf(v / 0x1000000), ByteOf(v / 0x10000), ByteOf(v / 0x100), ByteOf(v)]
  {
    assert v / 256 / 256 == v / 0x10000 && v / 256 / 256 / 256 == v / 0x1000000;
    assert BigEndianBytes(v / 0x1000000, 1) == [] + [ByteOf(v / 0x1000000)];
    assert BigEndianBytes(v / 0x10000, 2) == BigEndianBytes(v / 0x1000000, 1) + [ByteOf(v / 0x10000)];
    assert BigEndianBytes(v / 0x100, 3) == BigEndianBytes(v / 0x10000, 2) + [ByteOf(v / 0x100)];
  }

  /** Overwrites four bytes. */
  method WriteU32BE(b: array<byte>, o: nat, v: nat)
    requires o + 4 <= b.Length
    modifies b
    ensures b[..] == old(b[..o]) + U32Bytes(v) + old(b[o + 4..])
  {
    FourDigits(v);
    b[o] := ByteOf(v / 0x1000000);
    b[o + 1] := ByteOf(v / 0x10000);
    b[o + 2] := ByteOf(v / 0x100);
    b[o + 3] := ByteOf(v);
  }

  /** `out.set(data, o)`. */
  method SetBytes(b: array<byte>, o: nat, data: Bytes)
    requires o + |data| <= b.Length
    modifies b
    ensures b[..] == old(b[..o]) + data + old(b[o + |data|..])
  {
    var i := 0;
    while i < |data|
      invariant i <= |data|
      invariant b[..] == old(b[..o]) + data[..i] + old(b[o + i..])
    {
      b[o + i] := data[i];
      i := i + 1;
    }
    assert data[..i] == data;
  }

  lemma FourFields(z: Bytes, size: Bytes, kind: Bytes, data: Bytes, check: Bytes)
    requires |size| == |kind| == |check| == 4 && |z| == 12 + |data|
    ensures var one := z[..0] + size + z[4..];
            var two := one[..4] + kind + one[8..];
            var three := two[..8] + data + two[8 + |data|..];
            three[..8 + |data|] + check + three[12 + |data|..] == size + kind + data + check
  {
  }

  method EncodePngChunk(table: array<bv32>, c: Chunk) returns (r: Result<Bytes, PngError>)
    requires Crc.IsTable(table[..])
    ensures r == EncodeWith(ChunkCrc, c)
  {
    if !IsKind(c.kind) { return Err(BadChunkType); }
    KindIsLatin(c.kind);
    var out := new byte[12 + |c.data|];
    ghost var z := out[..];
    var kind := LatinBytes(c.kind);
    WriteU32BE(out, 0, |c.data|);
    SetBytes(out, 4, kind);
    SetBytes(out, 8, c.data);
    var crc := CheckOf(table, kind, c.data);
    WriteU32BE(out, 8 + |c.data|, crc);
    FourFields(z, U32Bytes(|c.data|), kind, c.data, U32Bytes(crc));
    r := Ok(out[..]);
  }

  method ReadOne(table: array<bv32>, bytes: Bytes, o: nat, first: bool, lim: Limits)
      returns (r: Result<Chunk, PngError>)
    requires Crc.IsTable(table[..]) && o <= |bytes|
    ensures r == ReaderFor(ChunkCrc, lim)(bytes[o..], first)
  {
    if o + 12 > |bytes| { return Err(Truncated); }
    assert bytes[o..][..4] == bytes[o..o + 4] && bytes[o..][4..8] == bytes[o + 4..o + 8];
    var len := BigEndian(bytes[o..o + 4]);
    if len > 0x7fffffff { return Err(BadChunkLength); }
    if len > lim.maxChunkBytes { return Err(ChunkTooLarge); }
    if o + 12 + len > |bytes| { return Err(Truncated); }
    var kind := bytes[o + 4..o + 8];
    var data := bytes[o + 8..o + 8 + len];
    assert bytes[o..][8..8 + len] == data && bytes[o..][8 + len..12 + len] == bytes[o + 8 + len..o + 12 + len];
    if !IsKind(LatinText(kind)) { return Err(BadChunkType); }
    var crc := CheckOf(table, kind, data);
    if crc != BigEndian(bytes[o + 8 + len..o + 12 + len]) { return Err(BadCrc); }
    if first && LatinText(kind) != HEADER { return Err(MissingHeader); }
    r := Ok(Chunk(LatinText(kind), data));
  }

  ghost function After(chunks: seq<Chunk>, r: Result<seq<Chunk>, PngError>): Result<seq<Chunk>, PngError> {
    match r
    case Err(e) => Err(e)
    case Ok(cs) => Ok(chunks + cs)
  }

  lemma ParseOne(read: Reader, rest: Bytes, chunks: seq<Chunk>, max: nat)
    requires Sized(read) && rest != [] && |chunks| < max && read(rest, |chunks| == 0).Ok?
    ensures var c := read(rest, |chunks| == 0).value;
            var tail := rest[12 + |c.data|..];
            && After(chunks, Parse(read, rest, |chunks|, max))
               == if c.kind != END then After(chunks + [c], Parse(read, tail, |chunks| + 1, max))
                  else if tail == [] then Ok(chunks + [c]) else Err(TrailingData)
  {
    var c := read(rest, |chunks| == 0).value;
    var more := Parse(read, rest[12 + |c.data|..], |chunks| + 1, max);
    if more.Ok? { assert chunks + ([c] + more.value) == chunks + [c] + more.value; }
  }

  lemma ReadFrom(crc: Check, bytes: Bytes, lim: Limits)
    requires |bytes| <= lim.maxFileBytes && SIGNATURE <= bytes
    ensures ReadWith(crc, bytes, lim) == After([], Parse(ReaderFor(crc, lim), bytes[8..], 0, lim.maxChunks))
  {
    var r := Parse(ReaderFor(crc, lim), bytes[8..], 0, lim.maxChunks);
    if r.Ok? { assert [] + r.value == r.value; }
  }

  /** The outcome of a reading that has read `chunks`, whether it saw the end, and still has `rest` to read. */
  ghost function Outcome(read: Reader, chunks: seq<Chunk>, rest: Bytes, ended: bool, max: nat)
      : Result<seq<Chunk>, PngError>
    requires Sized(read)
  {
    if !ended then After(chunks, Parse(read, rest, |chunks|, max))
    else if rest == [] then Ok(chunks)
    else Err(TrailingData)
  }

  lemma OutcomeAfter(read: Reader, chunks: seq<Chunk>, bytes: Bytes, o: nat, max: nat, c: Chunk)
      returns (ended: bool, more: seq<Chunk>, next: nat)
    requires Sized(read) && o < |bytes| && |chunks| < max && read(bytes[o..], |chunks| == 0) == Ok(c)
    ensures next == o + 12 + |c.data| <= |bytes| && more == chunks + [c] && (ended <==> c.kind == END)
    ensures Outcome(read, chunks, bytes[o..], false, max) == Outcome(read, more, bytes[next..], ended, max)
  {
    ended, more, next := c.kind == END, chunks + [c], o + 12 + |c.data|;
    ParseOne(read, bytes[o..], chunks, max);
    assert bytes[o..][12 + |c.data|..] == bytes[next..];
  }

  lemma OutcomeFails(read: Reader, chunks: seq<Chunk>, rest: Bytes, max: nat)
    requires Sized(read)
    ensures var goal := Outcome(read, chunks, rest, false, max);
            && (rest == [] ==> goal == Err(Truncated))
            && (rest != [] && |chunks| >= max ==> goal == Err(TooManyChunks))
            && (rest != [] && |chunks| < max && read(rest, |chunks| == 0).Err?
                ==> goal == Err(read(rest, |chunks| == 0).error))
  {
  }

  method ReadPngChunks(table: array<bv32>, bytes: Bytes, lim: Limits) returns (r: Result<seq<Chunk>, PngError>)
    requires Crc.IsTable(table[..])
    ensures r == Read(bytes, lim)
  {
    if |bytes| > lim.maxFileBytes { return Err(TooLarge); }
    if !(SIGNATURE <= bytes) { return Err(BadSignature); }
    ghost var read := ReaderFor(ChunkCrc, lim);
    ghost var goal := ReadWith(ChunkCrc, bytes, lim);
    ReadFrom(ChunkCrc, bytes, lim);
    var chunks: seq<Chunk> := [];
    var o, sawEnd := 8, false;
    while o < |bytes|
      invariant 8 <= o <= |bytes|
      invariant goal == Outcome(read, chunks, bytes[o..], sawEnd, lim.maxChunks)
    {
      if sawEnd { return Err(TrailingData); }
      OutcomeFails(read, chunks, bytes[o..], lim.maxChunks);
      if |chunks| >= lim.maxChunks { return Err(TooManyChunks); }
      var one := ReadOne(table, bytes, o, |chunks| == 0, lim);
      if one.Err? { return Err(one.error); }
      var c := one.value;
      ghost var ended, more, next := OutcomeAfter(read, chunks, bytes, o, lim.maxChunks, c);
      chunks := chunks + [c];
      if c.kind == END { sawEnd := true; }
      o := o + 12 + |c.data|;
      assert chunks == more && o == next && sawEnd == ended;
      assert goal == Outcome(read, more, bytes[next..], ended, lim.maxChunks);
    }
    if !sawEnd {
      OutcomeFails(read, chunks, bytes[o..], lim.maxChunks);
      return Err(Truncated);
    }
    r := Ok(chunks);
  }
}
