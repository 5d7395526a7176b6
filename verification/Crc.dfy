/**
 * The CRC-32 of PNG chunks (section 3.4 of RFC 2083): the table-driven loop computes the
 * remainder a shift register would, fed one bit at a time.
 */
module Crc {

  /** One shift of the register, with the reflected polynomial 0xedb88320. */
  function Step(c: bv32): bv32 {
    if c & 1 == 1 then 0xedb88320 ^ (c >> 1) else c >> 1
  }

  function Half(b: bv32): bv32 { b >> 1 }

  function Xor(x: bv32, y: bv32): bv32 { x ^ y }

  function Iterate<T>(f: T -> T, n: nat, x: T): T {
    if n == 0 then x else Iterate(f, n - 1, f(x))
  }

  /** Feeds the low `n` bits of `b` to the register, lowest bit first. */
  function FeedBits(c: bv32, b: bv32, n: nat): bv32
    decreases n
  {
    if n == 0 then c else FeedBits(Step(c ^ (b & 1)), b >> 1, n - 1)
  }

  function FeedByte(c: bv32, b: bv8): bv32 {
    FeedBits(c, b as bv32, 8)
  }

  function Fold<S, B>(f: (S, B) -> S, s: S, bytes: seq<B>): S
    decreases |bytes|
  {
    if bytes == [] then s else Fold(f, f(s, bytes[0]), bytes[1..])
  }

  function Invert(c: bv32): bv32 { c ^ 0xffffffff }

  /** The checksum of `bytes`, continuing from the checksum `seed` of what came before. */
  function Checksum(bytes: seq<bv8>, seed: bv32): bv32 {
    Invert(Fold(FeedByte, Invert(seed), bytes))
  }

  // ---------------------------------------------------------------------------
  // The step is linear
  // ---------------------------------------------------------------------------

  lemma XorShift(x: bv32, y: bv32)
    ensures (x ^ y) >> 1 == (x >> 1) ^ (y >> 1)
  {
  }

  lemma XorLow(x: bv32, y: bv32)
    ensures (x ^ y) & 1 == (x & 1) ^ (y & 1)
    ensures (x & 1 == 0 || x & 1 == 1) && (y & 1 == 0 || y & 1 == 1)
  {
  }

  lemma XorAlgebra(p: bv32, a: bv32, b: bv32)
    ensures (p ^ a) ^ b == p ^ (a ^ b) && a ^ (p ^ b) == p ^ (a ^ b) && (p ^ a) ^ (p ^ b) == a ^ b
  {
  }

  lemma StepLinear(x: bv32, y: bv32)
    ensures Step(x ^ y) == Step(x) ^ Step(y)
  {
    XorShift(x, y);
    XorLow(x, y);
    XorAlgebra(0xedb88320, x >> 1, y >> 1);
  }

  lemma {:induction false} IterateHomomorphism<T(!new)>(f: T -> T, op: (T, T) -> T, n: nat, x: T, y: T)
    requires forall a, b :: f(op(a, b)) == op(f(a), f(b))
    ensures Iterate(f, n, op(x, y)) == op(Iterate(f, n, x), Iterate(f, n, y))
  {
    if n > 0 { IterateHomomorphism(f, op, n - 1, f(x), f(y)); }
  }

  lemma StepsLinear(n: nat, x: bv32, y: bv32)
    ensures Iterate(Step, n, Xor(x, y)) == Xor(Iterate(Step, n, x), Iterate(Step, n, y))
  {
    forall a: bv32, b: bv32 ensures Step(Xor(a, b)) == Xor(Step(a), Step(b)) { StepLinear(a, b); }
    IterateHomomorphism(Step, Xor, n, x, y);
  }

  lemma {:induction false} IterateChain<T>(f: T -> T, ys: seq<T>)
    requires |ys| > 0 && forall i | 0 <= i < |ys| - 1 :: f(ys[i]) == ys[i + 1]
    ensures Iterate(f, |ys| - 1, ys[0]) == ys[|ys| - 1]
  {
    if |ys| > 1 { IterateChain(f, ys[1..]); }
  }

  // ---------------------------------------------------------------------------
  // Eight steps at once
  // ---------------------------------------------------------------------------

  lemma EvenSteps(y: bv32)
    requires y & 0xff == 0
    ensures Step(y) == y >> 1 && Step(y >> 1) == y >> 2 && Step(y >> 2) == y >> 3 && Step(y >> 3) == y >> 4
    ensures Step(y >> 4) == y >> 5 && Step(y >> 5) == y >> 6 && Step(y >> 6) == y >> 7 && Step(y >> 7) == y >> 8
  {
  }

  lemma HighBitsShift(y: bv32)
    requires y & 0xff == 0
    ensures Iterate(Step, 8, y) == y >> 8
  {
    EvenSteps(y);
    IterateChain(Step, [y, y >> 1, y >> 2, y >> 3, y >> 4, y >> 5, y >> 6, y >> 7, y >> 8]);
  }

  lemma LowAndHigh(x: bv32)
    ensures x == Xor(x & 0xff, x & 0xffffff00) && (x & 0xffffff00) & 0xff == 0 && (x & 0xffffff00) >> 8 == x >> 8
  {
  }

  /** Eight steps act on the low byte through the table and shift the rest down. */
  lemma ByteStep(x: bv32)
    ensures Iterate(Step, 8, x) == Xor(Iterate(Step, 8, x & 0xff), x >> 8)
  {
    LowAndHigh(x);
    StepsLinear(8, x & 0xff, x & 0xffffff00);
    HighBitsShift(x & 0xffffff00);
  }

  lemma FeedOneBits(c: bv32, b: bv32)
    ensures Step(c ^ (b & 1)) ^ (b >> 1) == Step(c ^ b)
  {
  }

  /** Feeding one bit and keeping the others for later is one step of the register xor the bits. */
  lemma FeedOne(c: bv32, b: bv32)
    ensures Xor(Step(c ^ (b & 1)), Half(b)) == Step(Xor(c, b))
  {
    FeedOneBits(c, b);
  }

  lemma {:induction false} FeedIsSteps(c: bv32, b: bv32, n: nat)
    ensures Xor(FeedBits(c, b, n), Iterate(Half, n, b)) == Iterate(Step, n, Xor(c, b))
    decreases n
  {
    if n > 0 {
      FeedOne(c, b);
      FeedIsSteps(Step(c ^ (b & 1)), Half(b), n - 1);
    }
  }

  lemma BytesRunOut(b: bv32)
    requires b & 0xffffff00 == 0
    ensures Iterate(Half, 8, b) == 0
  {
    IterateChain(Half, [b, b >> 1, b >> 2, b >> 3, b >> 4, b >> 5, b >> 6, b >> 7, b >> 8]);
    assert b >> 8 == 0;
  }

  // ---------------------------------------------------------------------------
  // The table and the loop
  // ---------------------------------------------------------------------------

  type Index = n: nat | n < 256

  function TableEntry(n: Index): bv32 {
    Iterate(Step, 8, n as bv32)
  }

  ghost predicate IsTable(t: seq<bv32>) {
    |t| == 256 && forall n | 0 <= n < 256 :: t[n] == TableEntry(n)
  }

  /** The first `n` entries of the table of `f`. */
  ghost function Entries<T>(f: Index -> T, n: nat): seq<T>
    requires n <= 256
  {
    if n == 0 then [] else Entries(f, n - 1) + [f(n - 1)]
  }

  lemma {:induction false} EntriesListed<T>(f: Index -> T, n: nat)
    requires n <= 256
    ensures |Entries(f, n)| == n && forall m | 0 <= m < n :: Entries(f, n)[m] == f(m)
  {
    if n > 0 { EntriesListed(f, n - 1); }
  }

  method BuildTable() returns (t: array<bv32>)
    ensures fresh(t) && IsTable(t[..])
  {
    t := new bv32[256];
    for n := 0 to 256
      invariant t[..n] == Entries(TableEntry, n)
    {
      var c := EightSteps(n);
      SetEntry(t, n, c, TableEntry);
    }
    AllEntries(t[..], TableEntry);
  }

  method SetEntry<T>(t: array<T>, n: Index, c: T, ghost f: Index -> T)
    requires t.Length == 256 && t[..n] == Entries(f, n) && c == f(n)
    modifies t
    ensures t[..n + 1] == Entries(f, n + 1)
  {
    t[n] := c;
    assert t[..n + 1] == t[..n] + [c];
  }

  lemma AllEntries<T>(t: seq<T>, f: Index -> T)
    requires |t| == 256 && t[..256] == Entries(f, 256)
    ensures forall n | 0 <= n < 256 :: t[n] == f(n)
  {
    EntriesListed(f, 256);
    assert t[..256] == t;
  }

  /** The inner loop, for one entry. */
  method EightSteps(n: Index) returns (c: bv32)
    ensures c == TableEntry(n)
  {
    c := n as bv32;
    for k := 0 to 8
      invariant Iterate(Step, 8 - k, c) == TableEntry(n)
    {
      c := Step(c);
    }
  }

  lemma IndexIsLowByte(x: bv32)
    ensures 0 <= (x & 0xff) as int < 256 && ((x & 0xff) as int) as bv32 == x & 0xff
  {
    ThereAndBack(x & 0xff);
  }

  lemma ThereAndBack(x: bv32)
    ensures (x as int) as bv32 == x
  {
  }

  lemma FeedByteIsSteps(c: bv32, b: bv8)
    ensures FeedByte(c, b) == Iterate(Step, 8, Xor(c, b as bv32))
  {
    ByteIsShort(c, b);
    BytesRunOut(b as bv32);
    FeedIsSteps(c, b as bv32, 8);
    XorZero(FeedByte(c, b));
  }

  lemma ByteIsShort(c: bv32, b: bv8)
    ensures (b as bv32) & 0xffffff00 == 0 && Xor(c, b as bv32) >> 8 == c >> 8
  {
  }

  lemma XorZero(x: bv32)
    ensures Xor(x, 0) == x
  {
  }

  lemma InvertTwice(x: bv32)
    ensures Invert(Invert(x)) == x
  {
  }

  function TableIndex(c: bv32, b: bv8): (i: int)
    ensures 0 <= i < 256
  {
    IndexIsLowByte(Xor(c, b as bv32));
    (Xor(c, b as bv32) & 0xff) as int
  }

  /** One turn of the table-driven loop feeds the eight bits of one byte. */
  lemma TableTurn(t: seq<bv32>, c: bv32, b: bv8)
    requires IsTable(t)
    ensures |t| == 256 && Xor(t[TableIndex(c, b)], c >> 8) == FeedByte(c, b)
  {
    var x := Xor(c, b as bv32);
    FeedByteIsSteps(c, b);
    ByteStep(x);
    ByteIsShort(c, b);
    TableLookup(t, x);
  }

  lemma TableLookup(t: seq<bv32>, x: bv32)
    requires IsTable(t)
    ensures 0 <= (x & 0xff) as int < 256 == |t| && t[(x & 0xff) as int] == Iterate(Step, 8, x & 0xff)
  {
    IndexIsLowByte(x);
  }

  method Crc32(table: array<bv32>, bytes: seq<bv8>, seed: bv32) returns (crc: bv32)
    requires IsTable(table[..])
    ensures crc == Checksum(bytes, seed)
  {
    var c := Invert(seed);
    for i := 0 to |bytes|
      invariant Fold(FeedByte, Invert(seed), bytes) == Fold(FeedByte, c, bytes[i..])
    {
      TableTurn(table[..], c, bytes[i]);
      assert bytes[i..][1..] == bytes[i + 1..];
      assert table[..][TableIndex(c, bytes[i])] == table[TableIndex(c, bytes[i])];
      c := Xor(table[TableIndex(c, bytes[i])], c >> 8);
    }
    crc := Invert(c);
  }

  lemma {:induction false} FoldConcat<S, B>(f: (S, B) -> S, s: S, a: seq<B>, b: seq<B>)
    ensures Fold(f, s, a + b) == Fold(f, Fold(f, s, a), b)
    decreases |a|
  {
    if a == [] {
      assert a + b == b;
    } else {
      assert (a + b)[1..] == a[1..] + b;
      FoldConcat(f, f(s, a[0]), a[1..], b);
    }
  }

  /** A checksum can be taken piece by piece. */
  lemma ChecksumInPieces(a: seq<bv8>, b: seq<bv8>, seed: bv32)
    ensures Checksum(b, Checksum(a, seed)) == Checksum(a + b, seed)
  {
    FoldConcat(FeedByte, Invert(seed), a, b);
    InvertTwice(Fold(FeedByte, Invert(seed), a));
  }
}
