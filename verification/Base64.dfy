/** The Base64 codec with its bit accumulator (section 4 of RFC 4648). */
module Base64 {
  import opened Common

  /** The letter of a six-bit value: A-Z, a-z, 0-9, plus and slash. */
  function Letter(v: int): char
    requires 0 <= v < 64
  {
    if v < 26 then 'A' + v as char
    else if v < 52 then 'a' + (v - 26) as char
    else if v < 62 then '0' + (v - 52) as char
    else if v == 62 then '+'
    else '/'
  }

  const WHITESPACE: set<char> := {'\t', '\n', '\U{0C}', '\r', ' '}

  function CharOf(v: bv6): char {
    SixBitsBack(v);
    Letter(v as int)
  }

  lemma LettersDiffer(v: int, w: int)
    requires 0 <= v < 64 && 0 <= w < 64
    ensures Letter(v) == Letter(w) ==> v == w
    ensures Letter(v) as int < 128 && Letter(v) != '=' && Letter(v) !in WHITESPACE
  {
  }

  lemma SixBitsBack(v: bv6)
    ensures 0 <= v as int < 64 && (v as int) as bv6 == v
  {
  }

  // ---------------------------------------------------------------------------
  // The decoding table
  // ---------------------------------------------------------------------------

  /** The values of the letters; every other character has -1. */
  ghost predicate IsIndex(t: seq<int>) {
    && |t| == 128
    && (forall v | 0 <= v < 64 :: Letter(v) as int < 128 && t[Letter(v) as int] == v)
    && (forall c | 0 <= c < 128 :: t[c] == -1 || (0 <= t[c] < 64 && Letter(t[c]) as int == c))
  }

  method BuildIndex() returns (t: array<int>)
    ensures fresh(t) && IsIndex(t[..])
  {
    t := new int[128](_ => -1);
    for i := 0 to 64
      invariant forall v | 0 <= v < i :: Letter(v) as int < 128 && t[Letter(v) as int] == v
      invariant forall c | 0 <= c < 128 :: t[c] == -1 || (0 <= t[c] < i && Letter(t[c]) as int == c)
    {
      LettersDiffer(i, i);
      assert forall v | 0 <= v < i :: Letter(v) != Letter(i) by {
        forall v | 0 <= v < i ensures Letter(v) != Letter(i) { LettersDiffer(v, i); }
      }
      t[Letter(i) as int] := i;
    }
  }

  /** The value of a letter, or -1. */
  function Code(c: char): (v: int)
    ensures -1 <= v < 64
    ensures v >= 0 ==> Letter(v) == c
  {
    if 'A' <= c <= 'Z' then (c as int) - ('A' as int)
    else if 'a' <= c <= 'z' then (c as int) - ('a' as int) + 26
    else if '0' <= c <= '9' then (c as int) - ('0' as int) + 52
    else if c == '+' then 62
    else if c == '/' then 63
    else -1
  }

  lemma CodeOfLetter(v: int)
    requires 0 <= v < 64
    ensures Code(Letter(v)) == v
  {
    LettersDiffer(Code(Letter(v)), v);
  }

  /** The table agrees with the ranges of the alphabet. */
  lemma TableIsCode(t: seq<int>, c: char)
    requires IsIndex(t)
    ensures (if c as int < 128 then t[c as int] else -1) == Code(c)
  {
    if Code(c) >= 0 {
      LettersDiffer(Code(c), Code(c));
    } else if c as int < 128 && t[c as int] >= 0 {
      CodeOfLetter(t[c as int]);
    }
  }

  // ---------------------------------------------------------------------------
  // Bytes and six-bit values
  // ---------------------------------------------------------------------------

  /** Two neighbouring values, twelve bits. */
  function Pair(x: bv6, y: bv6): bv32 {
    ((x as bv32) << 6) | (y as bv32)
  }

  /** The byte completed by the value at place `k` of its group of four, given the value before it. */
  function ByteAt(k: nat, x: bv6, y: bv6): seq<bv8> {
    if k == 0 then []
    else if k == 1 then [((Pair(x, y) >> 4) & 0xff) as bv8]
    else if k == 2 then [((Pair(x, y) >> 2) & 0xff) as bv8]
    else [(Pair(x, y) & 0xff) as bv8]
  }

  function Triple(a: bv8, b: bv8, c: bv8): bv32 {
    ((a as bv32) << 16) | ((b as bv32) << 8) | (c as bv32)
  }

  /** Three bytes as four six-bit values. */
  function Group(a: bv8, b: bv8, c: bv8): (vs: seq<bv6>)
    ensures |vs| == 4
  {
    var n := Triple(a, b, c);
    [((n >> 18) & 63) as bv6, ((n >> 12) & 63) as bv6, ((n >> 6) & 63) as bv6, (n & 63) as bv6]
  }

  lemma GroupBack(a: bv8, b: bv8, c: bv8)
    ensures var vs := Group(a, b, c);
            ByteAt(1, vs[0], vs[1]) == [a] && ByteAt(2, vs[1], vs[2]) == [b] && ByteAt(3, vs[2], vs[3]) == [c]
  {
  }

  /** The bytes a stream of values spells; bits short of a byte are dropped. */
  function Spell<V, B>(byteAt: (nat, V, V) -> seq<B>, vs: seq<V>): seq<B> {
    if |vs| < 2 then []
    else Spell(byteAt, vs[..|vs| - 1]) + byteAt((|vs| - 1) % 4, vs[|vs| - 2], vs[|vs| - 1])
  }

  /** The values of a byte string: four for every three bytes, two or three for what remains. */
  function Chop<V(!new), B(!new)>(group: (B, B, B) -> seq<V>, zero: B, b: seq<B>): seq<V>
    requires forall x, y, z :: |group(x, y, z)| == 4
  {
    if |b| == 0 then []
    else if |b| == 1 then group(b[0], zero, zero)[..2]
    else if |b| == 2 then group(b[0], b[1], zero)[..3]
    else group(b[0], b[1], b[2]) + Chop(group, zero, b[3..])
  }

  lemma SpellMore<V(!new), B(!new)>(byteAt: (nat, V, V) -> seq<B>, vs: seq<V>, w: V, k: nat)
    requires vs != [] && k == |vs| % 4
    ensures Spell(byteAt, vs + [w]) == Spell(byteAt, vs) + byteAt(k, vs[|vs| - 1], w)
  {
    assert (vs + [w])[..|vs|] == vs;
  }

  lemma {:induction false} SpellConcat<V(!new), B(!new)>(byteAt: (nat, V, V) -> seq<B>, xs: seq<V>, ys: seq<V>)
    requires |xs| % 4 == 0 && forall x, y :: byteAt(0, x, y) == []
    ensures Spell(byteAt, xs + ys) == Spell(byteAt, xs) + Spell(byteAt, ys)
    decreases |ys|
  {
    if |ys| == 0 {
      assert xs + ys == xs;
    } else {
      var init, last := ys[..|ys| - 1], ys[|ys| - 1];
      assert ys == init + [last];
      SpellConcat(byteAt, xs, init);
      Regroup(xs, init, [last]);
      if init == [] {
        SpellConcatNone(byteAt, xs, last);
        assert xs + ys == xs + [last] && ys == [last];
      } else {
        SamePlace(|xs|, |init|);
        SpellConcatOne(byteAt, xs, init, last, |init| % 4);
      }
    }
  }

  lemma SpellConcatOne<V(!new), B(!new)>(byteAt: (nat, V, V) -> seq<B>, xs: seq<V>, init: seq<V>, last: V, k: nat)
    requires init != [] && k == |init| % 4 && |xs + init| % 4 == k
    requires Spell(byteAt, xs + init) == Spell(byteAt, xs) + Spell(byteAt, init)
    ensures Spell(byteAt, xs + init + [last]) == Spell(byteAt, xs) + Spell(byteAt, init + [last])
  {
    SpellMore(byteAt, xs + init, last, k);
    SpellMore(byteAt, init, last, k);
    Regroup(Spell(byteAt, xs), Spell(byteAt, init), byteAt(k, init[|init| - 1], last));
  }

  lemma SpellConcatNone<V(!new), B(!new)>(byteAt: (nat, V, V) -> seq<B>, xs: seq<V>, last: V)
    requires |xs| % 4 == 0 && forall x, y :: byteAt(0, x, y) == []
    ensures Spell(byteAt, xs + [last]) == Spell(byteAt, xs) && Spell(byteAt, [last]) == []
  {
    if xs == [] {
      assert xs + [last] == [last];
    } else {
      SpellMore(byteAt, xs, last, 0);
      assert byteAt(0, xs[|xs| - 1], last) == [];
      assert Spell(byteAt, xs) + [] == Spell(byteAt, xs);
    }
  }

  lemma SamePlace(m: nat, n: nat)
    requires m % 4 == 0
    ensures (m + n) % 4 == n % 4
  {
    var p, q, r := m / 4, n / 4, n % 4;
    assert m == 4 * p && n == 4 * q + r;
    Remainder(p + q, r, m + n);
  }

  lemma Thirds(q: nat, r: nat, n: nat)
    requires n == 3 * q + r && r < 3
    ensures n / 3 == q
  {
  }

  lemma Remainder(q: nat, r: nat, n: nat)
    requires n == 4 * q + r && r < 4
    ensures n / 4 == q && n % 4 == r
  {
  }

  lemma SpellTwo<V(!new), B(!new)>(byteAt: (nat, V, V) -> seq<B>, v: V, w: V)
    ensures Spell(byteAt, [v, w]) == byteAt(1, v, w)
  {
    assert [v, w][..1] == [v] && Spell(byteAt, [v]) == [];
    assert [] + byteAt(1, v, w) == byteAt(1, v, w);
  }

  lemma SpellOn<V(!new), B(!new)>(byteAt: (nat, V, V) -> seq<B>, vs: seq<V>, w: V, k: nat)
    requires vs != [] && k == |vs| < 4
    ensures Spell(byteAt, vs + [w]) == Spell(byteAt, vs) + byteAt(k, vs[|vs| - 1], w)
  {
    var all := vs + [w];
    assert all[..|all| - 1] == vs && (|all| - 1) % 4 == k;
  }

  lemma SpellThree<V(!new), B(!new)>(byteAt: (nat, V, V) -> seq<B>, v: V, w: V, x: V)
    ensures Spell(byteAt, [v, w, x]) == byteAt(1, v, w) + byteAt(2, w, x)
  {
    SpellTwo(byteAt, v, w);
    SpellOn(byteAt, [v, w], x, 2);
    assert [v, w] + [x] == [v, w, x];
  }

  lemma SpellFour<V(!new), B(!new)>(byteAt: (nat, V, V) -> seq<B>, v: V, w: V, x: V, y: V)
    ensures Spell(byteAt, [v, w, x, y]) == byteAt(1, v, w) + byteAt(2, w, x) + byteAt(3, x, y)
  {
    SpellThree(byteAt, v, w, x);
    SpellOn(byteAt, [v, w, x], y, 3);
    assert [v, w, x] + [y] == [v, w, x, y];
  }

  /** Grouping and spelling are inverse on one group. */
  ghost predicate GroupSpells<V(!new), B(!new)>(byteAt: (nat, V, V) -> seq<B>, group: (B, B, B) -> seq<V>, x: B, y: B,
      z: B) {
    var vs := group(x, y, z);
    |vs| == 4 && byteAt(1, vs[0], vs[1]) == [x] && byteAt(2, vs[1], vs[2]) == [y] && byteAt(3, vs[2], vs[3]) == [z]
  }

  lemma SpellGroup<V(!new), B(!new)>(byteAt: (nat, V, V) -> seq<B>, group: (B, B, B) -> seq<V>, x: B, y: B, z: B)
    requires GroupSpells(byteAt, group, x, y, z)
    ensures Spell(byteAt, group(x, y, z)) == [x, y, z]
    ensures Spell(byteAt, group(x, y, z)[..2]) == [x] && Spell(byteAt, group(x, y, z)[..3]) == [x, y]
  {
    var vs := group(x, y, z);
    SpellTwo(byteAt, vs[0], vs[1]);
    SpellThree(byteAt, vs[0], vs[1], vs[2]);
    SpellFour(byteAt, vs[0], vs[1], vs[2], vs[3]);
    assert vs[..2] == [vs[0], vs[1]] && vs[..3] == [vs[0], vs[1], vs[2]] && vs == [vs[0], vs[1], vs[2], vs[3]];
    assert [x] + [y] == [x, y] && [x] + [y] + [z] == [x, y, z];
  }

  /** Where every group spells its own three bytes, the values spell the bytes they were made from. */
  lemma {:induction false} SpellChop<V(!new), B(!new)>(byteAt: (nat, V, V) -> seq<B>, group: (B, B, B) -> seq<V>,
      zero: B,
                                           b: seq<B>)
    requires forall x, y, z :: |group(x, y, z)| == 4
    requires forall x, y :: byteAt(0, x, y) == []
    requires forall x, y, z :: GroupSpells(byteAt, group, x, y, z)
    ensures Spell(byteAt, Chop(group, zero, b)) == b
    decreases |b|
  {
    if |b| == 1 {
      SpellGroup(byteAt, group, b[0], zero, zero);
      assert b == [b[0]];
    } else if |b| == 2 {
      SpellGroup(byteAt, group, b[0], b[1], zero);
      assert b == [b[0], b[1]];
    } else if |b| > 2 {
      SpellGroup(byteAt, group, b[0], b[1], b[2]);
      SpellConcat(byteAt, group(b[0], b[1], b[2]), Chop(group, zero, b[3..]));
      SpellChop(byteAt, group, zero, b[3..]);
      assert b == [b[0], b[1], b[2]] + b[3..];
    }
  }

  function Unpack(vs: seq<bv6>): seq<bv8> {
    Spell(ByteAt, vs)
  }

  function Pack(b: seq<bv8>): seq<bv6> {
    Chop(Group, 0, b)
  }

  /** Six-bit values spell the bytes they were made from. */
  lemma UnpackPack(b: seq<bv8>)
    ensures Unpack(Pack(b)) == b
  {
    forall x: bv8, y: bv8, z: bv8 ensures GroupSpells(ByteAt, Group, x, y, z) {
      GroupBack(x, y, z);
    }
    SpellChop(ByteAt, Group, 0, b);
  }

  // ---------------------------------------------------------------------------
  // Encoding
  // ---------------------------------------------------------------------------

  function Letters(vs: seq<bv6>): string {
    seq(|vs|, i requires 0 <= i < |vs| => CharOf(vs[i]))
  }

  function Padding(n: nat): string {
    if n % 3 == 1 then "==" else if n % 3 == 2 then "=" else ""
  }

  function Encode(b: seq<bv8>): string {
    Letters(Pack(b)) + Padding(|b|)
  }

  lemma LettersConcat(xs: seq<bv6>, ys: seq<bv6>)
    ensures Letters(xs + ys) == Letters(xs) + Letters(ys)
  {
  }

  lemma EncodeGroup(b: seq<bv8>)
    requires |b| > 2
    ensures Encode(b) == Letters(Group(b[0], b[1], b[2])) + Encode(b[3..])
  {
    LettersConcat(Group(b[0], b[1], b[2]), Pack(b[3..]));
    assert Padding(|b|) == Padding(|b| - 3);
  }

  lemma EncodeOne(x: bv8)
    ensures Encode([x]) == Letters(Group(x, 0, 0)[..2]) + "=="
  {
  }

  lemma EncodeTwo(x: bv8, y: bv8)
    ensures Encode([x, y]) == Letters(Group(x, y, 0)[..3]) + "="
  {
  }

  method Base64Encode(b: seq<bv8>) returns (out: string)
    ensures out == Encode(b)
  {
    out := "";
    var i := 0;
    ghost var goal := Encode(b);
    assert b[0..] == b && "" + goal == goal;
    while i + 2 < |b|
      invariant i <= |b| && goal == out + Encode(b[i..])
    {
      EncodeGroup(b[i..]);
      assert b[i..][3..] == b[i + 3..];
      var letters := Letters(Group(b[i], b[i + 1], b[i + 2]));
      Regroup(out, letters, Encode(b[i + 3..]));
      out, i := out + letters, i + 3;
    }
    var rest := |b| - i;
    if rest == 1 {
      assert b[i..] == [b[i]];
      EncodeOne(b[i]);
      out := out + (Letters(Group(b[i], 0, 0)[..2]) + "==");
    } else if rest == 2 {
      assert b[i..] == [b[i], b[i + 1]];
      EncodeTwo(b[i], b[i + 1]);
      out := out + (Letters(Group(b[i], b[i + 1], 0)[..3]) + "=");
    } else {
      assert b[i..] == [] && Encode([]) == "" && out + "" == out;
    }
  }

  // ---------------------------------------------------------------------------
  // Decoding
  // ---------------------------------------------------------------------------

  datatype DecodeError = InvalidBase64

  /** Removes tabs, line breaks, form feeds and spaces. */
  function Strip(s: string): string {
    if s == [] then [] else (if s[0] in WHITESPACE then [] else [s[0]]) + Strip(s[1..])
  }

  /** Where the data ends: before one or two equals signs. */
  function DataEnd(s: string): (end: nat)
    ensures end <= |s| <= end + 2
    ensures forall i | end <= i < |s| :: s[i] == '='
  {
    var one := if |s| > 0 && s[|s| - 1] == '=' then |s| - 1 else |s|;
    if one > 0 && s[one - 1] == '=' then one - 1 else one
  }

  ghost predicate AllLetters(s: string) {
    forall i | 0 <= i < |s| :: Code(s[i]) >= 0
  }

  function Values(s: string): (vs: seq<bv6>)
    requires forall i | 0 <= i < |s| :: Code(s[i]) >= 0
    ensures |vs| == |s|
  {
    seq(|s|, i requires 0 <= i < |s| => Code(s[i]) as bv6)
  }

  function DecodeStripped(s: string): Result<seq<bv8>, DecodeError> {
    var end := DataEnd(s);
    if end < |s| && |s| % 4 != 0 then Err(InvalidBase64)
    else if end % 4 == 1 then Err(InvalidBase64)
    else if exists i | 0 <= i < end :: Code(s[i]) < 0 then Err(InvalidBase64)
    else Ok(Unpack(Values(s[..end])))
  }

  function Decode(input: string): Result<seq<bv8>, DecodeError> {
    DecodeStripped(Strip(input))
  }

  /** Shifting a value into the accumulator leaves it next to the value before it. */
  lemma AccumulatorStep(acc: bv32, x: bv6, y: bv6)
    requires acc & 0x3f == x as bv32
    ensures var next := ((acc << 6) | (y as bv32)) & 0xffffff;
            next & 0x3f == y as bv32 && next & 0xfff == Pair(x, y)
  {
  }

  lemma AccumulatorStart(acc: bv32, y: bv6)
    ensures (((acc << 6) | (y as bv32)) & 0xffffff) & 0x3f == y as bv32
  {
  }

  /** The byte taken out of the accumulator is the byte of the last two values. */
  lemma AccumulatorByte(acc: bv32, x: bv6, y: bv6, k: nat, bits: nat)
    requires acc & 0xfff == Pair(x, y) && 1 <= k <= 3 && bits == 6 - 2 * k
    ensures [((acc >> bits) & 0xff) as bv8] == ByteAt(k, x, y)
  {
    if k == 1 {
      assert (acc >> 4) & 0xff == ((acc & 0xfff) >> 4) & 0xff;
    } else if k == 2 {
      assert (acc >> 2) & 0xff == ((acc & 0xfff) >> 2) & 0xff;
    } else {
      assert acc & 0xff == (acc & 0xfff) & 0xff;
      assert acc >> 0 == acc;
    }
  }

  /** How many bits are waiting after `i` values. */
  function Waiting(i: nat): nat {
    if i % 4 == 0 then 0 else 8 - 2 * (i % 4)
  }

  /** One turn of the decoding loop: takes a value in, and a byte out when eight bits are waiting. */
  method Accumulate(acc: bv32, bits: nat, y: bv6, ghost i: nat, ghost x: bv6)
    returns (next: bv32, left: nat, byte: seq<bv8>)
    requires bits == Waiting(i) && (i > 0 ==> acc & 0x3f == x as bv32)
    ensures next & 0x3f == y as bv32 && left == Waiting(i + 1) && 8 * |byte| + left == bits + 6
    ensures byte == if i == 0 then [] else ByteAt(i % 4, x, y)
  {
    next := ((acc << 6) | (y as bv32)) & 0xffffff;
    AccumulatorStart(acc, y);
    if i > 0 { AccumulatorStep(acc, x, y); }
    left, byte := bits + 6, [];
    if left >= 8 {
      left := left - 8;
      AccumulatorByte(next, x, y, i % 4, left);
      byte := [((next >> left) & 0xff) as bv8];
    }
  }

  /** The accumulator loop; fills `out` exactly, or stops at a character that is no letter. */
  method DecodeInto(table: seq<int>, s: string, end: nat, out: array<bv8>) returns (ok: bool)
    requires IsIndex(table) && end <= |s| && end % 4 != 1 && out.Length == end * 3 / 4
    modifies out
    ensures ok <==> forall i | 0 <= i < end :: Code(s[i]) >= 0
    ensures ok ==> out[..] == Unpack(Values(s[..end]))
  {
    var acc: bv32, bits: nat, o: nat := 0, 0, 0;
    ghost var vs: seq<bv6> := [];
    for i := 0 to end
      invariant Spelled(s, i, vs)
      invariant 8 * o + bits == 6 * i && bits == Waiting(i) && o <= out.Length
      invariant out[..o] == Unpack(vs)
      invariant i > 0 ==> acc & 0x3f == vs[i - 1] as bv32
    {
      TableIsCode(table, s[i]);
      var v := if s[i] as int < 128 then table[s[i] as int] else -1;
      if v < 0 { return false; }
      var y := v as bv6;
      ghost var x := if i > 0 then vs[i - 1] else y;
      var byte: seq<bv8>;
      acc, bits, byte := Accumulate(acc, bits, y, i, x);
      SpellPush(vs, y);
      SpelledPush(s, i, vs, y);
      vs := vs + [y];
      o := Store(out, o, byte);
    }
    assert out[..] == out[..o];
    AllSpelled(s, end, vs);
    ok := true;
  }

  /** `out[o++] = byte`, when there is a byte. */
  method Store(out: array<bv8>, o: nat, byte: seq<bv8>) returns (next: nat)
    requires |byte| <= 1 && o + |byte| <= out.Length
    modifies out
    ensures next == o + |byte| && out[..next] == old(out[..o]) + byte
  {
    next := o;
    if byte != [] {
      out[o] := byte[0];
      next := o + 1;
    }
  }

  method Base64Decode(table: seq<int>, input: string) returns (r: Result<seq<bv8>, DecodeError>)
    requires IsIndex(table)
    ensures r == Decode(input)
  {
    var s := Strip(input);
    var end := DataEnd(s);
    if end < |s| && |s| % 4 != 0 { return Err(InvalidBase64); }
    if end % 4 == 1 { return Err(InvalidBase64); }
    var out := new bv8[end * 3 / 4];
    var ok := DecodeInto(table, s, end, out);
    r := if ok then Ok(out[..]) else Err(InvalidBase64);
  }

  /** `vs` are the values of the first `i` characters, all of them letters. */
  ghost predicate Spelled(s: string, i: nat, vs: seq<bv6>) {
    i <= |s| && |vs| == i && forall k | 0 <= k < i :: Code(s[k]) >= 0 && vs[k] == Code(s[k]) as bv6
  }

  lemma SpelledPush(s: string, i: nat, vs: seq<bv6>, y: bv6)
    requires Spelled(s, i, vs) && i < |s| && Code(s[i]) >= 0 && y == Code(s[i]) as bv6
    ensures Spelled(s, i + 1, vs + [y])
  {
  }

  lemma AllSpelled(s: string, end: nat, vs: seq<bv6>)
    requires Spelled(s, end, vs)
    ensures forall k | 0 <= k < end :: Code(s[k]) >= 0
    ensures vs == Values(s[..end])
  {
  }

  lemma SpellPush(vs: seq<bv6>, y: bv6)
    ensures Unpack(vs + [y]) == if vs == [] then [] else Unpack(vs) + ByteAt(|vs| % 4, vs[|vs| - 1], y)
  {
    assert (vs + [y])[..|vs|] == vs;
  }

  // ---------------------------------------------------------------------------
  // Round trips
  // ---------------------------------------------------------------------------

  lemma {:induction false} StripClean(s: string)
    requires forall i | 0 <= i < |s| :: s[i] !in WHITESPACE
    ensures Strip(s) == s
  {
    if s != [] { StripClean(s[1..]); }
  }

  lemma {:induction false} ChopLength<V(!new), B(!new)>(group: (B, B, B) -> seq<V>, zero: B, b: seq<B>)
    requires forall x, y, z :: |group(x, y, z)| == 4
    ensures |Chop(group, zero, b)| == (4 * |b| + 2) / 3
    decreases |b|
  {
    if |b| > 2 { ChopLength(group, zero, b[3..]); }
  }

  lemma LettersDecode(vs: seq<bv6>)
    ensures forall i | 0 <= i < |vs| ::
              Code(Letters(vs)[i]) >= 0 && Letters(vs)[i] != '=' && Letters(vs)[i] !in WHITESPACE
    ensures (forall i | 0 <= i < |vs| :: Code(Letters(vs)[i]) >= 0) ==> Values(Letters(vs)) == vs
  {
    forall i | 0 <= i < |vs|
      ensures Code(Letters(vs)[i]) >= 0 && Code(Letters(vs)[i]) as bv6 == vs[i]
      ensures Letters(vs)[i] != '=' && Letters(vs)[i] !in WHITESPACE
    {
      SixBitsBack(vs[i]);
      CodeOfLetter(vs[i] as int);
      LettersDiffer(vs[i] as int, 0);
    }
  }

  lemma EncodedLength(n: nat, values: nat, pad: nat)
    requires values == (4 * n + 2) / 3 && pad == |Padding(n)|
    ensures values % 4 != 1 && (values + pad) % 4 == 0
  {
    var q, r := n / 3, n % 3;
    assert n == 3 * q + r;
    var extra := if r == 0 then 0 else r + 1;
    Thirds(4 * q + extra, if r == 0 then 2 else if r == 1 then 0 else 1, 4 * n + 2);
    var pad' := if r == 0 then 0 else 3 - r;
    Remainder(q, extra, values);
    Remainder(if r == 0 then q else q + 1, 0, values + pad');
  }

  /** Letters and then equals signs: the data ends where the letters do, and there is nothing to strip. */
  lemma LettersEnd(vs: seq<bv6>, pad: string)
    requires |pad| <= 2 && forall i | 0 <= i < |pad| :: pad[i] == '='
    ensures var s := Letters(vs) + pad; DataEnd(s) == |vs| && s[..|vs|] == Letters(vs) && Strip(s) == s
  {
    var s := Letters(vs) + pad;
    LettersDecode(vs);
    assert forall i | |vs| <= i < |s| :: s[i] == '=';
    StripClean(s);
    assert s[..|vs|] == Letters(vs);
    assert |vs| > 0 ==> s[|vs| - 1] == Letters(vs)[|vs| - 1];
  }

  lemma EncodedSize(b: seq<bv8>)
    ensures |Encode(b)| % 4 == 0
  {
    ChopLength(Group, 0, b);
    EncodedLength(|b|, |Pack(b)|, |Padding(|b|)|);
  }

  lemma EncodedEnd(b: seq<bv8>)
    ensures var s := Encode(b);
            DataEnd(s) == |Pack(b)| && s[..|Pack(b)|] == Letters(Pack(b)) && |s| % 4 == 0 && Strip(s) == s
  {
    EncodedSize(b);
    LettersEnd(Pack(b), Padding(|b|));
  }

  /** Decoding what was encoded gives the bytes back. */
  lemma DecodeEncode(b: seq<bv8>)
    ensures Decode(Encode(b)) == Ok(b)
  {
    ChopLength(Group, 0, b);
    EncodedLength(|b|, |Pack(b)|, |Padding(|b|)|);
    EncodedEnd(b);
    LettersDecode(Pack(b));
    UnpackPack(b);
  }

  /** The bits of the last value that do not make up a byte are zero. */
  ghost predicate TailIsZero(vs: seq<bv6>) {
    && (|vs| % 4 == 2 ==> vs[|vs| - 1] & 15 == 0)
    && (|vs| % 4 == 3 ==> vs[|vs| - 1] & 3 == 0)
  }

  /** A text in the one form the encoder writes: padded, unspaced, no stray bits. */
  ghost predicate CanonicalText(s: string) {
    && Strip(s) == s && |s| % 4 == 0
    && AllLetters(s[..DataEnd(s)]) && TailIsZero(Values(s[..DataEnd(s)]))
  }

  lemma GroupForth(w: bv6, x: bv6, y: bv6, z: bv6)
    ensures Group(ByteAt(1, w, x)[0], ByteAt(2, x, y)[0], ByteAt(3, y, z)[0]) == [w, x, y, z]
  {
  }

  lemma GroupForthThree(w: bv6, x: bv6, y: bv6)
    ensures var g := Group(ByteAt(1, w, x)[0], ByteAt(2, x, y)[0], 0);
            g[0] == w && g[1] == x && (g[2] == y <==> y & 3 == 0)
  {
  }

  lemma GroupForthTwo(w: bv6, x: bv6)
    ensures var g := Group(ByteAt(1, w, x)[0], 0, 0); g[0] == w && (g[1] == x <==> x & 15 == 0)
  {
  }

  /** Spelling and grouping are inverse on four values. */
  ghost predicate ValuesReturn<V(!new), B(!new)>(byteAt: (nat, V, V) -> seq<B>, group: (B, B, B) -> seq<V>, w: V,
      x: V, y: V, z: V) {
    && |byteAt(1, w, x)| == |byteAt(2, x, y)| == |byteAt(3, y, z)| == 1
    && group(byteAt(1, w, x)[0], byteAt(2, x, y)[0], byteAt(3, y, z)[0]) == [w, x, y, z]
  }

  /** The last, incomplete group comes back as it was. */
  ghost predicate TailReturns<V(!new), B(!new)>(byteAt: (nat, V, V) -> seq<B>, group: (B, B, B) -> seq<V>, zero: B,
      vs: seq<V>)
    requires forall x, y, z :: |group(x, y, z)| == 4
  {
    var tail := vs[|vs| - |vs| % 4..];
    Chop(group, zero, Spell(byteAt, tail)) == tail
  }

  lemma {:induction false} ChopSpell<V(!new), B(!new)>(byteAt: (nat, V, V) -> seq<B>, group: (B, B, B) -> seq<V>,
                                                     zero: B, vs: seq<V>)
    requires forall x, y :: byteAt(0, x, y) == []
    requires forall x, y, z :: |group(x, y, z)| == 4
    requires forall w, x, y, z :: ValuesReturn(byteAt, group, w, x, y, z)
    requires |vs| % 4 != 1
    ensures Chop(group, zero, Spell(byteAt, vs)) == vs <==> TailReturns(byteAt, group, zero, vs)
    decreases |vs|
  {
    if |vs| >= 4 {
      ChopSpell(byteAt, group, zero, vs[4..]);
      assert ValuesReturn(byteAt, group, vs[0], vs[1], vs[2], vs[3]);
      ChopSpellGroup(byteAt, group, zero, vs);
      SameTail(vs);
      SplitAtFour(vs, Chop(group, zero, Spell(byteAt, vs[4..])));
    } else {
      assert vs[0..] == vs;
    }
  }

  lemma SplitAtFour<V>(vs: seq<V>, c: seq<V>)
    requires |vs| >= 4
    ensures vs[..4] + c == vs <==> c == vs[4..]
  {
    assert (vs[..4] + c)[4..] == c;
    assert vs[..4] + vs[4..] == vs;
  }

  lemma SameTail<V>(vs: seq<V>)
    requires |vs| >= 4
    ensures var rest := vs[4..]; rest[|rest| - |rest| % 4..] == vs[|vs| - |vs| % 4..]
  {
    var rest := vs[4..];
    var q, r := |rest| / 4, |rest| % 4;
    assert |rest| == 4 * q + r && |vs| == 4 * (q + 1) + r;
    assert |vs| % 4 == r;
    DropTwice(vs, 4, |rest| - r);
    assert 4 + (|rest| - r) == |vs| - |vs| % 4;
  }

  lemma DropTwice<V>(vs: seq<V>, a: nat, b: nat)
    requires a + b <= |vs|
    ensures vs[a..][b..] == vs[a + b..]
  {
  }

  lemma FirstGroup<V(!new), B(!new)>(byteAt: (nat, V, V) -> seq<B>, group: (B, B, B) -> seq<V>, v: V, w: V, x: V, y: V)
    requires |byteAt(1, v, w)| == |byteAt(2, w, x)| == |byteAt(3, x, y)| == 1
    requires group(byteAt(1, v, w)[0], byteAt(2, w, x)[0], byteAt(3, x, y)[0]) == [v, w, x, y]
    ensures var first := byteAt(1, v, w) + byteAt(2, w, x) + byteAt(3, x, y);
            |first| == 3 && group(first[0], first[1], first[2]) == [v, w, x, y]
  {
  }

  lemma ChopFirst<V(!new), B(!new)>(group: (B, B, B) -> seq<V>, zero: B, first: seq<B>, rest: seq<B>)
    requires forall x, y, z :: |group(x, y, z)| == 4
    requires |first| == 3
    ensures Chop(group, zero, first + rest) == group(first[0], first[1], first[2]) + Chop(group, zero, rest)
  {
    assert (first + rest)[3..] == rest;
  }

  lemma SpellSplit<V(!new), B(!new)>(byteAt: (nat, V, V) -> seq<B>, w: V, x: V, y: V, z: V, rest: seq<V>)
    requires forall x, y :: byteAt(0, x, y) == []
    ensures Spell(byteAt, [w, x, y, z] + rest) == byteAt(1, w, x) + byteAt(2, x, y) + byteAt(3, y, z)
            + Spell(byteAt, rest)
  {
    SpellFour(byteAt, w, x, y, z);
    SpellConcat(byteAt, [w, x, y, z], rest);
  }

  lemma FourAndRest<V>(vs: seq<V>)
    requires |vs| >= 4
    ensures vs == [vs[0], vs[1], vs[2], vs[3]] + vs[4..] && vs[..4] == [vs[0], vs[1], vs[2], vs[3]]
  {
  }

  lemma ChopSpellFour<V(!new), B(!new)>(byteAt: (nat, V, V) -> seq<B>, group: (B, B, B) -> seq<V>, zero: B,
                                        w: V, x: V, y: V, z: V, rest: seq<V>)
    requires (forall x, y :: byteAt(0, x, y) == []) && forall x, y, z :: |group(x, y, z)| == 4
    requires ValuesReturn(byteAt, group, w, x, y, z)
    ensures Chop(group, zero, Spell(byteAt, [w, x, y, z] + rest))
            == [w, x, y, z] + Chop(group, zero, Spell(byteAt, rest))
  {
    var first := byteAt(1, w, x) + byteAt(2, x, y) + byteAt(3, y, z);
    SpellSplit(byteAt, w, x, y, z, rest);
    FirstGroup(byteAt, group, w, x, y, z);
    ChopFirst(group, zero, first, Spell(byteAt, rest));
  }

  lemma ChopSpellGroup<V(!new), B(!new)>(byteAt: (nat, V, V) -> seq<B>, group: (B, B, B) -> seq<V>, zero: B, vs: seq<V>)
    requires (forall x, y :: byteAt(0, x, y) == []) && forall x, y, z :: |group(x, y, z)| == 4
    requires |vs| >= 4 && ValuesReturn(byteAt, group, vs[0], vs[1], vs[2], vs[3])
    ensures Chop(group, zero, Spell(byteAt, vs)) == vs[..4] + Chop(group, zero, Spell(byteAt, vs[4..]))
  {
    FourAndRest(vs);
    ChopSpellFour(byteAt, group, zero, vs[0], vs[1], vs[2], vs[3], vs[4..]);
  }

  /** Packing the spelled bytes gives the values back exactly when no bit was dropped. */
  lemma PackUnpack(vs: seq<bv6>)
    requires |vs| % 4 != 1
    ensures Pack(Unpack(vs)) == vs <==> TailIsZero(vs)
  {
    forall w: bv6, x: bv6, y: bv6, z: bv6 ensures ValuesReturn(ByteAt, Group, w, x, y, z) {
      GroupForth(w, x, y, z);
    }
    ChopSpell(ByteAt, Group, 0, vs);
    TailBits(vs);
  }

  lemma TailBitsTwo(x: bv6, y: bv6)
    ensures Chop(Group, 0, Spell(ByteAt, [x, y])) == [x, y] <==> y & 15 == 0
  {
    SpellTwo(ByteAt, x, y);
    GroupForthTwo(x, y);
  }

  lemma TailBitsThree(x: bv6, y: bv6, z: bv6)
    ensures Chop(Group, 0, Spell(ByteAt, [x, y, z])) == [x, y, z] <==> z & 3 == 0
  {
    SpellThree(ByteAt, x, y, z);
    GroupForthThree(x, y, z);
  }

  lemma TailBits(vs: seq<bv6>)
    requires |vs| % 4 != 1
    ensures TailReturns(ByteAt, Group, 0, vs) <==> TailIsZero(vs)
  {
    var n := |vs|;
    var tail := vs[n - n % 4..];
    if n % 4 == 2 {
      assert tail == [vs[n - 2], vs[n - 1]];
      TailBitsTwo(vs[n - 2], vs[n - 1]);
    } else if n % 4 == 3 {
      assert tail == [vs[n - 3], vs[n - 2], vs[n - 1]];
      TailBitsThree(vs[n - 3], vs[n - 2], vs[n - 1]);
    } else {
      assert tail == [];
    }
  }

  lemma {:induction false} SpellLength<V(!new), B(!new)>(byteAt: (nat, V, V) -> seq<B>, vs: seq<V>)
    requires forall k: nat, x, y | k < 4 :: |byteAt(k, x, y)| == if k == 0 then 0 else 1
    ensures |Spell(byteAt, vs)| == 3 * |vs| / 4
    decreases |vs|
  {
    if |vs| >= 2 {
      SpellLength(byteAt, vs[..|vs| - 1]);
      OneMoreValue(|vs| - 1);
    }
  }

  lemma OneMoreValue(n: nat)
    ensures 3 * (n + 1) / 4 == 3 * n / 4 + (if n % 4 == 0 then 0 else 1)
  {
    var q, r := n / 4, n % 4;
    assert n == 4 * q + r;
    var before := if r == 0 then 0 else r - 1;
    Remainder(3 * q + before, 3 * r - 4 * before, 3 * n);
    var after := r;
    Remainder(3 * q + after, 3 * (r + 1) - 4 * after, 3 * (n + 1));
  }

  lemma LettersOfValues(s: string)
    requires forall i | 0 <= i < |s| :: Code(s[i]) >= 0
    ensures Letters(Values(s)) == s
  {
    forall i | 0 <= i < |s| ensures CharOf(Values(s)[i]) == s[i] {
      SixBits(Code(s[i]));
    }
  }

  lemma SixBits(v: int)
    requires 0 <= v < 64
    ensures (v as bv6) as int == v
  {
  }

  lemma PaddingFits(n: nat, end: nat, size: nat)
    requires n == 3 * end / 4 && end <= size <= end + 2 && size % 4 == 0 && end % 4 != 1
    ensures |Padding(n)| == size - end
  {
  }

  lemma EncodeParts(b: seq<bv8>, data: string, pad: string)
    requires Letters(Pack(b)) == data && pad == Padding(|b|)
    ensures Encode(b) == data + pad
  {
  }

  lemma PaddingIs(s: string, n: nat)
    requires DataEnd(s) <= |s| && |s[DataEnd(s)..]| == |Padding(n)|
    ensures s[DataEnd(s)..] == Padding(n)
  {
  }

  lemma CanonicalReencodes(s: string)
    requires CanonicalText(s) && Decode(s).Ok?
    ensures Encode(Decode(s).value) == s
  {
    var end := DataEnd(s);
    var data := s[..end];
    var vs := Values(data);
    var b := Unpack(vs);
    assert Decode(s) == Ok(b);
    PackUnpack(vs);
    LettersOfValues(data);
    SpellLength(ByteAt, vs);
    PaddingFits(|b|, end, |s|);
    PaddingIs(s, |b|);
    EncodeParts(b, data, s[end..]);
    assert s == data + s[end..];
  }

  lemma ReencodedIsCanonical(s: string)
    requires Decode(s).Ok? && Encode(Decode(s).value) == s
    ensures CanonicalText(s)
  {
    var b := Decode(s).value;
    EncodedEnd(b);
    LettersDecode(Pack(b));
    var data := s[..DataEnd(s)];
    assert data == Letters(Pack(b));
    PackUnpack(Values(data));
  }

  /** An accepted text is the encoding of its own bytes exactly when it is in canonical form. */
  lemma ReencodeExactly(s: string)
    requires Decode(s).Ok?
    ensures Encode(Decode(s).value) == s <==> CanonicalText(s)
  {
    if CanonicalText(s) { CanonicalReencodes(s); }
    if Encode(Decode(s).value) == s { ReencodedIsCanonical(s); }
  }
}
