/** Options, results and the facts about duplicate-free lists that the merge modules share. */
module Common {

  datatype Option<+T> = None | Some(value: T)

  datatype Result<+T, +E> = Ok(value: T) | Err(error: E)

  /** The members of a list, as a set. */
  function Elems<T>(s: seq<T>): set<T> {
    set x | x in s
  }

  ghost predicate NoDup<T>(s: seq<T>) {
    forall i, j :: 0 <= i < j < |s| ==> s[i] != s[j]
  }

  /** `s.filter(x => m.has(x))`. */
  function Keep<T(==)>(s: seq<T>, m: set<T>): seq<T> {
    if s == [] then []
    else if s[0] in m then [s[0]] + Keep(s[1..], m)
    else Keep(s[1..], m)
  }

  /** `s.filter(x => !m.has(x))`. */
  function Drop<T(==)>(s: seq<T>, m: set<T>): seq<T> {
    Keep(s, Elems(s) - m)
  }

  /** `[...new Set(s)]`: the first occurrence of every member, in order. */
  function Dedupe<T(==)>(s: seq<T>): seq<T> {
    if s == [] then []
    else
      var init := Dedupe(s[..|s| - 1]);
      if s[|s| - 1] in init then init else init + [s[|s| - 1]]
  }

  lemma {:induction false} KeepMember<T>(s: seq<T>, m: set<T>, x: T)
    ensures x in Keep(s, m) <==> x in s && x in m
  {
    if s != [] {
      KeepMember(s[1..], m, x);
      assert s == [s[0]] + s[1..];
    }
  }

  lemma KeepElems<T>(s: seq<T>, m: set<T>)
    ensures Elems(Keep(s, m)) == Elems(s) * m
  {
    var kept := Elems(Keep(s, m));
    forall x | x in kept ensures x in Elems(s) * m {
      KeepMember(s, m, x);
    }
    forall x | x in Elems(s) * m ensures x in kept {
      KeepMember(s, m, x);
    }
  }

  lemma {:induction false} KeepNoDup<T>(s: seq<T>, m: set<T>)
    requires NoDup(s)
    ensures NoDup(Keep(s, m))
  {
    if s != [] {
      KeepNoDup(s[1..], m);
      KeepMember(s[1..], m, s[0]);
    }
  }

  lemma {:induction false} KeepConcat<T>(s: seq<T>, t: seq<T>, m: set<T>)
    ensures Keep(s + t, m) == Keep(s, m) + Keep(t, m)
  {
    if s == [] {
      assert s + t == t;
    } else {
      KeepConcat(s[1..], t, m);
      assert (s + t)[1..] == s[1..] + t;
    }
  }

  lemma {:induction false} KeepKeep<T>(s: seq<T>, m: set<T>, n: set<T>)
    ensures Keep(Keep(s, m), n) == Keep(s, m * n)
  {
    if s != [] {
      KeepKeep(s[1..], m, n);
      if s[0] in m {
        assert Keep(s, m)[1..] == Keep(s[1..], m);
      }
    }
  }

  /** Filtering looks only at the members that occur. */
  lemma {:induction false} KeepAgree<T>(s: seq<T>, m: set<T>, n: set<T>)
    requires Elems(s) * m == Elems(s) * n
    ensures Keep(s, m) == Keep(s, n)
  {
    if s != [] {
      assert Elems(s[1..]) <= Elems(s);
      assert Elems(s[1..]) * m == Elems(s[1..]) * (Elems(s) * m);
      assert Elems(s[1..]) * n == Elems(s[1..]) * (Elems(s) * n);
      KeepAgree(s[1..], m, n);
      assert s[0] in Elems(s);
      assert s[0] in m <==> s[0] in Elems(s) * m;
      assert s[0] in n <==> s[0] in Elems(s) * n;
    }
  }

  lemma {:induction false} KeepAll<T>(s: seq<T>, m: set<T>)
    requires Elems(s) <= m
    ensures Keep(s, m) == s
  {
    if s != [] {
      assert s[0] in Elems(s);
      assert Elems(s[1..]) <= Elems(s);
      KeepAll(s[1..], m);
    }
  }

  lemma KeepNone<T>(s: seq<T>, m: set<T>)
    requires Elems(s) !! m
    ensures Keep(s, m) == []
  {
    KeepElems(s, m);
    if Keep(s, m) != [] {
      KeepMember(s, m, Keep(s, m)[0]);
      assert false;
    }
  }

  lemma DropElems<T>(s: seq<T>, m: set<T>)
    ensures Elems(Drop(s, m)) == Elems(s) - m
  {
    KeepElems(s, Elems(s) - m);
  }

  lemma NoDupCons<T>(s: seq<T>)
    requires s != [] && NoDup(s)
    ensures s[0] !in Elems(s[1..]) && NoDup(s[1..]) && Elems(s) == {s[0]} + Elems(s[1..])
  {
    assert forall j | 0 <= j < |s| - 1 :: s[1..][j] == s[j + 1] != s[0];
    assert s == [s[0]] + s[1..];
  }

  lemma {:induction false} DedupeFacts<T>(s: seq<T>)
    ensures NoDup(Dedupe(s)) && Elems(Dedupe(s)) == Elems(s)
  {
    if s != [] {
      var init, last := s[..|s| - 1], s[|s| - 1];
      DedupeFacts(init);
      assert s == init + [last];
      assert Elems(s) == Elems(init) + {last};
      assert last in Dedupe(init) <==> last in Elems(Dedupe(init));
      if last !in Dedupe(init) {
        assert Elems(Dedupe(init) + [last]) == Elems(Dedupe(init)) + {last};
      }
    }
  }

  lemma {:induction false} DedupeId<T>(s: seq<T>)
    requires NoDup(s)
    ensures Dedupe(s) == s
  {
    if s != [] {
      DedupeId(s[..|s| - 1]);
    }
  }

  function Add<T(==)>(s: seq<T>, x: T): seq<T> {
    if x in s then s else s + [x]
  }

  lemma DropAdd<T>(s: seq<T>, x: T, m: set<T>)
    ensures Drop(Add(s, x), m) == if x in s || x in m then Drop(s, m) else Drop(s, m) + [x]
  {
    var added := Elems(s + [x]) - m;
    if x !in s {
      KeepConcat(s, [x], added);
      assert Elems(s + [x]) == Elems(s) + {x};
      KeepAgree(s, Elems(s) - m, added);
      if x in m { KeepNone([x], added); } else { KeepAll([x], added); }
    }
  }

  /** Appending a list to a set adds, in order, the members that are new. */
  lemma {:induction false} DedupeConcat<T>(s: seq<T>, t: seq<T>)
    ensures Dedupe(s + t) == Dedupe(s) + Drop(Dedupe(t), Elems(s))
  {
    if t == [] {
      assert s + t == s;
    } else {
      var init, last := t[..|t| - 1], t[|t| - 1];
      DedupeConcat(s, init);
      assert (s + t)[..|s + t| - 1] == s + init;
      var d, later := Dedupe(s), Drop(Dedupe(init), Elems(s));
      assert Dedupe(s + t) == Add(d + later, last) && Dedupe(t) == Add(Dedupe(init), last);
      DropAdd(Dedupe(init), last, Elems(s));
      DedupeFacts(s);
      DropElems(Dedupe(init), Elems(s));
      assert last in d <==> last in Elems(d);
      assert last in later <==> last in Elems(later);
      assert last in Dedupe(init) <==> last in Elems(Dedupe(init));
    }
  }

  /** Filtering a set's enumeration and enumerating the filtered list are the same. */
  lemma {:induction false} DedupeKeep<T>(s: seq<T>, m: set<T>)
    ensures Keep(Dedupe(s), m) == Dedupe(Keep(s, m))
  {
    if s != [] {
      var init, last := s[..|s| - 1], s[|s| - 1];
      DedupeKeep(init, m);
      DedupeFacts(init);
      assert s == init + [last];
      KeepConcat(init, [last], m);
      KeepConcat(Dedupe(init), [last], m);
      KeepElems(init, m);
      DedupeFacts(Keep(init, m));
      assert last in Dedupe(init) <==> last in Elems(init);
      assert last in Dedupe(Keep(init, m)) <==> last in Elems(Keep(init, m));
      if last in m {
        KeepAll([last], m);
        assert Keep(s, m)[..|Keep(s, m)| - 1] == Keep(init, m);
      } else {
        KeepNone([last], m);
        assert Keep(s, m) == Keep(init, m);
        assert Keep(Dedupe(s), m) == Keep(Dedupe(init), m);
      }
    }
  }

  lemma {:induction false} NoDupCard<T>(s: seq<T>)
    requires NoDup(s)
    ensures |Elems(s)| == |s|
  {
    if s != [] {
      NoDupCard(s[1..]);
      assert s == [s[0]] + s[1..];
      assert Elems(s) == {s[0]} + Elems(s[1..]);
      assert s[0] !in Elems(s[1..]);
    }
  }

  lemma {:induction false} CardNoDup<T>(s: seq<T>)
    requires |Elems(s)| == |s|
    ensures NoDup(s)
  {
    if s != [] {
      var rest := s[1..];
      assert s == [s[0]] + rest;
      assert Elems(s) == {s[0]} + Elems(rest);
      assert s[0] in Elems(rest) ==> Elems(s) == Elems(rest);
      ElemsCard(rest);
      CardNoDup(rest);
    }
  }

  lemma {:induction false} ElemsCard<T>(s: seq<T>)
    ensures |Elems(s)| <= |s|
  {
    if s != [] {
      ElemsCard(s[1..]);
      assert s == [s[0]] + s[1..];
      assert Elems(s) == {s[0]} + Elems(s[1..]);
    }
  }

  lemma {:induction false} SubsetCard<T>(a: set<T>, b: set<T>)
    requires a <= b
    ensures |a| <= |b|
    ensures |a| == |b| ==> a == b
  {
    if a != {} {
      var x :| x in a;
      SubsetCard(a - {x}, b - {x});
      assert a == (a - {x}) + {x};
      assert b == (b - {x}) + {x};
    }
  }

  // ---------------------------------------------------------------------------
  // Filtering
  // ---------------------------------------------------------------------------

  function Filter<T>(p: T -> bool, s: seq<T>): seq<T>
    decreases |s|
  {
    if s == [] then []
    else if p(s[0]) then [s[0]] + Filter(p, s[1..])
    else Filter(p, s[1..])
  }

  lemma {:induction false} FilterConcat<T>(p: T -> bool, s: seq<T>, t: seq<T>)
    ensures Filter(p, s + t) == Filter(p, s) + Filter(p, t)
    decreases |s|
  {
    if s == [] {
      assert s + t == t;
    } else {
      assert (s + t)[1..] == s[1..] + t;
      FilterConcat(p, s[1..], t);
    }
  }

  lemma {:induction false} FilterAll<T>(p: T -> bool, s: seq<T>)
    requires forall i | 0 <= i < |s| :: p(s[i])
    ensures Filter(p, s) == s
    decreases |s|
  {
    if s != [] { FilterAll(p, s[1..]); }
  }

  lemma {:induction false} FilterNone<T>(p: T -> bool, s: seq<T>)
    requires forall i | 0 <= i < |s| :: !p(s[i])
    ensures Filter(p, s) == []
    decreases |s|
  {
    if s != [] { FilterNone(p, s[1..]); }
  }

  lemma {:induction false} FilterMembers<T>(p: T -> bool, s: seq<T>)
    ensures |Filter(p, s)| <= |s|
    ensures forall i | 0 <= i < |Filter(p, s)| :: p(Filter(p, s)[i]) && Filter(p, s)[i] in s
    decreases |s|
  {
    if s != [] {
      var rest := Filter(p, s[1..]);
      FilterMembers(p, s[1..]);
      assert forall x | x in s[1..] :: x in s;
      forall i | 0 <= i < |Filter(p, s)| ensures p(Filter(p, s)[i]) && Filter(p, s)[i] in s {
        assert Filter(p, s)[i] == (if p(s[0]) then ([s[0]] + rest)[i] else rest[i]);
      }
    }
  }

  lemma {:induction false} FilterHolds<T>(p: T -> bool, s: seq<T>, i: nat)
    requires i < |s| && p(s[i])
    ensures s[i] in Filter(p, s)
    decreases |s|
  {
    if i > 0 { FilterHolds(p, s[1..], i - 1); }
  }

  lemma {:induction false} FilterSame<T>(p: T -> bool, s: seq<T>)
    ensures |Filter(p, s)| == |s| <==> forall i | 0 <= i < |s| :: p(s[i])
    decreases |s|
  {
    if s != [] {
      FilterSame(p, s[1..]);
      FilterMembers(p, s[1..]);
      assert (forall i | 0 <= i < |s| :: p(s[i])) <==> p(s[0]) && forall i | 0 <= i < |s[1..]| :: p(s[1..][i]) by {
        if p(s[0]) && forall i | 0 <= i < |s[1..]| :: p(s[1..][i]) {
          forall i | 0 <= i < |s| ensures p(s[i]) {
            if i > 0 { assert s[i] == s[1..][i - 1]; }
          }
        }
      }
    }
  }

  /** Joining lists is associative. */
  lemma Regroup<T>(a: seq<T>, b: seq<T>, c: seq<T>)
    ensures a + (b + c) == a + b + c
  {
  }

  // ---------------------------------------------------------------------------
  // Places
  // ---------------------------------------------------------------------------

  ghost predicate Ascending(ks: seq<nat>) {
    forall a, b | 0 <= a < b < |ks| :: ks[a] < ks[b]
  }

  /** `ks` are the places of `s` from `from` on where `p` holds, in order. */
  ghost predicate PlacesAfter<T>(p: T -> bool, s: seq<T>, from: nat, ks: seq<nat>) {
    && Ascending(ks)
    && (forall a | 0 <= a < |ks| :: from <= ks[a] < |s| && p(s[ks[a]]))
    && (forall k | from <= k < |s| && p(s[k]) :: k in ks)
  }

  ghost predicate Places<T>(p: T -> bool, s: seq<T>, ks: seq<nat>) {
    PlacesAfter(p, s, 0, ks)
  }

  ghost function PlacesFrom<T>(p: T -> bool, s: seq<T>, from: nat): seq<nat>
    requires from <= |s|
    decreases |s| - from
  {
    if from == |s| then []
    else if p(s[from]) then [from] + PlacesFrom(p, s, from + 1)
    else PlacesFrom(p, s, from + 1)
  }

  lemma PlaceFirst<T>(p: T -> bool, s: seq<T>, from: nat, rest: seq<nat>)
    requires from < |s| && PlacesAfter(p, s, from + 1, rest)
    ensures PlacesAfter(p, s, from, if p(s[from]) then [from] + rest else rest)
  {
    if p(s[from]) {
      AscendingCons(from, rest);
      forall k | from <= k < |s| && p(s[k]) ensures k in [from] + rest {
        assert k > from ==> k in rest;
      }
    }
  }

  lemma AscendingCons(from: nat, rest: seq<nat>)
    requires Ascending(rest) && forall a | 0 <= a < |rest| :: from < rest[a]
    ensures Ascending([from] + rest)
  {
  }

  lemma {:induction false} PlacesFromFound<T>(p: T -> bool, s: seq<T>, from: nat)
    requires from <= |s|
    ensures PlacesAfter(p, s, from, PlacesFrom(p, s, from))
    decreases |s| - from
  {
    if from < |s| {
      PlacesFromFound(p, s, from + 1);
      PlaceFirst(p, s, from, PlacesFrom(p, s, from + 1));
    }
  }

  lemma PlacesOf<T>(p: T -> bool, s: seq<T>) returns (ks: seq<nat>)
    ensures ks == PlacesFrom(p, s, 0) && Places(p, s, ks)
  {
    ks := PlacesFrom(p, s, 0);
    PlacesFromFound(p, s, 0);
  }

  ghost function Flat<T>(ls: seq<seq<T>>): seq<T> {
    if ls == [] then [] else ls[0] + Flat(ls[1..])
  }

  lemma {:induction false} FlatConcat<T>(a: seq<seq<T>>, b: seq<seq<T>>)
    ensures Flat(a + b) == Flat(a) + Flat(b)
  {
    if a == [] {
      assert a + b == b;
    } else {
      assert (a + b)[1..] == a[1..] + b;
      FlatConcat(a[1..], b);
      Regroup(a[0], Flat(a[1..]), Flat(b));
    }
  }
}
