/** The stable sort of the runtime: the one ordering of a list that is sorted and keeps ties in place. */
module Sorting {
  import opened Common

  ghost predicate TotalPreorder<T(!new)>(le: (T, T) -> bool) {
    && (forall a, b :: le(a, b) || le(b, a))
    && (forall a, b, c :: le(a, b) && le(b, c) ==> le(a, c))
  }

  ghost predicate Sorted<T>(le: (T, T) -> bool, s: seq<T>) {
    forall i, j | 0 <= i < j < |s| :: le(s[i], s[j])
  }

  /** The members that tie with `a`. */
  function Ties<T>(le: (T, T) -> bool, a: T): T -> bool {
    (b: T) => le(a, b) && le(b, a)
  }

  /** Two lists have the same members, and those that tie come in the same order. */
  ghost predicate SameTies<T(!new)>(le: (T, T) -> bool, s: seq<T>, t: seq<T>) {
    forall a :: Filter(Ties(le, a), s) == Filter(Ties(le, a), t)
  }

  function Insert<T>(le: (T, T) -> bool, x: T, s: seq<T>): seq<T> {
    if s == [] || le(x, s[0]) then [x] + s else [s[0]] + Insert(le, x, s[1..])
  }

  /** `[...s].sort(...)`. */
  function StableSort<T>(le: (T, T) -> bool, s: seq<T>): seq<T>
    decreases |s|
  {
    if s == [] then [] else Insert(le, s[0], StableSort(le, s[1..]))
  }

  lemma {:induction false} InsertMembers<T>(le: (T, T) -> bool, x: T, s: seq<T>)
    ensures multiset(Insert(le, x, s)) == multiset([x] + s)
  {
    if s != [] && !le(x, s[0]) {
      InsertMembers(le, x, s[1..]);
      assert s == [s[0]] + s[1..];
    }
  }

  lemma {:induction false} InsertSorted<T(!new)>(le: (T, T) -> bool, x: T, s: seq<T>)
    requires TotalPreorder(le) && Sorted(le, s)
    ensures Sorted(le, Insert(le, x, s))
    decreases |s|
  {
    var r := Insert(le, x, s);
    if s == [] {
    } else if le(x, s[0]) {
      forall i, j | 0 <= i < j < |r| ensures le(r[i], r[j]) {
        if i == 0 { assert j == 1 || le(s[0], s[j - 1]); } else { assert r[i] == s[i - 1] && r[j] == s[j - 1]; }
      }
    } else {
      var rest := Insert(le, x, s[1..]);
      InsertSorted(le, x, s[1..]);
      InsertMembers(le, x, s[1..]);
      forall i, j | 0 <= i < j < |r| ensures le(r[i], r[j]) {
        if i > 0 {
          assert r[i] == rest[i - 1] && r[j] == rest[j - 1];
        } else {
          assert r[j] == rest[j - 1] && rest[j - 1] in multiset([x] + s[1..]);
          assert r[j] == x || r[j] in s[1..];
        }
      }
    }
  }

  lemma NoTie<T(!new)>(le: (T, T) -> bool, x: T, y: T, a: T)
    requires TotalPreorder(le)
    ensures Ties(le, a)(x) && Ties(le, a)(y) ==> le(x, y)
  {
  }

  lemma {:induction false} InsertTies<T(!new)>(le: (T, T) -> bool, x: T, s: seq<T>, a: T)
    requires TotalPreorder(le)
    ensures Filter(Ties(le, a), Insert(le, x, s)) == Filter(Ties(le, a), [x] + s)
    decreases |s|
  {
    var p := Ties(le, a);
    assert ([x] + s)[1..] == s;
    if s != [] && !le(x, s[0]) {
      var rest := Insert(le, x, s[1..]);
      InsertTies(le, x, s[1..], a);
      assert ([x] + s[1..])[1..] == s[1..];
      assert ([s[0]] + rest)[1..] == rest;
      NoTie(le, x, s[0], a);
    }
  }

  lemma {:induction false} SortMembers<T>(le: (T, T) -> bool, s: seq<T>)
    ensures multiset(StableSort(le, s)) == multiset(s)
    decreases |s|
  {
    if s != [] {
      SortMembers(le, s[1..]);
      InsertMembers(le, s[0], StableSort(le, s[1..]));
      assert s == [s[0]] + s[1..];
    }
  }

  lemma {:induction false} SortSorted<T(!new)>(le: (T, T) -> bool, s: seq<T>)
    requires TotalPreorder(le)
    ensures Sorted(le, StableSort(le, s))
    decreases |s|
  {
    if s != [] {
      SortSorted(le, s[1..]);
      InsertSorted(le, s[0], StableSort(le, s[1..]));
    }
  }

  lemma {:induction false} SortTies<T(!new)>(le: (T, T) -> bool, s: seq<T>, a: T)
    requires TotalPreorder(le)
    ensures Filter(Ties(le, a), StableSort(le, s)) == Filter(Ties(le, a), s)
    decreases |s|
  {
    if s != [] {
      var rest := StableSort(le, s[1..]);
      SortTies(le, s[1..], a);
      InsertTies(le, s[0], rest, a);
      assert ([s[0]] + rest)[1..] == rest;
    }
  }

  lemma TieInFilter<T>(p: T -> bool, s: seq<T>, i: nat)
    requires i < |s| && p(s[i])
    ensures s[i] in Filter(p, s)
    decreases |s|
  {
    if i > 0 { TieInFilter(p, s[1..], i - 1); }
  }

  lemma HeadTies<T(!new)>(le: (T, T) -> bool, t: seq<T>)
    requires TotalPreorder(le)
    ensures t != [] ==> Filter(Ties(le, t[0]), t) != []
  {
  }

  /** Two sorted lists with the same ties start with the same member. */
  lemma SameHead<T(!new)>(le: (T, T) -> bool, s: seq<T>, t: seq<T>)
    requires TotalPreorder(le) && Sorted(le, s) && Sorted(le, t) && SameTies(le, s, t) && s != []
    ensures t != [] && s[0] == t[0]
  {
    var p := Ties(le, s[0]);
    assert Filter(p, s)[0] == s[0];
    TieInFilter(p, s, 0);
    FilterMembers(p, t);
    assert s[0] in Filter(p, t);
    assert s[0] in t;
    var q := Ties(le, t[0]);
    TieInFilter(q, t, 0);
    FilterMembers(q, s);
    assert t[0] in Filter(q, s);
    var i :| 0 <= i < |s| && s[i] == t[0];
    var j :| 0 <= j < |t| && t[j] == s[0];
    assert le(s[0], t[0]) && le(t[0], s[0]);
    assert Filter(p, t)[0] == t[0];
  }

  /** There is only one sorted list with given ties. */
  lemma {:induction false} OnlyOne<T(!new)>(le: (T, T) -> bool, s: seq<T>, t: seq<T>)
    requires TotalPreorder(le) && Sorted(le, s) && Sorted(le, t) && SameTies(le, s, t)
    ensures s == t
    decreases |s|
  {
    if s == [] {
      HeadTies(le, t);
    } else {
      SameHead(le, s, t);
      assert SameTies(le, s[1..], t[1..]) by {
        forall a ensures Filter(Ties(le, a), s[1..]) == Filter(Ties(le, a), t[1..]) {
          var p := Ties(le, a);
          assert Filter(p, s) == Filter(p, t);
          assert p(s[0]) ==> Filter(p, s)[1..] == Filter(p, s[1..]) && Filter(p, t)[1..] == Filter(p, t[1..]);
        }
      }
      OnlyOne(le, s[1..], t[1..]);
      assert s == [s[0]] + s[1..] && t == [t[0]] + t[1..];
    }
  }

  /** A list is the stable sort of another exactly when it is sorted and has the same ties. */
  lemma SortExactly<T(!new)>(le: (T, T) -> bool, s: seq<T>, t: seq<T>)
    requires TotalPreorder(le)
    ensures t == StableSort(le, s) <==> Sorted(le, t) && SameTies(le, t, s)
  {
    SortSorted(le, s);
    forall a ensures Filter(Ties(le, a), StableSort(le, s)) == Filter(Ties(le, a), s) {
      SortTies(le, s, a);
    }
    if Sorted(le, t) && SameTies(le, t, s) { OnlyOne(le, t, StableSort(le, s)); }
  }
}
