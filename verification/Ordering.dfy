/**
  Lists kept in the order of a name: the ordered maps, ordered sets and stable sorts of
  the standard library.

  Names are compared byte by byte.  `SortBy` is the stable sort by a key; an ordered map
  is the sorted list of its entries, and an ordered set of names grows by `InsertName`.

  `Keyed` picks the members that share a key, in order.  The sort is fixed by these
  lists: two lists sort alike when they agree on every key.
 */
module Ordering {
  import opened Basics

  // ---- Names in lexicographic order ----

  predicate NameLess(a: string, b: string) {
    b != [] && (a == [] || a[0] < b[0] || (a[0] == b[0] && NameLess(a[1..], b[1..])))
  }

  lemma {:induction false} NameLessTotal(a: string, b: string)
    ensures NameLess(a, b) || a == b || NameLess(b, a)
    ensures !(NameLess(a, b) && NameLess(b, a))
    ensures !NameLess(a, a)
  {
    if a != [] && b != [] {
      NameLessTotal(a[1..], b[1..]);
      if a[0] == b[0] && a[1..] == b[1..] {
        assert a == [a[0]] + a[1..] == b;
      }
    }
    if a != [] {
      NameLessTotal(a[1..], a[1..]);
    }
  }

  lemma {:induction false} NameLessTransitive(a: string, b: string, c: string)
    requires NameLess(a, b) && NameLess(b, c)
    ensures NameLess(a, c)
  {
    if a != [] && a[0] == b[0] == c[0] {
      NameLessTransitive(a[1..], b[1..], c[1..]);
    }
  }

  // ---- Ordered insertion and stable sorting ----

  /** Insertion behind every element whose key is not greater. */
  function InsertBy<T>(x: T, s: seq<T>, key: T -> string): (r: seq<T>)
    ensures |r| == |s| + 1
  {
    if s == [] || NameLess(key(x), key(s[0])) then [x] + s else [s[0]] + InsertBy(x, s[1..], key)
  }

  /** The stable sort of `s` by key. */
  function SortBy<T>(s: seq<T>, key: T -> string): (r: seq<T>)
    ensures |r| == |s|
  {
    if s == [] then [] else InsertBy(s[|s| - 1], SortBy(s[..|s| - 1], key), key)
  }

  ghost predicate Ordered<T>(s: seq<T>, key: T -> string) {
    forall i, j :: 0 <= i < j < |s| ==> !NameLess(key(s[j]), key(s[i]))
  }

  ghost predicate StrictlyOrdered<T>(s: seq<T>, key: T -> string) {
    forall i, j :: 0 <= i < j < |s| ==> NameLess(key(s[i]), key(s[j]))
  }

  ghost predicate DistinctKeys<T>(s: seq<T>, key: T -> string) {
    forall i, j :: 0 <= i < j < |s| ==> key(s[i]) != key(s[j])
  }

  /** Elements that share a key are equal. */
  ghost predicate KeysDecide<T>(s: seq<T>, key: T -> string) {
    forall i, j :: 0 <= i < j < |s| && key(s[i]) == key(s[j]) ==> s[i] == s[j]
  }

  lemma {:induction false} InsertByMembers<T>(x: T, s: seq<T>, key: T -> string)
    ensures multiset(InsertBy(x, s, key)) == multiset{x} + multiset(s)
    ensures forall y :: y in InsertBy(x, s, key) <==> y == x || y in s
    decreases |s|
  {
    if s != [] && !NameLess(key(x), key(s[0])) {
      InsertByMembers(x, s[1..], key);
      assert s == [s[0]] + s[1..];
    }
  }

  lemma {:induction false} InsertByOrdered<T>(x: T, s: seq<T>, key: T -> string)
    requires Ordered(s, key)
    ensures Ordered(InsertBy(x, s, key), key)
    decreases |s|
  {
    if s == [] {
    } else if NameLess(key(x), key(s[0])) {
      forall i | 0 <= i < |s|
        ensures !NameLess(key(s[i]), key(x))
      {
        NameLessTotal(key(s[i]), key(x));
        if NameLess(key(s[i]), key(x)) {
          NameLessTransitive(key(s[i]), key(x), key(s[0]));
          NameLessTotal(key(s[0]), key(s[0]));
        }
      }
    } else {
      var rest := s[1..];
      var tail := InsertBy(x, rest, key);
      InsertByOrdered(x, rest, key);
      InsertByMembers(x, rest, key);
      forall i | 0 <= i < |tail|
        ensures !NameLess(key(tail[i]), key(s[0]))
      {
        var y := tail[i];
        assert y in multiset(tail);
        if y in rest {
          var j :| 0 <= j < |rest| && rest[j] == y;
          assert s[j + 1] == y;
        }
      }
    }
  }

  lemma {:induction false} SortByFacts<T>(s: seq<T>, key: T -> string)
    ensures Ordered(SortBy(s, key), key)
    ensures multiset(SortBy(s, key)) == multiset(s)
    ensures forall x :: x in SortBy(s, key) <==> x in s
    decreases |s|
  {
    if s != [] {
      var init, last := s[..|s| - 1], s[|s| - 1];
      assert s == init + [last];
      SortByFacts(init, key);
      InsertByOrdered(last, SortBy(init, key), key);
      InsertByMembers(last, SortBy(init, key), key);
    }
  }

  lemma DistinctMove<T>(a: seq<T>, b: seq<T>, key: T -> string)
    requires DistinctKeys(a, key) && multiset(a) == multiset(b)
    ensures DistinctKeys(b, key)
  {
    forall i, j | 0 <= i < j < |b|
      ensures key(b[i]) != key(b[j])
    {
      TwoOccurrences(b, i, j);
      var k, l := FindTwo(a, b[i], b[j]);
      assert key(a[if k < l then k else l]) != key(a[if k < l then l else k]);
    }
  }

  /** A stable sort of elements with distinct keys is strictly ordered. */
  lemma SortByStrict<T>(s: seq<T>, key: T -> string)
    requires DistinctKeys(s, key)
    ensures StrictlyOrdered(SortBy(s, key), key)
  {
    var sorted := SortBy(s, key);
    SortByFacts(s, key);
    DistinctMove(s, sorted, key);
    forall i, j | 0 <= i < j < |sorted|
      ensures NameLess(key(sorted[i]), key(sorted[j]))
    {
      NameLessTotal(key(sorted[i]), key(sorted[j]));
    }
  }

  lemma FirstIsLeast<T>(a: seq<T>, b: seq<T>, key: T -> string)
    requires Ordered(a, key) && Ordered(b, key) && a != [] && b != []
    requires a[0] in b && b[0] in a
    ensures key(a[0]) == key(b[0])
  {
    var i :| 0 <= i < |b| && b[i] == a[0];
    var j :| 0 <= j < |a| && a[j] == b[0];
    NameLessTotal(key(a[0]), key(b[0]));
  }

  /** Two ordered arrangements of the same elements agree when keys decide. */
  lemma {:induction false} OrderedUnique<T>(a: seq<T>, b: seq<T>, key: T -> string)
    requires Ordered(a, key) && Ordered(b, key) && KeysDecide(a, key)
    requires multiset(a) == multiset(b)
    ensures a == b
    decreases |a|
  {
    hide NameLess;
    SameMembers(a, b);
    if a != [] {
      HeadsMeet(a, b);
      FirstIsLeast(a, b, key);
      HeadsAgree(a, b, key);
      TailsMatch(a, b);
      OrderedUnique(a[1..], b[1..], key);
      assert a == [a[0]] + a[1..] && b == [b[0]] + b[1..];
    }
  }

  lemma SameMembers<T>(a: seq<T>, b: seq<T>)
    requires multiset(a) == multiset(b)
    ensures |a| == |b|
    ensures forall x :: x in a <==> x in b
  {
    assert |multiset(a)| == |a| && |multiset(b)| == |b|;
    assert forall x :: x in a <==> x in multiset(a);
    assert forall x :: x in b <==> x in multiset(b);
  }

  lemma TailsMatch<T>(a: seq<T>, b: seq<T>)
    requires multiset(a) == multiset(b) && a != [] && b != [] && a[0] == b[0]
    ensures multiset(a[1..]) == multiset(b[1..])
  {
    assert a == [a[0]] + a[1..] && b == [b[0]] + b[1..];
    assert multiset(a[1..]) == multiset(a) - multiset{a[0]};
    assert multiset(b[1..]) == multiset(b) - multiset{b[0]};
  }

  lemma HeadsMeet<T>(a: seq<T>, b: seq<T>)
    requires multiset(a) == multiset(b) && a != [] && b != []
    ensures a[0] in b && b[0] in a
  {
    assert a[0] in multiset(a) && a[0] in multiset(b);
    assert b[0] in multiset(b) && b[0] in multiset(a);
  }

  lemma HeadsAgree<T>(a: seq<T>, b: seq<T>, key: T -> string)
    requires KeysDecide(a, key) && a != [] && b != []
    requires b[0] in a && key(a[0]) == key(b[0])
    ensures a[0] == b[0]
  {
    var j :| 0 <= j < |a| && a[j] == b[0];
  }

  /** Reordering changes no stable sort when keys decide. */
  lemma SortOrderFree<T>(a: seq<T>, b: seq<T>, key: T -> string)
    requires multiset(a) == multiset(b) && KeysDecide(a, key)
    ensures SortBy(a, key) == SortBy(b, key)
  {
    hide NameLess, SortBy, Ordered, KeysDecide;
    SortByFacts(a, key);
    SortByFacts(b, key);
    DecidedMove(a, SortBy(a, key), key);
    OrderedUnique(SortBy(a, key), SortBy(b, key), key);
  }

  lemma DecidedMove<T>(a: seq<T>, b: seq<T>, key: T -> string)
    requires KeysDecide(a, key) && multiset(a) == multiset(b)
    ensures KeysDecide(b, key)
  {
    forall i, j | 0 <= i < j < |b| && key(b[i]) == key(b[j])
      ensures b[i] == b[j]
    {
      TwoOccurrences(b, i, j);
      var k, l := FindTwo(a, b[i], b[j]);
      assert a[if k < l then k else l] == a[if k < l then l else k];
    }
  }

  /** The elements with key `k`, in order. */
  function Keyed<T>(s: seq<T>, key: T -> string, k: string): seq<T> {
    if s == [] then []
    else Keyed(s[..|s| - 1], key, k) + if key(s[|s| - 1]) == k then [s[|s| - 1]] else []
  }

  lemma {:induction false} KeyedConcat<T>(a: seq<T>, b: seq<T>, key: T -> string, k: string)
    ensures Keyed(a + b, key, k) == Keyed(a, key, k) + Keyed(b, key, k)
    decreases |b|
  {
    if b == [] {
      assert a + b == a;
    } else {
      var init := b[..|b| - 1];
      KeyedConcat(a, init, key, k);
      assert (a + b)[..|a + b| - 1] == a + init;
    }
  }

  lemma KeyedOne<T>(x: T, key: T -> string, k: string)
    ensures Keyed([x], key, k) == if key(x) == k then [x] else []
  {
    assert [x][..0] == [];
  }

  lemma {:induction false} NoneKeyed<T>(s: seq<T>, key: T -> string, k: string)
    requires forall i :: 0 <= i < |s| ==> key(s[i]) != k
    ensures Keyed(s, key, k) == []
    decreases |s|
  {
    if s != [] {
      NoneKeyed(s[..|s| - 1], key, k);
    }
  }

  lemma {:induction false} InsertStable<T>(x: T, s: seq<T>, key: T -> string, k: string)
    requires Ordered(s, key)
    ensures Keyed(InsertBy(x, s, key), key, k) == Keyed(s, key, k) + Keyed([x], key, k)
    decreases |s|
  {
    hide NameLess;
    if s == [] {
    } else if NameLess(key(x), key(s[0])) {
      KeyedConcat([x], s, key, k);
      KeyedOne(x, key, k);
      if key(x) == k {
        forall i | 0 <= i < |s|
          ensures key(s[i]) != k
        {
          NameLessTotal(key(x), key(s[0]));
          if i > 0 {
            assert !NameLess(key(s[i]), key(s[0]));
          }
        }
        NoneKeyed(s, key, k);
      }
    } else {
      var rest := s[1..];
      InsertStable(x, rest, key, k);
      KeyedConcat([s[0]], InsertBy(x, rest, key), key, k);
      KeyedConcat([s[0]], rest, key, k);
      assert s == [s[0]] + rest;
    }
  }

  /** The sort is stable: it keeps the order of elements that share a key. */
  lemma {:induction false} SortStable<T>(s: seq<T>, key: T -> string, k: string)
    ensures Keyed(SortBy(s, key), key, k) == Keyed(s, key, k)
    decreases |s|
  {
    if s != [] {
      var init, last := s[..|s| - 1], s[|s| - 1];
      SortStable(init, key, k);
      SortByFacts(init, key);
      InsertStable(last, SortBy(init, key), key, k);
      KeyedConcat(init, [last], key, k);
      assert s == init + [last];
    }
  }

  lemma KeyedAt<T>(s: seq<T>, key: T -> string, i: nat)
    requires i < |s|
    ensures var before := |Keyed(s[..i], key, key(s[i]))|;
            before < |Keyed(s, key, key(s[i]))| && Keyed(s, key, key(s[i]))[before] == s[i]
  {
    hide Keyed, NameLess;
    var k := key(s[i]);
    var before, x, after := s[..i], [s[i]], s[i + 1..];
    assert s == before + (x + after);
    KeyedConcat(before, x + after, key, k);
    KeyedConcat(x, after, key, k);
    KeyedOne(s[i], key, k);
    assert Keyed(s, key, k) == Keyed(before, key, k) + ([s[i]] + Keyed(after, key, k));
  }

  lemma {:induction false} KeyedMember<T>(s: seq<T>, key: T -> string, i: nat)
    requires i < |s|
    ensures Keyed(s, key, key(s[i])) != []
  {
    KeyedAt(s, key, i);
  }

  lemma {:induction false} KeyedPresent<T>(s: seq<T>, key: T -> string, k: string) returns (i: nat)
    requires Keyed(s, key, k) != []
    ensures i < |s| && key(s[i]) == k
    decreases |s|
  {
    i := |s| - 1;
    if key(s[i]) != k {
      i := KeyedPresent(s[..i], key, k);
    }
  }

  /** The last elements of two ordered lists with the same keyed parts share their key. */
  lemma LastKeyNotLess<T>(a: seq<T>, b: seq<T>, key: T -> string)
    requires Ordered(a, key) && a != [] && b != []
    requires Keyed(a, key, key(b[|b| - 1])) == Keyed(b, key, key(b[|b| - 1]))
    ensures !NameLess(key(a[|a| - 1]), key(b[|b| - 1]))
  {
    hide NameLess, Keyed;
    KeyedMember(b, key, |b| - 1);
    var i := KeyedPresent(a, key, key(b[|b| - 1]));
    NameLessTotal(key(a[i]), key(a[i]));
  }

  lemma KeyedLast<T>(s: seq<T>, key: T -> string, k: string)
    requires s != []
    ensures Keyed(s, key, k)
         == Keyed(s[..|s| - 1], key, k) + if key(s[|s| - 1]) == k then [s[|s| - 1]] else []
  {
  }

  /** Every key has the same elements in the same order. */
  ghost predicate SameKeyed<T>(a: seq<T>, b: seq<T>, key: T -> string) {
    forall k :: Keyed(a, key, k) == Keyed(b, key, k)
  }

  /** An ordered list is determined by its keyed parts. */
  lemma {:induction false} OrderedFromKeyed<T>(a: seq<T>, b: seq<T>, key: T -> string)
    requires Ordered(a, key) && Ordered(b, key) && SameKeyed(a, b, key)
    ensures a == b
    decreases |a|
  {
    hide NameLess, Keyed;
    if a == [] || b == [] {
      if a != [] {
        KeyedMember(a, key, 0);
        NoneKeyed(b, key, key(a[0]));
      }
      if b != [] {
        KeyedMember(b, key, 0);
        NoneKeyed(a, key, key(b[0]));
      }
    } else {
      var x, y := a[|a| - 1], b[|b| - 1];
      var aInit, bInit := a[..|a| - 1], b[..|b| - 1];
      LastKeyNotLess(a, b, key);
      LastKeyNotLess(b, a, key);
      NameLessTotal(key(x), key(y));
      KeyedLast(a, key, key(x));
      KeyedLast(b, key, key(x));
      assert Keyed(a, key, key(x))[|Keyed(a, key, key(x))| - 1] == x;
      forall k
        ensures Keyed(aInit, key, k) == Keyed(bInit, key, k)
      {
        KeyedLast(a, key, k);
        KeyedLast(b, key, k);
        SameEnds(Keyed(aInit, key, k), Keyed(bInit, key, k), if key(x) == k then [x] else []);
      }
      OrderedFromKeyed(aInit, bInit, key);
      assert a == aInit + [x] && b == bInit + [y];
    }
  }

  lemma SameEnds<T>(a: seq<T>, b: seq<T>, end: seq<T>)
    requires a + end == b + end
    ensures a == b
  {
    assert |a| == |b|;
    assert a == (a + end)[..|a|] && b == (b + end)[..|b|];
  }

  /** Two stable sorts agree exactly when every key has the same elements in the same order. */
  lemma SortFollowsKeyed<T>(a: seq<T>, b: seq<T>, key: T -> string)
    ensures SortBy(a, key) == SortBy(b, key) <==> SameKeyed(a, b, key)
  {
    hide NameLess, Keyed, SortBy;
    SortByFacts(a, key);
    SortByFacts(b, key);
    forall k
      ensures Keyed(SortBy(a, key), key, k) == Keyed(a, key, k)
      ensures Keyed(SortBy(b, key), key, k) == Keyed(b, key, k)
    {
      SortStable(a, key, k);
      SortStable(b, key, k);
    }
    if SameKeyed(a, b, key) {
      assert SameKeyed(SortBy(a, key), SortBy(b, key), key);
      OrderedFromKeyed(SortBy(a, key), SortBy(b, key), key);
    }
  }

  // ---- Ordered sets of names ----

  function Self(name: string): string { name }

  ghost predicate StrictlyIncreasing(names: seq<string>) {
    StrictlyOrdered(names, Self)
  }

  /** Insertion into an ordered set of names. */
  function InsertName(name: string, names: seq<string>): (r: seq<string>)
    ensures |r| <= |names| + 1
  {
    if name in names then names else InsertBy(name, names, Self)
  }

  lemma InsertNameMembers(name: string, names: seq<string>, other: string)
    ensures other in InsertName(name, names) <==> other == name || other in names
  {
    InsertByMembers(name, names, Self);
  }

  lemma StrictIsOrdered<T>(s: seq<T>, key: T -> string)
    requires StrictlyOrdered(s, key)
    ensures Ordered(s, key) && DistinctKeys(s, key)
  {
    forall i, j | 0 <= i < j < |s|
      ensures !NameLess(key(s[j]), key(s[i])) && key(s[i]) != key(s[j])
    {
      NameLessTotal(key(s[i]), key(s[j]));
    }
  }

  lemma InsertNameOrdered(name: string, names: seq<string>)
    requires StrictlyIncreasing(names)
    ensures StrictlyIncreasing(InsertName(name, names))
  {
    if name !in names {
      var longer := InsertName(name, names);
      StrictIsOrdered(names, Self);
      InsertByOrdered(name, names, Self);
      InsertByMembers(name, names, Self);
      assert multiset(longer) == multiset([name] + names);
      DistinctMove([name] + names, longer, Self);
      forall i, j | 0 <= i < j < |longer|
        ensures NameLess(Self(longer[i]), Self(longer[j]))
      {
        NameLessTotal(longer[i], longer[j]);
      }
    }
  }

  lemma {:induction false} CountDistinct<T>(s: seq<T>, key: T -> string, x: T)
    requires DistinctKeys(s, key)
    ensures multiset(s)[x] == if x in s then 1 else 0
    decreases |s|
  {
    if s != [] {
      var init, last := s[..|s| - 1], s[|s| - 1];
      assert s == init + [last];
      assert forall i :: 0 <= i < |init| ==> key(init[i]) != key(last);
      CountDistinct(init, key, x);
    }
  }

  /** Two strictly ordered lists with the same members are equal. */
  lemma StrictUnique<T>(a: seq<T>, b: seq<T>, key: T -> string)
    requires StrictlyOrdered(a, key) && StrictlyOrdered(b, key)
    requires forall x :: x in a <==> x in b
    ensures a == b
  {
    StrictIsOrdered(a, key);
    StrictIsOrdered(b, key);
    forall x
      ensures multiset(a)[x] == multiset(b)[x]
    {
      CountDistinct(a, key, x);
      CountDistinct(b, key, x);
    }
    assert multiset(a) == multiset(b);
    OrderedUnique(a, b, key);
  }
}
