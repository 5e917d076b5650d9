/** LINQ's `Distinct()` and `Order()` on sequences, with the ordering taken as
    a parameter `le` ("less than or equal"). */
module Sequences {

  /** `le` is a total preorder: every two elements compare, and comparison
      chains. Distinct elements may tie, as under a culture-sensitive
      string comparison. */
  ghost predicate TotalPreorder<T(!new)>(le: (T, T) -> bool) {
    && (forall x, y :: le(x, y) || le(y, x))
    && (forall x, y, z :: Chains(le, x, y, z))
  }

  /** Transitivity for one triple. Proofs name the triple they need, which
      keeps the solver from chaining comparisons without end. */
  predicate Chains<T>(le: (T, T) -> bool, x: T, y: T, z: T) {
    le(x, y) && le(y, z) ==> le(x, z)
  }

  /** `le` never ties two distinct elements. */
  ghost predicate Antisymmetric<T(!new)>(le: (T, T) -> bool) {
    forall x, y :: le(x, y) && le(y, x) ==> x == y
  }

  predicate NoDuplicates<T(==)>(s: seq<T>) {
    forall i, j :: 0 <= i < j < |s| ==> s[i] != s[j]
  }

  predicate Sorted<T>(s: seq<T>, le: (T, T) -> bool) {
    forall i, j :: 0 <= i < j < |s| ==> le(s[i], s[j])
  }

  /** Keeps the first occurrence of every element, in input order. */
  function Distinct<T(==,!new)>(xs: seq<T>): (r: seq<T>)
    ensures NoDuplicates(r)
    ensures forall x :: x in r <==> x in xs
    ensures |r| <= |xs|
  {
    if |xs| == 0 then []
    else
      var d := Distinct(xs[..|xs| - 1]);
      var last := xs[|xs| - 1];
      assert forall x :: x in xs <==> x in xs[..|xs| - 1] || x == last by {
        assert xs == xs[..|xs| - 1] + [last];
      }
      if last in d then d else d + [last]
  }

  /** On a duplicate-free input `Distinct` is the identity. */
  lemma {:induction false} DistinctOfDuplicateFree<T(!new)>(xs: seq<T>)
    requires NoDuplicates(xs)
    ensures Distinct(xs) == xs
  {
    if |xs| > 0 {
      var init := xs[..|xs| - 1];
      DistinctOfDuplicateFree(init);
      assert xs[|xs| - 1] !in init;
      assert init + [xs[|xs| - 1]] == xs;
    }
  }

  /** `a` and `b` compare equal under `le`. */
  predicate Ties<T>(le: (T, T) -> bool, a: T, b: T) {
    le(a, b) && le(b, a)
  }

  /** The elements of `s` that tie with `x`, in the order they occur in `s`. */
  function TiedWith<T>(s: seq<T>, x: T, le: (T, T) -> bool): seq<T> {
    if |s| == 0 then []
    else (if Ties(le, s[0], x) then [s[0]] else []) + TiedWith(s[1..], x, le)
  }

  /** Puts `x` in front of the first element it does not exceed. */
  function Insert<T(!new)>(x: T, s: seq<T>, le: (T, T) -> bool): (r: seq<T>)
    requires TotalPreorder(le)
    requires Sorted(s, le)
    ensures Sorted(r, le)
    ensures multiset(r) == multiset(s) + multiset{x}
    ensures forall y :: y in r <==> y == x || y in s
  {
    if |s| == 0 then [x]
    else if le(x, s[0]) then
      assert forall j :: 0 <= j < |s| ==> le(x, s[j]) by {
        forall j | 0 <= j < |s|
          ensures le(x, s[j])
        {
          assert Chains(le, x, s[0], s[j]);
        }
      }
      [x] + s
    else
      var tail := Insert(x, s[1..], le);
      assert s == [s[0]] + s[1..];
      assert forall k :: 0 <= k < |tail| ==> le(s[0], tail[k]) by {
        forall k | 0 <= k < |tail|
          ensures le(s[0], tail[k])
        {
          assert tail[k] in tail;
          if tail[k] != x {
            var m :| 0 <= m < |s[1..]| && s[1..][m] == tail[k];
            assert s[m + 1] == tail[k];
          }
        }
      }
      [s[0]] + tail
  }

  lemma TiedWithCons<T>(h: T, t: seq<T>, z: T, le: (T, T) -> bool)
    ensures TiedWith([h] + t, z, le) == (if Ties(le, h, z) then [h] else []) + TiedWith(t, z, le)
  {
    assert ([h] + t)[1..] == t;
  }

  /** An element placed after `head` ties with nothing `head` ties with. */
  lemma TieExclusive<T(!new)>(x: T, head: T, z: T, le: (T, T) -> bool)
    requires TotalPreorder(le)
    requires !le(x, head)
    ensures !(Ties(le, x, z) && Ties(le, head, z))
  {
    assert Chains(le, x, z, head);
  }

  /** Placing `head` in front of both sides keeps two tie lists equal. */
  lemma TiedWithStepEqual<T>(head: T, tail: seq<T>, rest: seq<T>, z: T, le: (T, T) -> bool)
    requires TiedWith(tail, z, le) == TiedWith(rest, z, le)
    ensures TiedWith([head] + tail, z, le) == TiedWith([head] + rest, z, le)
  {
    TiedWithCons(head, tail, z, le);
    TiedWithCons(head, rest, z, le);
  }

  /** Placing a `head` that does not tie in front of both sides keeps `x`
      at the front of the tie list. */
  lemma TiedWithStepFront<T>(x: T, head: T, tail: seq<T>, rest: seq<T>, z: T, le: (T, T) -> bool)
    requires !Ties(le, head, z)
    requires TiedWith(tail, z, le) == [x] + TiedWith(rest, z, le)
    ensures TiedWith([head] + tail, z, le) == [x] + TiedWith([head] + rest, z, le)
  {
    TiedWithCons(head, tail, z, le);
    TiedWithCons(head, rest, z, le);
  }

  lemma SortedTail<T>(s: seq<T>, le: (T, T) -> bool)
    requires |s| > 0 && Sorted(s, le)
    ensures Sorted(s[1..], le)
  {
  }

  /** When `x` does not sort after the head, it goes in front. */
  lemma InsertFront<T(!new)>(x: T, s: seq<T>, le: (T, T) -> bool)
    requires TotalPreorder(le) && Sorted(s, le)
    requires |s| == 0 || le(x, s[0])
    ensures Insert(x, s, le) == [x] + s
  {
  }

  /** The tie list of an insertion in front. */
  lemma InsertTiesFront<T(!new)>(x: T, s: seq<T>, z: T, le: (T, T) -> bool)
    requires TotalPreorder(le) && Sorted(s, le)
    requires |s| == 0 || le(x, s[0])
    ensures TiedWith(Insert(x, s, le), z, le) == (if Ties(le, x, z) then [x] else []) + TiedWith(s, z, le)
  {
    InsertFront(x, s, le);
    TiedWithCons(x, s, z, le);
  }

  /** When `x` sorts after the head, the head stays in front. */
  lemma InsertBehind<T(!new)>(x: T, s: seq<T>, le: (T, T) -> bool)
    requires TotalPreorder(le) && Sorted(s, le)
    requires |s| > 0 && !le(x, s[0])
    ensures Sorted(s[1..], le)
    ensures Insert(x, s, le) == [s[0]] + Insert(x, s[1..], le)
  {
  }

  /** Inserting `x` puts it in front of every element it ties with, and
      keeps the order of the others. */
  lemma {:induction false} InsertTies<T(!new)>(x: T, s: seq<T>, z: T, le: (T, T) -> bool)
    requires TotalPreorder(le)
    requires Sorted(s, le)
    ensures TiedWith(Insert(x, s, le), z, le) == (if Ties(le, x, z) then [x] else []) + TiedWith(s, z, le)
  {
    if |s| == 0 || le(x, s[0]) {
      InsertTiesFront(x, s, z, le);
    } else {
      SortedTail(s, le);
      var tail := Insert(x, s[1..], le);
      InsertBehind(x, s, le);
      assert s == [s[0]] + s[1..];
      InsertTies(x, s[1..], z, le);
      if Ties(le, x, z) {
        TieExclusive(x, s[0], z, le);
        TiedWithStepFront(x, s[0], tail, s[1..], z, le);
      } else {
        TiedWithStepEqual(s[0], tail, s[1..], z, le);
      }
    }
  }

  /** Stable insertion sort: the head of the input is inserted in front of
      every element of the sorted tail that it ties with, so elements that
      tie keep their input order. */
  function Sort<T(!new)>(xs: seq<T>, le: (T, T) -> bool): (r: seq<T>)
    requires TotalPreorder(le)
    ensures Sorted(r, le)
    ensures multiset(r) == multiset(xs)
    ensures forall y :: y in r <==> y in xs
    ensures forall z :: TiedWith(r, z, le) == TiedWith(xs, z, le)
  {
    if |xs| == 0 then []
    else
      assert xs == [xs[0]] + xs[1..];
      var sorted := Sort(xs[1..], le);
      assert forall z :: TiedWith(Insert(xs[0], sorted, le), z, le) == TiedWith(xs, z, le) by {
        forall z {
          InsertTies(xs[0], sorted, z, le);
        }
      }
      Insert(xs[0], sorted, le)
  }

  /** A sequence whose multiset holds every element at most once is duplicate-free. */
  lemma {:induction false} NoDuplicatesFromMultiset<T>(s: seq<T>, t: seq<T>)
    requires NoDuplicates(s)
    requires multiset(t) == multiset(s)
    ensures NoDuplicates(t)
  {
    forall i, j | 0 <= i < j < |t|
      ensures t[i] != t[j]
    {
      if t[i] == t[j] {
        var x := t[i];
        assert multiset(t)[x] >= 2 by {
          var without := t[..i] + t[i + 1..];
          assert t == t[..i] + [t[i]] + t[i + 1..];
          assert multiset(t) == multiset(without) + multiset{x};
          assert without[j - 1] == x;
          assert x in multiset(without);
        }
        CountAtMostOne(s, x);
        assert false;
      }
    }
  }

  lemma {:induction false} CountAtMostOne<T>(s: seq<T>, x: T)
    requires NoDuplicates(s)
    ensures multiset(s)[x] <= 1
  {
    if |s| > 0 {
      var init := s[..|s| - 1];
      assert s == init + [s[|s| - 1]];
      CountAtMostOne(init, x);
      if s[|s| - 1] == x {
        assert x !in init;
        assert multiset(init)[x] == 0;
      }
    }
  }

  lemma HeadNotInTail<T>(s: seq<T>)
    requires |s| > 0 && NoDuplicates(s)
    ensures s[0] !in s[1..]
  {
  }

  lemma NoElementsMeansEmpty<T>(s: seq<T>)
    ensures (forall x :: x !in s) ==> s == []
  {
    if |s| > 0 {
      assert s[0] in s;
    }
  }

  /** Under an antisymmetric total preorder, a sorted duplicate-free sequence
      is determined by its set of elements. */
  lemma {:induction false} SortedSetUnique<T(!new)>(a: seq<T>, b: seq<T>, le: (T, T) -> bool)
    requires TotalPreorder(le) && Antisymmetric(le)
    requires Sorted(a, le) && NoDuplicates(a)
    requires Sorted(b, le) && NoDuplicates(b)
    requires forall x :: x in a <==> x in b
    ensures a == b
    decreases |a|
  {
    NoElementsMeansEmpty(b);
    if |a| == 0 {
    } else {
      assert a[0] in b;
      assert |b| > 0;
      assert b[0] in a;
      assert le(a[0], b[0]) by {
        var k :| 0 <= k < |a| && a[k] == b[0];
        assert k == 0 || le(a[0], a[k]);
      }
      assert a[0] == b[0];
      HeadNotInTail(a);
      HeadNotInTail(b);
      forall x
        ensures x in a[1..] <==> x in b[1..]
      {
        assert a == [a[0]] + a[1..];
        assert b == [b[0]] + b[1..];
        if x in a[1..] {
          assert x in a && x != b[0];
        }
        if x in b[1..] {
          assert x in b && x != a[0];
        }
      }
      SortedSetUnique(a[1..], b[1..], le);
      assert a == [a[0]] + a[1..];
      assert b == [b[0]] + b[1..];
    }
  }

  /** Code-point lexicographic order: the first differing character decides
      by its Unicode scalar value, and a proper prefix comes first. */
  predicate CodePointLe(a: string, b: string) {
    if |a| == 0 then true
    else if |b| == 0 then false
    else if a[0] < b[0] then true
    else if b[0] < a[0] then false
    else CodePointLe(a[1..], b[1..])
  }

  lemma {:induction false} CodePointTotal(a: string, b: string)
    ensures CodePointLe(a, b) || CodePointLe(b, a)
    decreases |a|
  {
    if |a| > 0 && |b| > 0 && a[0] == b[0] {
      CodePointTotal(a[1..], b[1..]);
    }
  }

  lemma {:induction false} CodePointTransitive(a: string, b: string, c: string)
    requires CodePointLe(a, b) && CodePointLe(b, c)
    ensures CodePointLe(a, c)
    decreases |a|
  {
    if |a| > 0 && |b| > 0 && |c| > 0 && a[0] == b[0] && b[0] == c[0] {
      CodePointTransitive(a[1..], b[1..], c[1..]);
    }
  }

  lemma {:induction false} CodePointAntisymmetric(a: string, b: string)
    requires CodePointLe(a, b) && CodePointLe(b, a)
    ensures a == b
    decreases |a|
  {
    if |a| > 0 && |b| > 0 {
      CodePointAntisymmetric(a[1..], b[1..]);
      assert a == [a[0]] + a[1..];
      assert b == [b[0]] + b[1..];
    }
  }

  /** Code-point order satisfies every assumption the sorting lemmas make, so
      those assumptions can be met. */
  lemma CodePointIsTotalOrder()
    ensures TotalPreorder(CodePointLe)
    ensures Antisymmetric(CodePointLe)
  {
    forall a, b
      ensures CodePointLe(a, b) || CodePointLe(b, a)
    {
      CodePointTotal(a, b);
    }
    forall a, b, c
      ensures Chains(CodePointLe, a, b, c)
    {
      if CodePointLe(a, b) && CodePointLe(b, c) {
        CodePointTransitive(a, b, c);
      }
    }
    forall a, b | CodePointLe(a, b) && CodePointLe(b, a)
      ensures a == b
    {
      CodePointAntisymmetric(a, b);
    }
  }
}
