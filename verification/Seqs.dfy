/** Facts about sequences that the graph and executor models share. */
module Seqs {

  datatype Option<+T> = None | Some(value: T)

  ghost predicate NoDups<T>(s: seq<T>)
  {
    forall i, j :: 0 <= i < j < |s| ==> s[i] != s[j]
  }

  lemma NoDupsAppend<T>(s: seq<T>, x: T)
    requires NoDups(s) && x !in s
    ensures NoDups(s + [x])
  {
  }

  lemma NoDupsConcat<T>(a: seq<T>, b: seq<T>)
    requires NoDups(a) && NoDups(b)
    requires forall x :: x in a ==> x !in b
    ensures NoDups(a + b)
  {
    var s := a + b;
    forall i, j | 0 <= i < j < |s| ensures s[i] != s[j] {
      if i < |a| <= j {
        assert s[i] in a && s[j] in b;
      }
    }
  }

  /** A duplicate-free sequence holds each of its elements once. */
  lemma {:induction false} NoDupsCount<T>(s: seq<T>, x: T)
    requires NoDups(s)
    ensures multiset(s)[x] == if x in s then 1 else 0
  {
    if s != [] {
      assert s == [s[0]] + s[1..];
      NoDupsCount(s[1..], x);
      assert s[0] !in s[1..];
    }
  }

  /** An element at two positions is counted at least twice. */
  lemma CountTwice<T>(s: seq<T>, i: nat, j: nat)
    requires i < j < |s| && s[i] == s[j]
    ensures multiset(s)[s[i]] >= 2
  {
    assert s == s[..j] + [s[j]] + s[j+1..];
    assert s[i] in s[..j];
  }

  /** Duplicate-free sequences with the same members have the same length. */
  lemma {:induction false} NoDupsSet<T>(s: seq<T>)
    requires NoDups(s)
    ensures |set x | x in s| == |s|
  {
    if s != [] {
      var rest := s[1..];
      NoDupsSet(rest);
      assert s[0] !in rest;
      assert (set x | x in s) == {s[0]} + (set x | x in rest);
    }
  }

  // ----- Sorting -----

  ghost predicate Ascending(s: seq<nat>)
  {
    forall i, j :: 0 <= i < j < |s| ==> s[i] <= s[j]
  }

  function Insert(x: nat, s: seq<nat>): (r: seq<nat>)
    requires Ascending(s)
    ensures Ascending(r) && multiset(r) == multiset(s) + multiset{x}
  {
    if s == [] || x <= s[0] then [x] + s
    else
      var r := [s[0]] + Insert(x, s[1..]);
      assert s == [s[0]] + s[1..];
      SortedHead(s, r, x);
      r
  }

  lemma SortedHead(s: seq<nat>, r: seq<nat>, x: nat)
    requires s != [] && r != [] && Ascending(s) && s[0] < x && r[0] == s[0]
    requires Ascending(r[1..]) && multiset(r[1..]) == multiset(s[1..]) + multiset{x}
    ensures Ascending(r)
  {
    forall j | 0 < j < |r| ensures r[0] <= r[j] {
      assert r[j] in multiset(r[1..]);
    }
  }

  /** The elements of s in ascending order. */
  function SortNats(s: seq<nat>): (r: seq<nat>)
    ensures Ascending(r) && multiset(r) == multiset(s)
  {
    if s == [] then []
    else
      assert s == [s[0]] + s[1..];
      Insert(s[0], SortNats(s[1..]))
  }

  lemma SortNatsMembers(s: seq<nat>)
    ensures forall x :: x in SortNats(s) <==> x in s
  {
    assert forall x :: x in s <==> x in multiset(s);
    assert forall x :: x in SortNats(s) <==> x in multiset(SortNats(s));
  }

  lemma SortNatsNoDups(s: seq<nat>)
    requires NoDups(s)
    ensures NoDups(SortNats(s))
  {
    var r := SortNats(s);
    forall i, j | 0 <= i < j < |r| ensures r[i] != r[j] {
      if r[i] == r[j] {
        CountTwice(r, i, j);
        NoDupsCount(s, r[i]);
      }
    }
  }

  ghost predicate StrictlyAscending(s: seq<nat>)
  {
    forall i, j :: 0 <= i < j < |s| ==> s[i] < s[j]
  }

  lemma SortNatsAscends(s: seq<nat>)
    requires NoDups(s)
    ensures StrictlyAscending(SortNats(s))
  {
    SortNatsNoDups(s);
  }

  lemma AscendingNoDups(s: seq<nat>)
    requires StrictlyAscending(s)
    ensures NoDups(s)
  {
  }

  lemma AscendingAppend(s: seq<nat>, x: nat)
    requires StrictlyAscending(s) && forall y :: y in s ==> y < x
    ensures StrictlyAscending(s + [x])
  {
    forall i | 0 <= i < |s| ensures s[i] < x {
      assert s[i] in s;
    }
  }

  /** A set has one strictly ascending enumeration. */
  lemma {:induction false} AscendingUnique(a: seq<nat>, b: seq<nat>)
    requires StrictlyAscending(a) && StrictlyAscending(b)
    requires forall x :: x in a <==> x in b
    ensures a == b
  {
    assert (a != [] ==> a[0] in a) && (b != [] ==> b[0] in b);
    if a != [] && b != [] {
      assert a[0] in b && b[0] in a;
      assert a[0] == b[0];
      forall x ensures x in a[1..] <==> x in b[1..] {
        assert x in a[1..] <==> x in a && x != a[0];
        assert x in b[1..] <==> x in b && x != b[0];
      }
      AscendingUnique(a[1..], b[1..]);
      assert a == [a[0]] + a[1..] && b == [b[0]] + b[1..];
    }
  }

  // ----- Counting in flattened sequences -----

  function Flat<A, B>(xs: seq<A>, f: A -> seq<B>): seq<B>
  {
    if xs == [] then [] else f(xs[0]) + Flat(xs[1..], f)
  }

  lemma CountAppend<T>(a: seq<T>, b: seq<T>, x: T)
    ensures multiset(a + b)[x] == multiset(a)[x] + multiset(b)[x]
  {
  }

  lemma MoreTimes(k: nat, c: nat)
    ensures (k + 1) * c == k * c + c
  {
  }

  function Times(k: nat, c: nat): nat
  {
    k * c
  }

  lemma TimesSteps(k: nat, c: nat)
    ensures Times(0, c) == 0 && Times(k + 1, c) == Times(k, c) + c
  {
  }

  /** How often x occurs. */
  ghost function Count<T>(s: seq<T>, x: T): nat
  {
    multiset(s)[x]
  }

  lemma TimesMore(more: bool, k: nat, c: nat)
    ensures Times((if more then 1 else 0) + k, c) == (if more then c else 0) + Times(k, c)
  {
    hide Times;
    if more {
      assert 1 + k == k + 1;
      TimesSteps(k, c);
    }
  }

  lemma CountHead<A>(xs: seq<A>, k: A)
    requires xs != []
    ensures Count(xs, k) == (if xs[0] == k then 1 else 0) + Count(xs[1..], k)
  {
    assert xs == [xs[0]] + xs[1..];
  }

  lemma FlatHead<A, B>(xs: seq<A>, f: A -> seq<B>, y: B)
    requires xs != []
    ensures Count(Flat(xs, f), y) == Count(f(xs[0]), y) + Count(Flat(xs[1..], f), y)
  {
    CountAppend(f(xs[0]), Flat(xs[1..], f), y);
  }

  lemma {:induction false} FlatTimes<A, B>(xs: seq<A>, f: A -> seq<B>, y: B, k: A, c: nat)
    requires forall x :: x in xs ==> Count(f(x), y) == if x == k then c else 0
    ensures Count(Flat(xs, f), y) == Times(Count(xs, k), c)
  {
    if xs == [] {
      TimesSteps(0, c);
    } else {
      hide Times, Count, Flat;
      assert xs[0] in xs;
      FlatTimes(xs[1..], f, y, k, c);
      CountHead(xs, k);
      FlatHead(xs, f, y);
      TimesMore(xs[0] == k, Count(xs[1..], k), c);
    }
  }

  /** An element that only the image of k holds, c times, counts c times for every k. */
  lemma FlatCount<A, B>(xs: seq<A>, f: A -> seq<B>, y: B, k: A, c: nat)
    requires forall x :: x in xs ==> multiset(f(x))[y] == if x == k then c else 0
    ensures multiset(Flat(xs, f))[y] == multiset(xs)[k] * c
  {
    FlatTimes(xs, f, y, k, c);
  }
}
