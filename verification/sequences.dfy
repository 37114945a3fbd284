/** Facts about sequences of keys: distinctness, removal of one value and the
    position of a value. These describe the id order of the task list. */
module Sequences {

  /** No value occurs twice in `s`. */
  predicate Distinct<T(==,!new)>(s: seq<T>) {
    forall i, j :: 0 <= i < j < |s| ==> s[i] != s[j]
  }

  lemma DistinctTail<T(!new)>(s: seq<T>)
    requires s != [] && Distinct(s)
    ensures Distinct(s[1..])
    ensures s[0] !in s[1..]
  {
    forall i, j | 0 <= i < j < |s[1..]| ensures s[1..][i] != s[1..][j] {
      assert s[1..][i] == s[i + 1] && s[1..][j] == s[j + 1];
    }
  }

  lemma DistinctCons<T(!new)>(x: T, s: seq<T>)
    requires x !in s && Distinct(s)
    ensures Distinct([x] + s)
  {
  }

  /** `s` with every value that already occurred earlier dropped: each value
      once, at the place where it first occurs. */
  function FirstOccurrences<T(==)>(s: seq<T>): seq<T> {
    if s == [] then []
    else
      var init := s[..|s| - 1];
      FirstOccurrences(init) + (if s[|s| - 1] in init then [] else [s[|s| - 1]])
  }

  /** `s` with every occurrence of `x` removed, the rest in their original order. */
  function Without<T(==,!new)>(s: seq<T>, x: T): (r: seq<T>)
    ensures x !in r
    ensures forall y :: y in r <==> y in s && y != x
    ensures |r| <= |s|
  {
    if s == [] then []
    else (if s[0] == x then [] else [s[0]]) + Without(s[1..], x)
  }

  /** The position of the first occurrence of `x` in `s`. */
  function IndexOf<T(==,!new)>(s: seq<T>, x: T): (i: nat)
    requires x in s
    ensures i < |s| && s[i] == x
    ensures forall k :: 0 <= k < i ==> s[k] != x
  {
    if s[0] == x then 0
    else
      assert x in s[1..];
      1 + IndexOf(s[1..], x)
  }

  /** An occurrence of `x` with no earlier occurrence is the one IndexOf finds. */
  lemma IndexOfAt<T(!new)>(s: seq<T>, x: T, i: nat)
    requires i < |s| && s[i] == x
    requires forall k :: 0 <= k < i ==> s[k] != x
    ensures IndexOf(s, x) == i
  {
  }

  lemma {:induction false} WithoutAbsent<T(!new)>(s: seq<T>, x: T)
    requires x !in s
    ensures Without(s, x) == s
  {
    if s != [] {
      assert x !in s[1..];
      WithoutAbsent(s[1..], x);
    }
  }

  lemma {:induction false} WithoutAppend<T(!new)>(a: seq<T>, b: seq<T>, x: T)
    ensures Without(a + b, x) == Without(a, x) + Without(b, x)
  {
    if a == [] {
      assert a + b == b;
    } else {
      assert (a + b)[1..] == a[1..] + b;
      WithoutAppend(a[1..], b, x);
    }
  }

  lemma {:induction false} WithoutDistinct<T(!new)>(s: seq<T>, x: T)
    requires Distinct(s)
    ensures Distinct(Without(s, x))
  {
    if s != [] {
      DistinctTail(s);
      WithoutDistinct(s[1..], x);
      var rest := Without(s[1..], x);
      assert s[0] !in rest;
    }
  }

  /** Removing the single occurrence of `x` from a distinct sequence takes away
      exactly one copy of `x` and nothing else. */
  lemma {:induction false} WithoutMultiset<T(!new)>(s: seq<T>, x: T)
    requires Distinct(s) && x in s
    ensures multiset(Without(s, x)) + multiset{x} == multiset(s)
  {
    assert s == [s[0]] + s[1..];
    DistinctTail(s);
    if s[0] == x {
      WithoutAbsent(s[1..], x);
    } else {
      DistinctTail(s);
      WithoutMultiset(s[1..], x);
    }
  }

  /** `x` inserted into `s` at position `p`. */
  function Insert<T>(s: seq<T>, p: nat, x: T): (r: seq<T>)
    requires p <= |s|
  {
    s[..p] + [x] + s[p..]
  }

  lemma InsertIndexed<T>(s: seq<T>, p: nat, x: T)
    requires p <= |s|
    ensures |Insert(s, p, x)| == |s| + 1
    ensures forall k :: 0 <= k < |s| + 1 ==>
              Insert(s, p, x)[k] == if k < p then s[k] else if k == p then x else s[k - 1]
  {
  }

  lemma InsertDistinct<T(!new)>(s: seq<T>, p: nat, x: T)
    requires Distinct(s) && x !in s && p <= |s|
    ensures Distinct(Insert(s, p, x))
  {
    InsertIndexed(s, p, x);
  }

  lemma InsertMultiset<T(!new)>(s: seq<T>, p: nat, x: T)
    requires p <= |s|
    ensures multiset(Insert(s, p, x)) == multiset(s) + multiset{x}
  {
    assert s == s[..p] + s[p..];
  }

  /** Taking the inserted value out again gives back `s`. */
  lemma InsertWithout<T(!new)>(s: seq<T>, p: nat, x: T)
    requires x !in s && p <= |s|
    ensures Without(Insert(s, p, x), x) == s
  {
    var a, b := s[..p], s[p..];
    assert s == a + b;
    assert x !in a && x !in b;
    assert Insert(s, p, x) == (a + [x]) + b;
    WithoutAppend(a + [x], b, x);
    WithoutAppend(a, [x], x);
    assert Without([x], x) == [];
    WithoutAbsent(a, x);
    WithoutAbsent(b, x);
  }

  lemma InsertIndexOf<T(!new)>(s: seq<T>, p: nat, x: T)
    requires x !in s && p <= |s|
    ensures IndexOf(Insert(s, p, x), x) == p
  {
    IndexOfAt(Insert(s, p, x), x, p);
  }

  /** The values of `s` before position `p` keep their place after the
      insertion; the others move one place on. */
  lemma InsertIndexOfOther<T(!new)>(s: seq<T>, p: nat, x: T, y: T)
    requires x !in s && p <= |s| && y in s
    ensures y in Insert(s, p, x)
    ensures IndexOf(Insert(s, p, x), y) ==
              if IndexOf(s, y) < p then IndexOf(s, y) else IndexOf(s, y) + 1
  {
    if IndexOf(s, y) < p {
      InsertIndexOfBefore(s, p, x, IndexOf(s, y));
    } else {
      InsertIndexOfAfter(s, p, x, IndexOf(s, y));
    }
  }

  lemma InsertIndexOfBefore<T(!new)>(s: seq<T>, p: nat, x: T, i: nat)
    requires p <= |s| && i < p
    requires forall k :: 0 <= k < i ==> s[k] != s[i]
    ensures IndexOf(Insert(s, p, x), s[i]) == i
  {
    var r := Insert(s, p, x);
    InsertIndexed(s, p, x);
    forall k | 0 <= k < i ensures r[k] != s[i] {
      assert r[k] == s[k];
    }
    IndexOfAt(r, s[i], i);
  }

  lemma InsertIndexOfAfter<T(!new)>(s: seq<T>, p: nat, x: T, i: nat)
    requires p <= i < |s| && s[i] != x
    requires forall k :: 0 <= k < i ==> s[k] != s[i]
    ensures IndexOf(Insert(s, p, x), s[i]) == i + 1
  {
    var r := Insert(s, p, x);
    InsertIndexed(s, p, x);
    forall k | 0 <= k < i + 1 ensures r[k] != s[i] {
      if k < p {
        assert r[k] == s[k];
      } else if k > p {
        assert r[k] == s[k - 1];
      }
    }
    IndexOfAt(r, s[i], i + 1);
  }
}
