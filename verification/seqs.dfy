/**
  Sequence utilities shared by the dashboard's data transformations: an
  optional value (JavaScript's `undefined` result of a failed lookup),
  first-match search (`Array.prototype.find` / `findIndex`), and insertion-
  ordered de-duplication (the iteration order of a JavaScript `Set`).
 */
module Seqs {

  /** A value that may be absent: `None` stands for JavaScript's `undefined`. */
  datatype Option<T> = None | Some(value: T) {
    function GetOr(default: T): T {
      match this
      case Some(v) => v
      case None => default
    }
  }

  /** `Array.prototype.map`: `f` applied to every element, in order. */
  function Project<T, U>(s: seq<T>, f: T -> U): (r: seq<U>)
    ensures |r| == |s| && forall i :: 0 <= i < |s| ==> r[i] == f(s[i])
  {
    seq(|s|, i requires 0 <= i < |s| => f(s[i]))
  }

  /** No element occurs twice. */
  ghost predicate NoDuplicates<T>(s: seq<T>) {
    forall i, j :: 0 <= i < j < |s| ==> s[i] != s[j]
  }

  /** The index of the first occurrence of `x` in `s`, or `None` if there is none. */
  function IndexOf<T(==)>(s: seq<T>, x: T): (r: Option<nat>)
    ensures r.Some? ==> r.value < |s| && s[r.value] == x
    ensures r.Some? ==> forall j :: 0 <= j < r.value ==> s[j] != x
    ensures r.None? <==> x !in s
  {
    if |s| == 0 then None
    else if s[0] == x then Some(0)
    else
      match IndexOf(s[1..], x)
      case None => None
      case Some(i) => Some(i + 1)
  }

  /** Adding elements at the end does not move the first occurrence of an element already present. */
  lemma {:induction false} IndexOfAppend<T>(s: seq<T>, t: seq<T>, x: T)
    requires x in s
    ensures IndexOf(s + t, x) == IndexOf(s, x)
  {
    if s[0] != x {
      assert (s + t)[1..] == s[1..] + t;
      IndexOfAppend(s[1..], t, x);
    }
  }

  /**
    The distinct elements of `s`, each kept at its first occurrence: the
    order in which a JavaScript `Set` built from `s` iterates.
   */
  function Distinct<T(==,!new)>(s: seq<T>): (r: seq<T>)
    ensures NoDuplicates(r)
    ensures forall x :: x in r <==> x in s
    ensures |r| <= |s|
    decreases |s|
  {
    if |s| == 0 then []
    else
      var d := Distinct(s[..|s| - 1]);
      var x := s[|s| - 1];
      assert forall y :: y in s <==> y in s[..|s| - 1] || y == x by {
        assert s == s[..|s| - 1] + [x];
      }
      if x in d then d else d + [x]
  }

  /** Appending an element adds it to the distinct elements unless it is already there. */
  lemma DistinctSnoc<T(!new)>(s: seq<T>, x: T)
    ensures Distinct(s + [x]) == if x in Distinct(s) then Distinct(s) else Distinct(s) + [x]
  {
    assert (s + [x])[..|s + [x]| - 1] == s;
  }

  /** Distinct elements appear in the order of their first occurrence in the input. */
  lemma {:induction false} DistinctFirstOccurrenceOrder<T(!new)>(s: seq<T>, i: nat, j: nat)
    requires i < j < |Distinct(s)|
    ensures IndexOf(s, Distinct(s)[i]).Some? && IndexOf(s, Distinct(s)[j]).Some?
    ensures IndexOf(s, Distinct(s)[i]).value < IndexOf(s, Distinct(s)[j]).value
    decreases |s|
  {
    var r := Distinct(s);
    var p := s[..|s| - 1];
    var x := s[|s| - 1];
    assert s == p + [x];
    var d := Distinct(p);
    if j < |d| {
      assert r[i] == d[i] && r[j] == d[j];
      DistinctFirstOccurrenceOrder(p, i, j);
      IndexOfAppend(p, [x], d[i]);
      IndexOfAppend(p, [x], d[j]);
    } else {
      assert r[j] == x && x !in p;
      assert r[i] == d[i] && d[i] in p;
      IndexOfAppend(p, [x], d[i]);
      assert IndexOf(s, x).value == |s| - 1;
    }
  }

  /** The elements of `s` that do not occur in `excluded`, in their order in `s`. */
  function Without<T(==,!new)>(s: seq<T>, excluded: seq<T>): (r: seq<T>)
    ensures forall x :: x in r <==> x in s && x !in excluded
    decreases |s|
  {
    if |s| == 0 then []
    else
      var x := s[|s| - 1];
      assert s == s[..|s| - 1] + [x];
      Without(s[..|s| - 1], excluded) + (if x in excluded then [] else [x])
  }

  /**
    The distinct elements of a concatenation are the distinct elements of the
    first part followed by those of the second part that the first part lacks.
   */
  lemma {:induction false} DistinctConcat<T(!new)>(a: seq<T>, b: seq<T>)
    ensures Distinct(a + b) == Distinct(a) + Without(Distinct(b), a)
    decreases |b|
  {
    if |b| == 0 {
      assert a + b == a;
    } else {
      var p := b[..|b| - 1];
      assert b == p + [b[|b| - 1]];
      DistinctConcat(a, p);
      DistinctConcatStep(a, p, b[|b| - 1]);
    }
  }

  /** The inductive step of `DistinctConcat`: append one element to the second part. */
  lemma DistinctConcatStep<T(!new)>(a: seq<T>, p: seq<T>, x: T)
    requires Distinct(a + p) == Distinct(a) + Without(Distinct(p), a)
    ensures Distinct(a + (p + [x])) == Distinct(a) + Without(Distinct(p + [x]), a)
  {
    AppendAssociative(a, p, [x]);
    if x in a + p {
      DistinctConcatStepSeen(a, p, x);
    } else {
      DistinctConcatStepNew(a, p, x);
    }
  }

  lemma DistinctConcatStepSeen<T(!new)>(a: seq<T>, p: seq<T>, x: T)
    requires x in a + p
    requires Distinct(a + p) == Distinct(a) + Without(Distinct(p), a)
    ensures Distinct((a + p) + [x]) == Distinct(a) + Without(Distinct(p + [x]), a)
  {
    assert x in Distinct(a + p);
    DistinctSnoc(a + p, x);
    if x in p {
      assert x in Distinct(p);
      DistinctSnoc(p, x);
    } else {
      DistinctConcatStepInFirst(a, p, x);
    }
  }

  lemma DistinctConcatStepInFirst<T(!new)>(a: seq<T>, p: seq<T>, x: T)
    requires x in a && x !in p
    ensures Without(Distinct(p + [x]), a) == Without(Distinct(p), a)
  {
    assert x !in Distinct(p);
    DistinctSnoc(p, x);
    WithoutSnoc(Distinct(p), x, a);
  }

  lemma DistinctConcatStepNew<T(!new)>(a: seq<T>, p: seq<T>, x: T)
    requires x !in a + p
    requires Distinct(a + p) == Distinct(a) + Without(Distinct(p), a)
    ensures Distinct((a + p) + [x]) == Distinct(a) + Without(Distinct(p + [x]), a)
  {
    assert x !in a && x !in p;
    DistinctSnoc(a + p, x);
    DistinctSnoc(p, x);
    WithoutSnoc(Distinct(p), x, a);
    AppendAssociative(Distinct(a), Without(Distinct(p), a), [x]);
  }

  lemma AppendAssociative<T>(a: seq<T>, b: seq<T>, c: seq<T>)
    ensures a + (b + c) == (a + b) + c
  {
  }

  lemma WithoutSnoc<T(!new)>(s: seq<T>, x: T, excluded: seq<T>)
    ensures Without(s + [x], excluded) == Without(s, excluded) + (if x in excluded then [] else [x])
  {
    assert (s + [x])[..|s + [x]| - 1] == s;
  }

  /** In a sequence without duplicates every element occurs at most once. */
  lemma {:induction false} NoDuplicatesMultiplicity<T>(s: seq<T>, x: T)
    requires NoDuplicates(s)
    ensures multiset(s)[x] <= 1
    decreases |s|
  {
    if |s| > 0 {
      var p := s[..|s| - 1];
      assert s == p + [s[|s| - 1]];
      NoDuplicatesMultiplicity(p, x);
      if x == s[|s| - 1] {
        assert x !in p;
      }
    }
  }

  /** Two equal elements at different positions make the element occur at least twice. */
  lemma TwoOccurrences<T>(s: seq<T>, i: nat, j: nat)
    requires i < j < |s| && s[i] == s[j]
    ensures multiset(s)[s[i]] >= 2
  {
    assert s == s[..i] + [s[i]] + s[i + 1..j] + [s[j]] + s[j + 1..];
  }
}
