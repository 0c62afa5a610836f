/** The JavaScript array operations the backend relies on: `indexOf`, and
    `splice(index, 1)` at the index `indexOf` found. */
module Seqs {

  /** No element occurs twice. */
  predicate NoDup<T(==)>(s: seq<T>) {
    forall i, j :: 0 <= i < j < |s| ==> s[i] != s[j]
  }

  /** The elements of a sequence, as a set. */
  function Elems<T>(s: seq<T>): set<T> {
    set x | x in s
  }

  lemma ElemsSnoc<T>(s: seq<T>, x: T)
    ensures Elems(s + [x]) == Elems(s) + {x}
  {
  }

  /** `s.indexOf(x)`: the first index of `x`, or -1. */
  function IndexOf<T(==)>(s: seq<T>, x: T): (i: int)
    ensures -1 <= i < |s|
    ensures i == -1 <==> x !in s
    ensures 0 <= i ==> s[i] == x && x !in s[..i]
  {
    if s == [] then -1
    else if s[0] == x then 0
    else
      var j := IndexOf(s[1..], x);
      if j == -1 then -1 else j + 1
  }

  /** `s.splice(s.indexOf(x), 1)` when `x` occurs, `s` otherwise. */
  function Without<T(==)>(s: seq<T>, x: T): seq<T> {
    var i := IndexOf(s, x);
    if i == -1 then s else s[..i] + s[i + 1..]
  }

  /** The elements of `s` not in `r`, in their order in `s`. */
  function RemoveAll<T(==)>(s: seq<T>, r: set<T>): seq<T> {
    if s == [] then []
    else (if s[0] in r then [] else [s[0]]) + RemoveAll(s[1..], r)
  }

  lemma {:induction false} RemoveAllElems<T>(s: seq<T>, r: set<T>)
    ensures forall y :: y in RemoveAll(s, r) <==> y in s && y !in r
  {
    if s != [] {
      RemoveAllElems(s[1..], r);
      assert s == [s[0]] + s[1..];
    }
  }

  lemma {:induction false} RemoveAllNoDup<T>(s: seq<T>, r: set<T>)
    requires NoDup(s)
    ensures NoDup(RemoveAll(s, r))
  {
    if s != [] {
      RemoveAllNoDup(s[1..], r);
      RemoveAllElems(s[1..], r);
      var rest := RemoveAll(s[1..], r);
      assert s[0] !in rest;
    }
  }

  /** Removing the elements of `a` and then those of `b` removes those of
      `a + b`. */
  lemma {:induction false} RemoveAllTwice<T>(s: seq<T>, a: set<T>, b: set<T>)
    ensures RemoveAll(RemoveAll(s, a), b) == RemoveAll(s, a + b)
  {
    if s != [] {
      RemoveAllTwice(s[1..], a, b);
      if s[0] in a {
        assert RemoveAll(s, a) == RemoveAll(s[1..], a);
      } else {
        assert RemoveAll(s, a) == [s[0]] + RemoveAll(s[1..], a);
        assert RemoveAll(s, a)[0] == s[0];
        assert RemoveAll(s, a)[1..] == RemoveAll(s[1..], a);
      }
    }
  }

  /** Removing an element no longer present changes nothing. */
  lemma {:induction false} RemoveAllAbsent<T>(s: seq<T>, r: set<T>)
    requires forall y :: y in s ==> y !in r
    ensures RemoveAll(s, r) == s
  {
    if s != [] {
      RemoveAllAbsent(s[1..], r);
      assert s == [s[0]] + s[1..];
    }
  }

  /** `splice` at `indexOf` past a head that differs from `x`. */
  lemma WithoutCons<T>(s: seq<T>, x: T)
    requires s != [] && s[0] != x
    ensures Without(s, x) == [s[0]] + Without(s[1..], x)
  {
    var j := IndexOf(s[1..], x);
    assert IndexOf(s, x) == if j == -1 then -1 else j + 1;
    if j == -1 {
      assert s == [s[0]] + s[1..];
    } else {
      SpliceCons(s, j);
    }
  }

  lemma SpliceCons<T>(s: seq<T>, j: nat)
    requires j + 1 < |s|
    ensures s[..j + 1] + s[j + 2..] == [s[0]] + (s[1..][..j] + s[1..][j + 1..])
  {
    assert s[..j + 1] == [s[0]] + s[1..][..j];
    assert s[j + 2..] == s[1..][j + 1..];
  }

  /** On a duplicate-free sequence, `splice` at `indexOf` drops exactly the
      one occurrence and keeps the order of everything else. */
  lemma {:induction false} WithoutIsRemoval<T>(s: seq<T>, x: T)
    requires NoDup(s)
    ensures Without(s, x) == RemoveAll(s, {x})
    ensures NoDup(Without(s, x))
    ensures forall y :: y in Without(s, x) <==> y in s && y != x
  {
    if s != [] {
      if s[0] == x {
        assert Without(s, x) == s[1..];
        RemoveAllAbsent(s[1..], {x});
      } else {
        WithoutCons(s, x);
        WithoutIsRemoval(s[1..], x);
      }
    }
    RemoveAllNoDup(s, {x});
    RemoveAllElems(s, {x});
  }
}
