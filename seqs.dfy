// Generic sequence helpers shared by the repositories and services: the
// row filter every query boils down to, and the first-appearance
// de-duplication that `findConflictedParticipants` performs with its
// `contains` guard.
module Seqs {

  datatype Result<T, E> = Ok(value: T) | Err(error: E)

  /** Keeps the elements of `s` that satisfy `p`, in their original order. */
  function Filter<T(!new)>(s: seq<T>, p: T -> bool): (r: seq<T>)
    ensures |r| <= |s|
    ensures forall x :: multiset(r)[x] == if p(x) then multiset(s)[x] else 0
    ensures forall x :: x in r <==> x in s && p(x)
  {
    if s == [] then []
    else
      var rest := Filter(s[..|s| - 1], p);
      assert s == s[..|s| - 1] + [s[|s| - 1]];
      if p(s[|s| - 1]) then rest + [s[|s| - 1]] else rest
  }

  /** Filtering distributes over concatenation, so output order follows input order. */
  lemma {:induction false} FilterAppend<T(!new)>(a: seq<T>, b: seq<T>, p: T -> bool)
    ensures Filter(a + b, p) == Filter(a, p) + Filter(b, p)
    decreases |b|
  {
    if b == [] {
      assert a + b == a;
    } else {
      var b' := b[..|b| - 1];
      assert (a + b)[..|a + b| - 1] == a + b';
      FilterAppend(a, b', p);
    }
  }

  /** The filter of a one-element extension, as a loop that appends sees it. */
  lemma FilterSnoc<T(!new)>(s: seq<T>, x: T, p: T -> bool)
    ensures Filter(s + [x], p) == if p(x) then Filter(s, p) + [x] else Filter(s, p)
  {
    assert (s + [x])[..|s + [x]| - 1] == s;
  }

  /** The concatenation of `f(x)` over the elements `x` of `s`, in order. */
  function ConcatMap<T, U>(s: seq<T>, f: T -> seq<U>): seq<U>
  {
    if s == [] then [] else ConcatMap(s[..|s| - 1], f) + f(s[|s| - 1])
  }

  lemma ConcatMapSnoc<T, U>(s: seq<T>, i: int, f: T -> seq<U>)
    requires 0 <= i < |s|
    ensures ConcatMap(s[..i + 1], f) == ConcatMap(s[..i], f) + f(s[i])
  {
    assert s[..i + 1][..i] == s[..i];
  }

  lemma {:induction false} ConcatMapAppend<T, U>(a: seq<T>, b: seq<T>, f: T -> seq<U>)
    ensures ConcatMap(a + b, f) == ConcatMap(a, f) + ConcatMap(b, f)
    decreases |b|
  {
    if b == [] {
      assert a + b == a;
    } else {
      var b' := b[..|b| - 1];
      assert (a + b)[..|a + b| - 1] == a + b';
      ConcatMapAppend(a, b', f);
    }
  }

  lemma TakeAll<T>(s: seq<T>)
    ensures s[..|s|] == s
  {
  }

  predicate NoDuplicates<T(==,!new)>(s: seq<T>)
  {
    forall i, j :: 0 <= i < j < |s| ==> s[i] != s[j]
  }

  /** Keeps the first occurrence of every element, in order of first appearance. */
  function Dedup<T(==,!new)>(s: seq<T>): (r: seq<T>)
    ensures NoDuplicates(r)
    ensures |r| <= |s|
    ensures forall x :: x in r <==> x in s
  {
    if s == [] then []
    else
      var rest := Dedup(s[..|s| - 1]);
      var x := s[|s| - 1];
      assert s == s[..|s| - 1] + [x];
      if x in rest then rest else rest + [x]
  }

  /** The position of the first occurrence of `x` in `s`. */
  function IndexOf<T(==)>(s: seq<T>, x: T): (i: nat)
    requires x in s
    ensures i < |s| && s[i] == x && x !in s[..i]
  {
    if s[0] == x then 0
    else
      var i := IndexOf(s[1..], x);
      assert s[1..][..i] == s[1..i + 1];
      1 + i
  }

  /** The first occurrence of an element is unaffected by appending after it. */
  lemma IndexOfSnoc<T>(s: seq<T>, y: T, x: T)
    requires x in s
    ensures IndexOf(s + [y], x) == IndexOf(s, x)
  {
    var i := IndexOf(s, x);
    var k := IndexOf(s + [y], x);
    var t := s + [y];
    assert t[i] == x;
    assert forall j :: 0 <= j < i ==> s[..i][j] == s[j] == t[j];
    assert forall j :: 0 <= j < k ==> t[..k][j] == t[j];
  }

  /** `Dedup` lists its elements in the order in which they first appear in `s`. */
  lemma {:induction false} DedupFirstAppearance<T(!new)>(s: seq<T>)
    ensures forall i, j :: 0 <= i < j < |Dedup(s)| ==> IndexOf(s, Dedup(s)[i]) < IndexOf(s, Dedup(s)[j])
  {
    if s != [] {
      var s' := s[..|s| - 1];
      var x := s[|s| - 1];
      assert s == s' + [x];
      DedupSnoc(s', x);
      DedupFirstAppearance(s');
      var d' := Dedup(s');
      forall y | y in d' ensures IndexOf(s, y) == IndexOf(s', y) && IndexOf(s', y) < |s'| {
        IndexOfSnoc(s', x, y);
      }
      forall i, j | 0 <= i < j < |Dedup(s)| ensures IndexOf(s, Dedup(s)[i]) < IndexOf(s, Dedup(s)[j]) {
        assert Dedup(s)[i] in d';
        if j < |d'| {
          assert Dedup(s)[j] in d';
        } else {
          assert IndexOf(s, x) == |s'| by {
            assert x !in s';
            assert s[..|s'|] == s';
          }
        }
      }
    }
  }

  lemma DedupSnoc<T(!new)>(s: seq<T>, x: T)
    ensures Dedup(s + [x]) == if x in Dedup(s) then Dedup(s) else Dedup(s) + [x]
  {
    assert (s + [x])[..|s + [x]| - 1] == s;
  }

  /** In a sequence without duplicates every element occurs exactly once. */
  lemma {:induction false} NoDuplicatesOccurOnce<T(!new)>(s: seq<T>)
    requires NoDuplicates(s)
    ensures forall x :: multiset(s)[x] == if x in s then 1 else 0
  {
    if s != [] {
      var s' := s[..|s| - 1];
      var y := s[|s| - 1];
      assert s == s' + [y];
      assert NoDuplicates(s');
      NoDuplicatesOccurOnce(s');
      assert y !in s' by {
        forall i | 0 <= i < |s'| ensures s'[i] != y {
          assert s[i] == s'[i];
        }
      }
    }
  }

  /** Two duplicate-free sequences with the same elements have the same length. */
  lemma SameElementsSameLength<T(!new)>(a: seq<T>, b: seq<T>)
    requires NoDuplicates(a) && NoDuplicates(b)
    requires forall x :: x in a <==> x in b
    ensures |a| == |b|
  {
    NoDuplicatesOccurOnce(a);
    NoDuplicatesOccurOnce(b);
    assert multiset(a) == multiset(b);
    assert |a| == |multiset(a)| && |b| == |multiset(b)|;
  }

  /** De-duplication drops something exactly when the input repeats an element. */
  lemma {:induction false} DedupShorterIffDuplicates<T(!new)>(s: seq<T>)
    ensures |Dedup(s)| == |s| <==> NoDuplicates(s)
  {
    if s != [] {
      var s' := s[..|s| - 1];
      var x := s[|s| - 1];
      assert s == s' + [x];
      DedupSnoc(s', x);
      DedupShorterIffDuplicates(s');
      if NoDuplicates(s) {
        assert NoDuplicates(s');
        assert x !in s' by {
          forall i | 0 <= i < |s'| ensures s'[i] != x {
            assert s[i] == s'[i];
          }
        }
      } else {
        if NoDuplicates(s') && x !in s' {
          assert NoDuplicates(s) by {
            forall i, j | 0 <= i < j < |s| ensures s[i] != s[j] {
              if j < |s'| {
                assert s[i] == s'[i] && s[j] == s'[j];
              } else {
                assert s[i] == s'[i];
              }
            }
          }
        }
      }
    }
  }
}
