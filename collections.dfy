/** Sequence and set vocabulary shared by the models: distinctness, the
    enumerations Python produces with `list(some_set)`, random samples,
    filtering and flattening. */
module Collections {

  /** No element occurs twice. */
  predicate Distinct<T(==)>(s: seq<T>) {
    forall i, j :: 0 <= i < j < |s| ==> s[i] != s[j]
  }

  /** The set of elements of a sequence. */
  function Elems<T>(s: seq<T>): set<T> {
    set x | x in s
  }

  /** `s` lists every element of `xs` exactly once, in some order: what
      `list(xs)` returns for a Python set, and what `random.shuffle` leaves. */
  predicate IsEnumeration<T(==)>(s: seq<T>, xs: set<T>) {
    Distinct(s) && Elems(s) == xs
  }

  /** `s` is a possible result of `random.sample(list(xs), k)`. */
  predicate IsSample<T(==)>(s: seq<T>, xs: set<T>, k: nat) {
    Distinct(s) && |s| == k && Elems(s) <= xs
  }

  /** The concatenation of a sequence of sequences. */
  function Flatten<T>(ss: seq<seq<T>>): (r: seq<T>)
    decreases |ss|
  {
    if ss == [] then [] else ss[0] + Flatten(ss[1..])
  }

  /** The elements of `s` that satisfy `p`, in their original order. */
  function Filter<T>(s: seq<T>, p: T -> bool): (r: seq<T>)
    ensures |r| <= |s|
    ensures forall x :: x in r ==> x in s && p(x)
    decreases |s|
  {
    if s == [] then []
    else if p(s[|s| - 1]) then Filter(s[..|s| - 1], p) + [s[|s| - 1]]
    else Filter(s[..|s| - 1], p)
  }

  lemma FilterAppend<T>(s: seq<T>, x: T, p: T -> bool)
    ensures Filter(s + [x], p) == if p(x) then Filter(s, p) + [x] else Filter(s, p)
  {
    assert (s + [x])[..|s + [x]| - 1] == s;
  }

  /** Splitting on a predicate and its negation loses nothing. */
  lemma {:induction false} FilterSplitCount<T>(s: seq<T>, p: T -> bool)
    ensures |Filter(s, p)| + |Filter(s, x => !p(x))| == |s|
    decreases |s|
  {
    if s != [] {
      FilterSplitCount(s[..|s| - 1], p);
    }
  }

  /** The elements of a distinct sequence form a set of the same size. */
  lemma {:induction false} DistinctCard<T>(s: seq<T>)
    requires Distinct(s)
    ensures |Elems(s)| == |s|
    decreases |s|
  {
    if s != [] {
      assert Elems(s) == {s[0]} + Elems(s[1..]);
      assert forall k :: 0 <= k < |s[1..]| ==> s[1..][k] == s[k + 1] != s[0];
      DistinctCard(s[1..]);
    }
  }

  /** An enumeration of a set is exactly as long as the set is large. */
  lemma EnumerationLength<T>(s: seq<T>, xs: set<T>)
    requires IsEnumeration(s, xs)
    ensures |s| == |xs|
  {
    DistinctCard(s);
  }

  /** `random.sample(list(xs), k)` can return something whenever `k <= |xs|`. */
  lemma SampleExists<T>(xs: set<T>, k: nat)
    requires k <= |xs|
    ensures exists t :: IsSample(t, xs, k)
  {
    EnumerationExists(xs);
    var s :| IsEnumeration(s, xs);
    EnumerationLength(s, xs);
    var t := s[..k];
    assert Distinct(s) && Elems(s) == xs;
    forall i, j | 0 <= i < j < |t| ensures t[i] != t[j] {
      assert t[i] == s[i] && t[j] == s[j];
    }
    forall x | x in Elems(t) ensures x in xs {
      var i :| 0 <= i < |t| && t[i] == x;
      assert s[i] == x;
      assert x in Elems(s);
    }
    assert IsSample(t, xs, k);
  }

  /** `list(xs)` can return something for every set. */
  lemma {:induction false} EnumerationExists<T>(xs: set<T>)
    ensures exists s :: IsEnumeration(s, xs)
    decreases xs
  {
    if xs == {} {
      assert IsEnumeration([], xs);
    } else {
      var x :| x in xs;
      EnumerationExists(xs - {x});
      var rest :| IsEnumeration(rest, xs - {x});
      var s := [x] + rest;
      assert Elems(s) == {x} + Elems(rest);
      forall i, j | 0 <= i < j < |s| ensures s[i] != s[j] {
        assert s[j] == rest[j - 1];
        if i > 0 {
          assert s[i] == rest[i - 1];
        } else {
          assert rest[j - 1] in Elems(rest);
        }
      }
      assert IsEnumeration(s, xs);
    }
  }

  lemma {:induction false} FlattenAppend<T>(a: seq<seq<T>>, b: seq<seq<T>>)
    ensures Flatten(a + b) == Flatten(a) + Flatten(b)
    decreases |a|
  {
    if a != [] {
      assert (a + b)[0] == a[0];
      assert (a + b)[1..] == a[1..] + b;
      FlattenAppend(a[1..], b);
    } else {
      assert a + b == b;
    }
  }


  /** The union of the elements of a list of lists. */
  function UnionOf<T>(ls: seq<seq<T>>): set<T>
    decreases |ls|
  {
    if ls == [] then {} else UnionOf(ls[..|ls| - 1]) + Elems(ls[|ls| - 1])
  }

  lemma {:induction false} UnionOfIn<T>(ls: seq<seq<T>>, x: T)
    ensures x in UnionOf(ls) <==> exists i :: 0 <= i < |ls| && x in ls[i]
    decreases |ls|
  {
    if ls != [] {
      var init := ls[..|ls| - 1];
      UnionOfIn(init, x);
      assert forall i :: 0 <= i < |init| ==> init[i] == ls[i];
    }
  }

  lemma UnionOfStep<T>(ls: seq<seq<T>>, i: int)
    requires 0 <= i < |ls|
    ensures UnionOf(ls[..i + 1]) == UnionOf(ls[..i]) + Elems(ls[i])
  {
    assert ls[..i + 1][..i] == ls[..i];
  }
}
