/** Filtering of sequences, used for SQL `WHERE` and for JavaScript `filter`. */
module Seqs {

  /** The elements of `s` that satisfy `keep`, in order. */
  function Filter<T>(s: seq<T>, keep: T -> bool): (r: seq<T>)
    ensures forall x :: x in r ==> x in s && keep(x)
    ensures forall x :: x in s && keep(x) ==> x in r
    ensures |r| <= |s|
  {
    if s == [] then []
    else
      var rest := Filter(s[..|s| - 1], keep);
      if keep(s[|s| - 1]) then rest + [s[|s| - 1]] else rest
  }

  lemma FilterSnoc<T>(s: seq<T>, x: T, keep: T -> bool)
    ensures Filter(s + [x], keep) == Filter(s, keep) + (if keep(x) then [x] else [])
  {
    assert (s + [x])[..|s|] == s;
  }

  lemma {:induction false} FilterConcat<T>(a: seq<T>, b: seq<T>, keep: T -> bool)
    ensures Filter(a + b, keep) == Filter(a, keep) + Filter(b, keep)
  {
    if b == [] {
      assert a + b == a;
    } else {
      var n := |b| - 1;
      assert a + b == (a + b[..n]) + [b[n]];
      FilterConcat(a, b[..n], keep);
      FilterSnoc(a + b[..n], b[n], keep);
    }
  }

  lemma {:induction false} FilterAll<T>(s: seq<T>, keep: T -> bool)
    requires forall x :: x in s ==> keep(x)
    ensures Filter(s, keep) == s
  {
    if s != [] {
      FilterAll(s[..|s| - 1], keep);
      assert s == s[..|s| - 1] + [s[|s| - 1]];
    }
  }

  /** `r` holds the elements of `s` at the positions `kept`, which are those that satisfy `keep`, in order. */
  ghost predicate Picks<T>(s: seq<T>, keep: T -> bool, kept: seq<nat>, r: seq<T>) {
    && |kept| == |r|
    && (forall i, j :: 0 <= i < j < |kept| ==> kept[i] < kept[j])
    && (forall i: nat :: i in kept <==> i < |s| && keep(s[i]))
    && (forall j :: 0 <= j < |r| ==> kept[j] < |s| && r[j] == s[kept[j]])
  }

  lemma PicksSnoc<T>(s: seq<T>, x: T, keep: T -> bool, kept: seq<nat>, r: seq<T>)
    requires Picks(s, keep, kept, r)
    ensures if keep(x) then Picks(s + [x], keep, kept + [|s|], r + [x]) else Picks(s + [x], keep, kept, r)
  {
    forall i: nat | i in kept ensures i < |s| {
    }
    var n := |s|;
    assert (s + [x])[n] == x && forall i :: 0 <= i < n ==> (s + [x])[i] == s[i];
  }

  /** Filtering keeps the positions that satisfy `keep`, in their order. */
  lemma {:induction false} FilterPicks<T>(s: seq<T>, keep: T -> bool) returns (kept: seq<nat>)
    ensures Picks(s, keep, kept, Filter(s, keep))
  {
    kept := [];
    if s != [] {
      var n := |s| - 1;
      kept := FilterPicks(s[..n], keep);
      PicksSnoc(s[..n], s[n], keep, kept, Filter(s[..n], keep));
      assert s == s[..n] + [s[n]];
      if keep(s[n]) {
        kept := kept + [n];
      }
    }
  }

  lemma ConcatAssociative<T>(a: seq<T>, b: seq<T>, c: seq<T>)
    ensures (a + b) + c == a + (b + c)
  {
  }

  /** Every element is related to every later one. */
  ghost predicate Pairwise<T>(s: seq<T>, rel: (T, T) -> bool) {
    forall i, j :: 0 <= i < j < |s| ==> rel(s[i], s[j])
  }

  lemma {:induction false} FilterPairwise<T>(s: seq<T>, keep: T -> bool, rel: (T, T) -> bool)
    requires Pairwise(s, rel)
    ensures Pairwise(Filter(s, keep), rel)
  {
    if s != [] {
      var n := |s| - 1;
      FilterPairwise(s[..n], keep, rel);
      forall i | 0 <= i < |Filter(s[..n], keep)|
        ensures rel(Filter(s[..n], keep)[i], s[n])
      {
        var x := Filter(s[..n], keep)[i];
        assert x in s[..n];
        var k :| 0 <= k < n && s[k] == x;
      }
    }
  }

  /** No two positions hold the same value. */
  predicate NoDup<T(==)>(s: seq<T>) {
    forall i, j :: 0 <= i < j < |s| ==> s[i] != s[j]
  }

  function Elements<T>(s: seq<T>): (r: set<T>)
    ensures forall x :: x in r ==> x in s
    ensures forall x :: x in s ==> x in r
  {
    set x | x in s
  }

  lemma ElementsSnoc<T>(s: seq<T>)
    requires s != []
    ensures Elements(s) == Elements(s[..|s| - 1]) + {s[|s| - 1]}
  {
    assert s == s[..|s| - 1] + [s[|s| - 1]];
  }

  lemma {:induction false} NoDupSize<T>(s: seq<T>)
    requires NoDup(s)
    ensures |Elements(s)| == |s|
  {
    if s != [] {
      NoDupSize(s[..|s| - 1]);
      ElementsSnoc(s);
    }
  }

  lemma SubsetSize<T>(a: set<T>, b: set<T>)
    requires a <= b
    ensures |a| <= |b|
  {
    assert b == a + (b - a);
  }

  /** A non-empty set has an element of least rank. */
  lemma {:induction false} LeastExists<T>(s: set<T>, rank: T -> int) returns (least: T)
    requires s != {}
    ensures least in s && forall x :: x in s ==> rank(least) <= rank(x)
    decreases |s|
  {
    least :| least in s;
    var rest := s - {least};
    if rest != {} {
      var other := LeastExists(rest, rank);
      if rank(other) < rank(least) {
        least := other;
      }
    }
    assert forall x :: x in s ==> x in rest || x == least || rank(least) <= rank(x);
  }
}
