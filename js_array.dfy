/**
 * Models of the two JavaScript array operations the doctor lookup chains
 * together: `Array.prototype.filter` and `Array.prototype.map`, both on
 * immutable sequences.
 */
module JsArray {

  /** `s.filter(p)`: the elements of `s` that satisfy `p`, in their original order. */
  function Filter<T>(p: T -> bool, s: seq<T>): (r: seq<T>)
    ensures |r| <= |s|
    ensures forall i :: 0 <= i < |r| ==> r[i] in s && p(r[i])
    ensures forall i :: 0 <= i < |s| && p(s[i]) ==> s[i] in r
    decreases |s|
  {
    if |s| == 0 then []
    else
      assert s == [s[0]] + s[1..];
      if p(s[0]) then [s[0]] + Filter(p, s[1..]) else Filter(p, s[1..])
  }

  /** `s.map(f)`: `f` applied to every element, position by position. */
  function Map<T, U>(f: T -> U, s: seq<T>): (r: seq<U>)
    ensures |r| == |s|
    ensures forall i :: 0 <= i < |s| ==> r[i] == f(s[i])
    decreases |s|
  {
    if |s| == 0 then [] else [f(s[0])] + Map(f, s[1..])
  }

  /** Membership in a filtered sequence, stated without indices. */
  lemma FilterMembership<T>(p: T -> bool, s: seq<T>)
    ensures forall x :: x in Filter(p, s) <==> x in s && p(x)
  {
  }

  /** The conjunction of two predicates, as one filter callback. */
  function Both<T>(p: T -> bool, q: T -> bool): T -> bool
  {
    x => p(x) && q(x)
  }

  /** `idx` picks out `r` from `s` at strictly increasing positions. */
  ghost predicate Embedding<T>(idx: seq<nat>, r: seq<T>, s: seq<T>)
  {
    && |idx| == |r|
    && (forall i :: 0 <= i < |idx| ==> idx[i] < |s| && r[i] == s[idx[i]])
    && (forall i, j :: 0 <= i < j < |idx| ==> idx[i] < idx[j])
  }

  /** `r` is an order-preserving subsequence of `s`. */
  ghost predicate IsSubsequence<T>(r: seq<T>, s: seq<T>)
  {
    exists idx :: Embedding(idx, r, s)
  }

  ghost predicate NoDuplicates<T>(s: seq<T>)
  {
    forall i, j :: 0 <= i < j < |s| ==> s[i] != s[j]
  }

  /** Filtering twice is filtering once on the conjunction. */
  lemma {:induction false} FilterFilter<T>(p: T -> bool, q: T -> bool, s: seq<T>)
    ensures Filter(q, Filter(p, s)) == Filter(Both(p, q), s)
    decreases |s|
  {
    if |s| > 0 {
      FilterFilter(p, q, s[1..]);
      var rest := Filter(p, s[1..]);
      if p(s[0]) {
        assert Filter(p, s) == [s[0]] + rest;
        assert ([s[0]] + rest)[0] == s[0];
        assert ([s[0]] + rest)[1..] == rest;
      }
    }
  }

  /** Two callbacks that agree everywhere keep the same elements. */
  lemma {:induction false} FilterCongruent<T>(p: T -> bool, q: T -> bool, s: seq<T>)
    requires forall x :: p(x) == q(x)
    ensures Filter(p, s) == Filter(q, s)
    decreases |s|
  {
    if |s| > 0 {
      FilterCongruent(p, q, s[1..]);
    }
  }

  /** Filter keeps every element that satisfies `p` exactly as often as `s` holds it, and no other. */
  lemma {:induction false} FilterCount<T>(p: T -> bool, s: seq<T>)
    ensures forall x :: multiset(Filter(p, s))[x] == if p(x) then multiset(s)[x] else 0
    decreases |s|
  {
    if |s| > 0 {
      FilterCount(p, s[1..]);
      assert s == [s[0]] + s[1..];
      assert multiset(s) == multiset{s[0]} + multiset(s[1..]);
    }
  }

  /** Every position moved one to the right. */
  function Shift(idx: seq<nat>): (r: seq<nat>)
    ensures |r| == |idx| && forall i :: 0 <= i < |idx| ==> r[i] == idx[i] + 1
  {
    seq(|idx|, i requires 0 <= i < |idx| => idx[i] + 1)
  }

  lemma EmbeddingShift<T>(idx: seq<nat>, r: seq<T>, s: seq<T>)
    requires |s| > 0 && Embedding(idx, r, s[1..])
    ensures Embedding(Shift(idx), r, s)
    ensures forall i :: 0 <= i < |idx| ==> Shift(idx)[i] > 0
  {
    var sh := Shift(idx);
    forall i | 0 <= i < |sh| ensures sh[i] < |s| && r[i] == s[sh[i]] {
      assert s[1..][idx[i]] == s[idx[i] + 1];
    }
  }

  lemma EmbeddingCons<T>(idx: seq<nat>, r: seq<T>, s: seq<T>)
    requires |s| > 0 && Embedding(idx, r, s)
    requires forall i :: 0 <= i < |idx| ==> idx[i] > 0
    ensures Embedding([0] + idx, [s[0]] + r, s)
  {
    var idx', r' := [0] + idx, [s[0]] + r;
    forall i | 0 < i < |idx'| ensures idx'[i] < |s| && r'[i] == s[idx'[i]] {
      assert idx'[i] == idx[i - 1] && r'[i] == r[i - 1];
    }
    forall i, j | 0 <= i < j < |idx'| ensures idx'[i] < idx'[j] {
      assert idx'[j] == idx[j - 1];
      if i > 0 { assert idx'[i] == idx[i - 1]; }
    }
  }

  /** Filter returns its survivors at strictly increasing positions of `s`. */
  lemma {:induction false} FilterEmbedding<T>(p: T -> bool, s: seq<T>) returns (idx: seq<nat>)
    ensures Embedding(idx, Filter(p, s), s)
    decreases |s|
  {
    if |s| == 0 {
      idx := [];
    } else {
      var rest := FilterEmbedding(p, s[1..]);
      EmbeddingShift(rest, Filter(p, s[1..]), s);
      if p(s[0]) {
        EmbeddingCons(Shift(rest), Filter(p, s[1..]), s);
        idx := [0] + Shift(rest);
      } else {
        idx := Shift(rest);
      }
    }
  }

  lemma FilterIsSubsequence<T>(p: T -> bool, s: seq<T>)
    ensures IsSubsequence(Filter(p, s), s)
  {
    var idx := FilterEmbedding(p, s);
  }

  /** Filtering a sequence without duplicates cannot introduce any. */
  lemma {:induction false} FilterNoDuplicates<T>(p: T -> bool, s: seq<T>)
    requires NoDuplicates(s)
    ensures NoDuplicates(Filter(p, s))
    decreases |s|
  {
    if |s| > 0 {
      var tail := s[1..];
      assert NoDuplicates(tail) by {
        forall i, j | 0 <= i < j < |tail| ensures tail[i] != tail[j] {
          assert tail[i] == s[i + 1] && tail[j] == s[j + 1];
        }
      }
      FilterNoDuplicates(p, tail);
      assert s[0] !in tail by {
        forall k | 0 <= k < |tail| ensures tail[k] != s[0] {
          assert tail[k] == s[k + 1];
        }
      }
      var rest := Filter(p, tail);
      assert s[0] !in rest;
      if p(s[0]) {
        var r := [s[0]] + rest;
        forall i, j | 0 <= i < j < |r| ensures r[i] != r[j] {
          assert r[j] == rest[j - 1];
          if i > 0 {
            assert r[i] == rest[i - 1];
          } else {
            assert rest[j - 1] in rest;
          }
        }
      }
    }
  }
}
