/** Order-preserving selection and truncation over sequences: the two things a
    boolean mask `df[mask]` and `head(n)` do to a data frame. */
module Seqs {
  import opened Options

  /** The elements of `s` that satisfy `p`, in their original order. */
  function Filter<T>(s: seq<T>, p: T -> bool): (r: seq<T>)
    ensures |r| <= |s|
    ensures forall i :: 0 <= i < |r| ==> p(r[i])
  {
    if s == [] then [] else (if p(s[0]) then [s[0]] else []) + Filter(s[1..], p)
  }

  /** `head(n)`: the first `n` elements, or all of them when there are fewer. */
  function Take<T>(s: seq<T>, n: nat): (r: seq<T>)
    ensures |r| == Min(n, |s|)
    ensures r == s[..|r|]
  {
    if n <= |s| then s[..n] else s
  }

  /** Selection distributes over concatenation: this is what "preserves the
      original order" means for a filter. */
  lemma {:induction false} FilterAppend<T>(a: seq<T>, b: seq<T>, p: T -> bool)
    ensures Filter(a + b, p) == Filter(a, p) + Filter(b, p)
  {
    if a == [] {
      assert a + b == b;
    } else {
      assert (a + b)[0] == a[0];
      assert (a + b)[1..] == a[1..] + b;
      FilterAppend(a[1..], b, p);
    }
  }

  /** Every occurrence of a selected value is kept, every other value is dropped. */
  lemma {:induction false} FilterCount<T>(s: seq<T>, p: T -> bool, x: T)
    ensures multiset(Filter(s, p))[x] == if p(x) then multiset(s)[x] else 0
  {
    if s != [] {
      assert s == [s[0]] + s[1..];
      FilterCount(s[1..], p, x);
    }
  }

  /** A value is selected exactly when it occurs in `s` and satisfies `p`. */
  lemma FilterMembership<T>(s: seq<T>, p: T -> bool, x: T)
    ensures x in Filter(s, p) <==> x in s && p(x)
  {
    FilterCount(s, p, x);
  }

  /** A weaker mask selects a super-multiset. */
  lemma FilterWeaker<T>(s: seq<T>, p: T -> bool, q: T -> bool)
    requires forall x :: p(x) ==> q(x)
    ensures multiset(Filter(s, p)) <= multiset(Filter(s, q))
  {
    var fp, fq := multiset(Filter(s, p)), multiset(Filter(s, q));
    forall x
      ensures fp[x] <= fq[x]
    {
      FilterCount(s, p, x);
      FilterCount(s, q, x);
    }
    PointwiseSub(fp, fq);
  }

  /** Sub-multisets, pointwise. */
  lemma PointwiseSub<T>(small: multiset<T>, large: multiset<T>)
    requires forall x :: small[x] <= large[x]
    ensures small <= large
  {
  }

  /** A mask that holds everywhere keeps the whole sequence. */
  lemma {:induction false} FilterKeepsAll<T>(s: seq<T>, p: T -> bool)
    requires forall i :: 0 <= i < |s| ==> p(s[i])
    ensures Filter(s, p) == s
  {
    if s != [] {
      FilterKeepsAll(s[1..], p);
    }
  }

  /** A mask that holds nowhere keeps nothing. */
  lemma {:induction false} FilterDropsAll<T>(s: seq<T>, p: T -> bool)
    requires forall i :: 0 <= i < |s| ==> !p(s[i])
    ensures Filter(s, p) == []
  {
    if s != [] {
      FilterDropsAll(s[1..], p);
    }
  }

  /** No element occurs twice. */
  predicate Distinct<T(==)>(s: seq<T>) {
    forall i, j :: 0 <= i < j < |s| ==> s[i] != s[j]
  }

  function And<T>(p: T -> bool, q: T -> bool): T -> bool {
    x => p(x) && q(x)
  }

  function AndNot<T>(p: T -> bool, q: T -> bool): T -> bool {
    x => p(x) && !q(x)
  }

  /** A filter selects a sub-multiset. */
  lemma FilterSubMultiset<T>(s: seq<T>, p: T -> bool)
    ensures multiset(Filter(s, p)) <= multiset(s)
  {
    forall x
      ensures multiset(Filter(s, p))[x] <= multiset(s)[x]
    {
      FilterCount(s, p, x);
    }
  }

  /** Filtering twice is filtering once by both masks. */
  lemma {:induction false} FilterFilter<T>(s: seq<T>, p: T -> bool, q: T -> bool)
    ensures Filter(Filter(s, p), q) == Filter(s, And(p, q))
  {
    if s != [] {
      var head := if p(s[0]) then [s[0]] else [];
      FilterAppend(head, Filter(s[1..], p), q);
      FilterFilter(s[1..], p, q);
    }
  }

  /** Masks that agree on the elements of `s` select the same elements. */
  lemma {:induction false} FilterSame<T>(s: seq<T>, p: T -> bool, q: T -> bool)
    requires forall i :: 0 <= i < |s| ==> p(s[i]) == q(s[i])
    ensures Filter(s, p) == Filter(s, q)
  {
    if s != [] {
      FilterSame(s[1..], p, q);
    }
  }

  /** The elements selected by `p` split into those meeting `q` and the rest. */
  lemma {:induction false} FilterPartition<T>(s: seq<T>, p: T -> bool, q: T -> bool)
    ensures |Filter(s, p)| == |Filter(s, And(p, q))| + |Filter(s, AndNot(p, q))|
  {
    if s != [] {
      FilterPartition(s[1..], p, q);
    }
  }

  lemma {:induction false} DistinctCount<T>(s: seq<T>, x: T)
    requires Distinct(s)
    ensures multiset(s)[x] <= 1
  {
    if s != [] {
      assert s == [s[0]] + s[1..];
      assert Distinct(s[1..]) by {
        forall i, j | 0 <= i < j < |s| - 1 ensures s[1..][i] != s[1..][j] {
          assert s[1..][i] == s[i + 1] && s[1..][j] == s[j + 1];
        }
      }
      DistinctCount(s[1..], x);
      if s[0] == x {
        assert x !in s[1..];
      }
    }
  }

  lemma RepeatCount<T>(s: seq<T>, i: nat, j: nat)
    requires i < j < |s| && s[i] == s[j]
    ensures multiset(s)[s[i]] >= 2
  {
    assert s == s[..j] + s[j..];
    assert s[i] in s[..j];
    assert s[j] == s[j..][0];
  }

  /** A sub-multiset of a sequence without repetitions has none either. */
  lemma SubMultisetDistinct<T>(t: seq<T>, s: seq<T>)
    requires Distinct(s) && multiset(t) <= multiset(s)
    ensures Distinct(t)
  {
    forall i, j | 0 <= i < j < |t|
      ensures t[i] != t[j]
    {
      if t[i] == t[j] {
        RepeatCount(t, i, j);
        DistinctCount(s, t[i]);
        assert false;
      }
    }
  }
}
