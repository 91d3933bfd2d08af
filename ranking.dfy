/** Ranking by similarity: `sort_values(by='similarity_score', ascending=False)`
    followed by `head(n)`. The sort is not stable, so nothing is promised about
    the order of rows with equal scores. */
module Ranking {
  import opened Options
  import opened Seqs

  /** A candidate with its `similarity_score` column attached. */
  datatype Scored<T> = Scored(item: T, score: real)

  /** `frame['similarity_score'] = scores`: the i-th score goes to the i-th candidate. */
  function Attach<T>(items: seq<T>, scores: seq<real>): (r: seq<Scored<T>>)
    requires |items| == |scores|
    ensures |r| == |items|
  {
    seq(|items|, i requires 0 <= i < |items| => Scored(items[i], scores[i]))
  }

  /** Scores never increase from left to right. */
  predicate SortedDesc<T>(s: seq<Scored<T>>) {
    forall i, j :: 0 <= i < j < |s| ==> s[i].score >= s[j].score
  }

  lemma SortedTail<T>(s: seq<Scored<T>>)
    requires SortedDesc(s) && s != []
    ensures SortedDesc(s[1..])
  {
    forall i, j | 0 <= i < j < |s| - 1
      ensures s[1..][i].score >= s[1..][j].score
    {
      assert s[1..][i] == s[i + 1] && s[1..][j] == s[j + 1];
    }
  }

  lemma SortedCons<T>(h: Scored<T>, t: seq<Scored<T>>)
    requires SortedDesc(t) && (t == [] || h.score >= t[0].score)
    ensures SortedDesc([h] + t)
  {
    var s := [h] + t;
    forall i, j | 0 <= i < j < |s|
      ensures s[i].score >= s[j].score
    {
      if i == 0 {
        assert s[j] == t[j - 1];
      } else {
        assert s[i] == t[i - 1] && s[j] == t[j - 1];
      }
    }
  }

  /** Insert `x` into a descending sequence. */
  function Insert<T>(x: Scored<T>, s: seq<Scored<T>>): (r: seq<Scored<T>>)
    requires SortedDesc(s)
    ensures SortedDesc(r)
    ensures multiset(r) == multiset(s) + multiset{x}
    ensures r[0] == x || (s != [] && r[0] == s[0])
  {
    if s == [] || x.score >= s[0].score then
      SortedCons(x, s);
      [x] + s
    else
      SortedTail(s);
      var t := Insert(x, s[1..]);
      assert s == [s[0]] + s[1..];
      SortedCons(s[0], t);
      [s[0]] + t
  }

  /** A descending sort: some reordering of `s` whose scores do not increase. */
  function SortByScore<T>(s: seq<Scored<T>>): (r: seq<Scored<T>>)
    ensures SortedDesc(r)
    ensures multiset(r) == multiset(s)
  {
    if s == [] then []
    else
      assert s == [s[0]] + s[1..];
      Insert(s[0], SortByScore(s[1..]))
  }

  /** `top` is what `head(n)` can return after a descending sort of `pool`:
      min(n, |pool|) candidates from the pool, in descending order, none of them
      scored below a candidate that was left out. Ties at the cut are unresolved. */
  ghost predicate TopRanked<T>(top: seq<Scored<T>>, pool: seq<Scored<T>>, n: nat) {
    && |top| == Min(n, |pool|)
    && SortedDesc(top)
    && multiset(top) <= multiset(pool)
    && forall x, i | x in multiset(pool) - multiset(top) && 0 <= i < |top| :: x.score <= top[i].score
  }

  /** Rows past the cut of a descending sequence score no higher than rows before it. */
  lemma CutOfSorted<T>(sorted: seq<Scored<T>>, m: nat)
    requires SortedDesc(sorted) && m <= |sorted|
    ensures forall x, i | x in multiset(sorted[m..]) && 0 <= i < m :: x.score <= sorted[i].score
  {
    forall x, i | x in multiset(sorted[m..]) && 0 <= i < m
      ensures x.score <= sorted[i].score
    {
      assert x in sorted[m..];
      var j :| m <= j < |sorted| && sorted[j] == x;
    }
  }

  lemma SortedPrefix<T>(sorted: seq<Scored<T>>, m: nat)
    requires SortedDesc(sorted) && m <= |sorted|
    ensures SortedDesc(sorted[..m])
  {
    assert forall i :: 0 <= i < m ==> sorted[..m][i] == sorted[i];
  }

  /** The first `n` of any descending reordering of the pool are its top `n`. */
  lemma HeadOfSortedIsTop<T>(sorted: seq<Scored<T>>, pool: seq<Scored<T>>, n: nat)
    requires SortedDesc(sorted) && multiset(sorted) == multiset(pool)
    ensures TopRanked(Take(sorted, n), pool, n)
  {
    var top := Take(sorted, n);
    var m := |top|;
    assert |sorted| == |multiset(sorted)| == |multiset(pool)| == |pool|;
    assert sorted == top + sorted[m..];
    assert multiset(pool) - multiset(top) == multiset(sorted[m..]);
    SortedPrefix(sorted, m);
    CutOfSorted(sorted, m);
  }

  /** Every candidate of a sub-multiset of the pool is a candidate of the pool. */
  lemma DrawnFromPool<T>(top: seq<Scored<T>>, pool: seq<Scored<T>>)
    requires multiset(top) <= multiset(pool)
    ensures forall i :: 0 <= i < |top| ==> top[i] in pool
  {
    forall i | 0 <= i < |top|
      ensures top[i] in pool
    {
      assert top[i] in multiset(top);
    }
  }

  /** The mask "scores at least `v`". */
  function AtLeast<T>(v: real): Scored<T> -> bool {
    (x: Scored<T>) => x.score >= v
  }

  lemma CardMonotone<T>(small: multiset<T>, large: multiset<T>)
    requires small <= large
    ensures |small| <= |large|
  {
    assert large == small + (large - small);
  }

  /** A larger multiset holds some element more often than a smaller one. */
  lemma SomeExtra<T>(large: multiset<T>, small: multiset<T>) returns (x: T)
    requires |large| > |small|
    ensures large[x] > small[x]
  {
    if forall y :: large[y] <= small[y] {
      CardMonotone(large, small);
      assert false;
    }
    x :| large[x] > small[x];
  }

  /** Filtering keeps the sub-multiset relation. */
  lemma FilterSubOf<T>(a: seq<T>, b: seq<T>, p: T -> bool)
    requires multiset(a) <= multiset(b)
    ensures multiset(Filter(a, p)) <= multiset(Filter(b, p))
  {
    var fa, fb := multiset(Filter(a, p)), multiset(Filter(b, p));
    forall x: T
      ensures fa[x] <= fb[x]
    {
      FilterCount(a, p, x);
      FilterCount(b, p, x);
    }
    PointwiseSub(fa, fb);
  }

  lemma FilterMonotone<T>(a: seq<T>, b: seq<T>, p: T -> bool)
    requires multiset(a) <= multiset(b)
    ensures |Filter(a, p)| <= |Filter(b, p)|
  {
    FilterSubOf(a, b, p);
    CardMonotone(multiset(Filter(a, p)), multiset(Filter(b, p)));
  }

  /** A top selection holds at least `i + 1` candidates scoring at least its `i`-th score. */
  lemma ManyAtLeast<T>(t: seq<Scored<T>>, i: nat)
    requires SortedDesc(t) && i < |t|
    ensures |Filter(t, AtLeast(t[i].score))| >= i + 1
  {
    var p := AtLeast<T>(t[i].score);
    var high := t[..i + 1];
    assert t == high + t[i + 1..];
    FilterAppend(high, t[i + 1..], p);
    forall k | 0 <= k < |high|
      ensures p(high[k])
    {
      assert high[k] == t[k];
      if k < i {
        assert t[k].score >= t[i].score;
      }
    }
    FilterKeepsAll(high, p);
  }

  /** Only the first `i` candidates of a descending sequence can score above its `i`-th. */
  lemma FewAbove<T>(t: seq<Scored<T>>, i: nat, v: real)
    requires SortedDesc(t) && i < |t| && t[i].score < v
    ensures |Filter(t, AtLeast(v))| <= i
  {
    var p := AtLeast<T>(v);
    var low := t[i..];
    assert t == t[..i] + low;
    FilterAppend(t[..i], low, p);
    forall k | 0 <= k < |low|
      ensures !p(low[k])
    {
      assert low[k] == t[i + k];
      if k > 0 {
        assert t[i].score >= t[i + k].score;
      }
    }
    FilterDropsAll(low, p);
  }

  /** No top selection of a pool has a lower `i`-th score than another. */
  lemma ScoreNotBelow<T>(t1: seq<Scored<T>>, t2: seq<Scored<T>>, pool: seq<Scored<T>>, n: nat, i: nat)
    requires TopRanked(t1, pool, n) && TopRanked(t2, pool, n) && i < |t1|
    ensures t1[i].score <= t2[i].score
  {
    var v := t1[i].score;
    if v > t2[i].score {
      var p := AtLeast<T>(v);
      ManyAtLeast(t1, i);
      FewAbove(t2, i, v);
      FilterMonotone(t1, pool, p);
      var x := SomeExtra(multiset(Filter(pool, p)), multiset(Filter(t2, p)));
      LeftOutAbove(t2, pool, p, x);
      assert false;
    }
  }

  /** An element the pool's selection holds more often than `top`'s was left out of `top`. */
  lemma LeftOutAbove<T>(top: seq<Scored<T>>, pool: seq<Scored<T>>, p: Scored<T> -> bool, x: Scored<T>)
    requires multiset(Filter(pool, p))[x] > multiset(Filter(top, p))[x]
    ensures p(x) && x in multiset(pool) - multiset(top)
  {
    FilterCount(pool, p, x);
    FilterCount(top, p, x);
  }

  /** Without a tie-break the contract still fixes the score at every position:
      two top selections of the same pool differ at most in the order, and the
      choice at the cut, of candidates with equal scores. */
  lemma TopScoresAgree<T>(t1: seq<Scored<T>>, t2: seq<Scored<T>>, pool: seq<Scored<T>>, n: nat)
    requires TopRanked(t1, pool, n) && TopRanked(t2, pool, n)
    ensures |t1| == |t2|
    ensures forall i :: 0 <= i < |t1| ==> t1[i].score == t2[i].score
  {
    forall i | 0 <= i < |t1|
      ensures t1[i].score == t2[i].score
    {
      ScoreNotBelow(t1, t2, pool, n, i);
      ScoreNotBelow(t2, t1, pool, n, i);
    }
  }
}
