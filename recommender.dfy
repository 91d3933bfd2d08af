/** `get_recommendations` as the source writes it: a strict selection ranked by
    similarity when it holds at least eight rows, otherwise the strict rows as
    they are followed by a ranked genre-only backfill. Similarity is a parameter
    `sim(text, j)`: the score of a query text against row `j` of the similarity
    matrix, which has one row per catalog row, in catalog order. */
module Recommender {
  import opened Options
  import opened Seqs
  import opened Catalog
  import opened Ranking

  /** The number of recommendations asked for. */
  const TARGET: nat := 8

  /** One returned record: a row, with a score when its frame was scored. */
  datatype Record = Record(row: Row, score: Option<real>)

  /** How a call ends: with its records, or with the `ValueError` that
      `cosine_similarity` raises when the candidate matrix has no rows. */
  datatype Outcome = Recommended(recs: seq<Record>) | SimilarityFailed

  /** The backfill frame: the genre matches of the catalog from position `k` on. */
  function BackfillRows(catalog: seq<Row>, q: Query, k: nat): seq<Row> {
    GenreFilter(catalog[Min(k, |catalog|)..], q)
  }

  /** The inputs on which the call fails: fewer than eight strict matches and an
      empty backfill frame, which is then scored all the same. */
  predicate Fails(catalog: seq<Row>, q: Query) {
    var k := |StrictFilter(catalog, q)|;
    k < TARGET && BackfillRows(catalog, q, k) == []
  }

  /** `get_similarity_score(user_input, tfidf_matrix[frame.index])` for a frame
      renumbered `0..n-1`: the query against matrix rows `0..n-1`, in order. */
  function PositionalScores(q: Query, n: nat, sim: (string, nat) -> real): (r: seq<real>)
    ensures |r| == n
  {
    seq(n, i requires 0 <= i < n => sim(QueryText(q), i))
  }

  /** A renumbered frame with its scores attached. The score a candidate gets
      depends on its position in the frame, not on its catalog row. */
  function PositionallyScored(rows: seq<Row>, q: Query, sim: (string, nat) -> real): (r: seq<Scored<Row>>)
    ensures |r| == |rows|
    ensures forall i :: 0 <= i < |rows| ==> r[i].item == rows[i] && r[i].score == sim(QueryText(q), i)
  {
    Attach(rows, PositionalScores(q, |rows|, sim))
  }

  /** `to_dict(orient='records')` of a scored frame. */
  function ScoredRecords(s: seq<Scored<Row>>): (r: seq<Record>)
    ensures |r| == |s|
  {
    seq(|s|, i requires 0 <= i < |s| => Record(s[i].item, Some(s[i].score)))
  }

  /** `to_dict(orient='records')` of a frame that was never scored. */
  function PlainRecords(rows: seq<Row>): (r: seq<Record>)
    ensures |r| == |rows|
  {
    seq(|rows|, i requires 0 <= i < |rows| => Record(rows[i], None))
  }

  predicate AllScored(recs: seq<Record>) {
    forall i :: 0 <= i < |recs| ==> recs[i].score.Some?
  }

  /** The records of a scored frame, read back as scored candidates. */
  function Ranked(recs: seq<Record>): (r: seq<Scored<Row>>)
    requires AllScored(recs)
    ensures |r| == |recs|
  {
    seq(|recs|, i requires 0 <= i < |recs| => Scored(recs[i].row, recs[i].score.value))
  }

  lemma RankedScoredRecords(s: seq<Scored<Row>>)
    ensures AllScored(ScoredRecords(s)) && Ranked(ScoredRecords(s)) == s
  {
  }

  /** The candidates of a top selection all come from rows meeting `mask`. */
  lemma TopRowsMatch(top: seq<Scored<Row>>, pool: seq<Scored<Row>>, rows: seq<Row>, mask: Row -> bool)
    requires multiset(top) <= multiset(pool)
    requires |pool| == |rows| && forall i :: 0 <= i < |pool| ==> pool[i].item == rows[i]
    requires forall i :: 0 <= i < |rows| ==> mask(rows[i])
    ensures forall i :: 0 <= i < |top| ==> mask(top[i].item)
  {
    DrawnFromPool(top, pool);
    forall i | 0 <= i < |top|
      ensures mask(top[i].item)
    {
      var j :| 0 <= j < |pool| && pool[j] == top[i];
    }
  }

  /** The shape of the underflow result: unscored strict rows, then scored
      backfill rows, all of them genre matches. */
  lemma AppendedRecords(filtered: seq<Row>, top: seq<Scored<Row>>, q: Query)
    requires forall i :: 0 <= i < |filtered| ==> StrictMatch(filtered[i], q)
    requires forall i :: 0 <= i < |top| ==> GenreMatch(top[i].item, q)
    ensures var recs := PlainRecords(filtered) + ScoredRecords(top);
            && recs[..|filtered|] == PlainRecords(filtered)
            && recs[|filtered|..] == ScoredRecords(top)
            && AllScored(recs[|filtered|..])
            && Ranked(recs[|filtered|..]) == top
            && forall i :: 0 <= i < |recs| ==> GenreMatch(recs[i].row, q)
  {
    var recs := PlainRecords(filtered) + ScoredRecords(top);
    assert recs[|filtered|..] == ScoredRecords(top);
    RankedScoredRecords(top);
    forall i | 0 <= i < |recs|
      ensures GenreMatch(recs[i].row, q)
    {
      if i < |filtered| {
        assert recs[i].row == filtered[i];
      } else {
        assert recs[i].row == top[i - |filtered|].item;
      }
    }
  }

  /** The records of a top selection of the positionally scored strict rows. */
  lemma StrictRecords(filtered: seq<Row>, q: Query, sim: (string, nat) -> real, top: seq<Scored<Row>>)
    requires forall i :: 0 <= i < |filtered| ==> StrictMatch(filtered[i], q)
    requires multiset(top) <= multiset(PositionallyScored(filtered, q, sim))
    ensures AllScored(ScoredRecords(top)) && Ranked(ScoredRecords(top)) == top
    ensures forall i :: 0 <= i < |top| ==> StrictMatch(ScoredRecords(top)[i].row, q)
  {
    RankedScoredRecords(top);
    TopRowsMatch(top, PositionallyScored(filtered, q, sim), filtered, StrictMask(q));
  }

  /** The records of the underflow result built from a top selection of the
      positionally scored backfill frame. */
  lemma BackfillRecords(filtered: seq<Row>, backfill: seq<Row>, q: Query, sim: (string, nat) -> real,
                        top: seq<Scored<Row>>)
    requires forall i :: 0 <= i < |filtered| ==> StrictMatch(filtered[i], q)
    requires forall i :: 0 <= i < |backfill| ==> GenreMatch(backfill[i], q)
    requires multiset(top) <= multiset(PositionallyScored(backfill, q, sim))
    ensures var recs := PlainRecords(filtered) + ScoredRecords(top);
            && recs[..|filtered|] == PlainRecords(filtered)
            && AllScored(recs[|filtered|..])
            && Ranked(recs[|filtered|..]) == top
            && forall i :: 0 <= i < |recs| ==> GenreMatch(recs[i].row, q)
  {
    TopRowsMatch(top, PositionallyScored(backfill, q, sim), backfill, GenreMask(q));
    AppendedRecords(filtered, top, q);
  }

  /** The `len(filtered_data) >= 8` branch of `get_recommendations`: score the
      strict frame by position, sort it descending and keep the first eight. */
  method RankStrict(filtered: seq<Row>, q: Query, sim: (string, nat) -> real)
    returns (recs: seq<Record>)
    requires |filtered| >= TARGET
    requires forall i :: 0 <= i < |filtered| ==> StrictMatch(filtered[i], q)
    ensures |recs| == TARGET
    ensures forall i :: 0 <= i < |recs| ==> StrictMatch(recs[i].row, q)
    ensures AllScored(recs)
    ensures TopRanked(Ranked(recs), PositionallyScored(filtered, q, sim), TARGET)
  {
    var scores := PositionalScores(q, |filtered|, sim);
    var scored := Attach(filtered, scores);
    var sorted := SortByScore(scored);
    var top := Take(sorted, TARGET);
    recs := ScoredRecords(top);

    HeadOfSortedIsTop(sorted, scored, TARGET);
    StrictRecords(filtered, q, sim, top);
  }

  /** The underflow branch of `get_recommendations`, for `k = |filtered| < 8`
      strict rows: drop the genre matches at catalog positions below `k`, score
      the rest by position, sort them descending and append the best `8 - k` to
      the unscored strict rows. Scoring an empty backfill frame fails. */
  method Backfill(catalog: seq<Row>, q: Query, filtered: seq<Row>, sim: (string, nat) -> real)
    returns (outcome: Outcome)
    requires |filtered| < TARGET
    requires forall i :: 0 <= i < |filtered| ==> StrictMatch(filtered[i], q)
    ensures var backfill := BackfillRows(catalog, q, |filtered|);
            outcome.SimilarityFailed? <==> backfill == []
    ensures var backfill := BackfillRows(catalog, q, |filtered|);
            outcome.Recommended? ==>
              var recs := outcome.recs;
              && |recs| == |filtered| + Min(TARGET - |filtered|, |backfill|)
              && recs[..|filtered|] == PlainRecords(filtered)
              && AllScored(recs[|filtered|..])
              && TopRanked(Ranked(recs[|filtered|..]), PositionallyScored(backfill, q, sim), TARGET - |filtered|)
              && forall i :: 0 <= i < |recs| ==> GenreMatch(recs[i].row, q)
  {
    var genreMatches := Filter(Enumerate(catalog, 0), OnRow(GenreMask(q)));
    var additional := RowsOf(Filter(genreMatches, OutsideIndex(|filtered|)));
    BackfillIsGenreSuffix(catalog, q, |filtered|);
    if additional == [] {
      // `cosine_similarity` demands at least one candidate row.
      outcome := SimilarityFailed;
      return;
    }
    var additionalScores := PositionalScores(q, |additional|, sim);
    var additionalScored := Attach(additional, additionalScores);
    var additionalSorted := SortByScore(additionalScored);
    var remaining := TARGET - |filtered|;
    if remaining > 0 {
      var top := Take(additionalSorted, remaining);
      var recs := PlainRecords(filtered) + ScoredRecords(top);
      outcome := Recommended(recs);

      HeadOfSortedIsTop(additionalSorted, additionalScored, remaining);
      BackfillRecords(filtered, additional, q, sim, top);
    } else {
      // `remaining_count <= 0` cannot happen: fewer than eight rows passed the
      // strict filter.
      assert false;
    }
  }

  /** The whole of `get_recommendations`. With `k` strict matches:
      - `k >= 8`: the eight best-scored strict rows, scores attached by position;
      - `k < 8`: the strict rows in catalog order without scores, then the best
        `8 - k` of the genre matches at catalog positions `k` and later, scores
        attached by position in that backfill frame;
      - and a failure exactly when `k < 8` and that backfill frame is empty. */
  method GetRecommendations(catalog: seq<Row>, q: Query, sim: (string, nat) -> real)
    returns (outcome: Outcome)
    ensures outcome.SimilarityFailed? <==> Fails(catalog, q)
    ensures outcome.Recommended? ==>
              && |outcome.recs| <= TARGET
              && forall i :: 0 <= i < |outcome.recs| ==> GenreMatch(outcome.recs[i].row, q)
    ensures var strict := StrictFilter(catalog, q);
            |strict| >= TARGET ==>
              && outcome.Recommended?
              && |outcome.recs| == TARGET
              && AllScored(outcome.recs)
              && TopRanked(Ranked(outcome.recs), PositionallyScored(strict, q, sim), TARGET)
    ensures var strict := StrictFilter(catalog, q);
            var backfill := BackfillRows(catalog, q, |strict|);
            |strict| < TARGET && outcome.Recommended? ==>
              var recs := outcome.recs;
              && |recs| == |strict| + Min(TARGET - |strict|, |backfill|)
              && recs[..|strict|] == PlainRecords(strict)
              && AllScored(recs[|strict|..])
              && TopRanked(Ranked(recs[|strict|..]), PositionallyScored(backfill, q, sim), TARGET - |strict|)
  {
    var filtered := StrictFilter(catalog, q);
    if |filtered| >= TARGET {
      var recs := RankStrict(filtered, q, sim);
      outcome := Recommended(recs);
    } else {
      outcome := Backfill(catalog, q, filtered, sim);
    }
  }
}
