/** `get_recommendations` with its positional slips repaired:
    - every candidate is scored against ITS OWN row of the similarity matrix
      (the source scores the i-th candidate of a renumbered frame against row i);
    - the backfill leaves out exactly the strict matches (the source leaves out
      the genre matches at catalog positions below the number of strict matches).
    Candidates keep their catalog position throughout, as `Entry` values. An
    empty backfill frame is scored as no candidates, so the routine never fails. */
module Corrected {
  import opened Options
  import opened Seqs
  import opened Catalog
  import opened Ranking
  import Recommender

  /** One returned record: a catalog entry, with a score when its frame was scored. */
  datatype Pick = Pick(entry: Entry, score: Option<real>)

  /** The strict matches with their catalog positions kept. */
  function StrictEntries(catalog: seq<Row>, q: Query): seq<Entry> {
    Filter(Enumerate(catalog, 0), OnRow(StrictMask(q)))
  }

  /** The genre matches with their catalog positions kept. */
  function GenreEntries(catalog: seq<Row>, q: Query): seq<Entry> {
    Filter(Enumerate(catalog, 0), OnRow(GenreMask(q)))
  }

  /** The genre matches that are not strict matches, in catalog order. */
  function GenreOnlyEntries(catalog: seq<Row>, q: Query): seq<Entry> {
    Filter(Enumerate(catalog, 0), AndNot(OnRow(GenreMask(q)), OnRow(StrictMask(q))))
  }

  /** `~index.isin(strict.index)` with the strict frame's own catalog index. */
  function NotAmong(strict: seq<Entry>): Entry -> bool {
    (e: Entry) => e !in strict
  }

  /** The query against each entry's own matrix row. */
  function OwnScores(entries: seq<Entry>, q: Query, sim: (string, nat) -> real): (r: seq<real>)
    ensures |r| == |entries|
  {
    seq(|entries|, i requires 0 <= i < |entries| => sim(QueryText(q), entries[i].index))
  }

  function OwnScored(entries: seq<Entry>, q: Query, sim: (string, nat) -> real): (r: seq<Scored<Entry>>)
    ensures |r| == |entries|
    ensures forall i :: 0 <= i < |entries| ==>
              r[i].item == entries[i] && r[i].score == sim(QueryText(q), entries[i].index)
  {
    Attach(entries, OwnScores(entries, q, sim))
  }

  function ScoredPicks(s: seq<Scored<Entry>>): (r: seq<Pick>)
    ensures |r| == |s|
  {
    seq(|s|, i requires 0 <= i < |s| => Pick(s[i].item, Some(s[i].score)))
  }

  function PlainPicks(entries: seq<Entry>): (r: seq<Pick>)
    ensures |r| == |entries|
  {
    seq(|entries|, i requires 0 <= i < |entries| => Pick(entries[i], None))
  }

  predicate AllScored(picks: seq<Pick>) {
    forall i :: 0 <= i < |picks| ==> picks[i].score.Some?
  }

  function Ranked(picks: seq<Pick>): (r: seq<Scored<Entry>>)
    requires AllScored(picks)
    ensures |r| == |picks|
  {
    seq(|picks|, i requires 0 <= i < |picks| => Scored(picks[i].entry, picks[i].score.value))
  }

  /** A pick names a genre-matching catalog row by its true position and, when
      scored, carries that row's own similarity. */
  predicate Genuine(catalog: seq<Row>, q: Query, sim: (string, nat) -> real, p: Pick) {
    && p.entry.index < |catalog|
    && p.entry.row == catalog[p.entry.index]
    && GenreMatch(p.entry.row, q)
    && (p.score.Some? ==> p.score.value == sim(QueryText(q), p.entry.index))
  }

  /** No catalog row is picked twice. */
  predicate NoRepeats(picks: seq<Pick>) {
    forall i, j :: 0 <= i < j < |picks| ==> picks[i].entry.index != picks[j].entry.index
  }

  /** Every entry of a selection from the enumerated catalog is a true catalog
      entry, and no entry is selected twice. */
  lemma SelectedEntries(catalog: seq<Row>, mask: Entry -> bool)
    ensures var sel := Filter(Enumerate(catalog, 0), mask);
            && Distinct(sel)
            && forall i :: 0 <= i < |sel| ==> sel[i] in Enumerate(catalog, 0) && mask(sel[i])
  {
    var e := Enumerate(catalog, 0);
    var sel := Filter(e, mask);
    EnumerateDistinct(catalog, 0);
    FilterSubMultiset(e, mask);
    SubMultisetDistinct(sel, e);
    forall i | 0 <= i < |sel|
      ensures sel[i] in e
    {
      FilterMembership(e, mask, sel[i]);
    }
  }

  /** The corrected exclusion leaves exactly the genre matches that are not
      strict matches. */
  lemma ExclusionByIdentity(catalog: seq<Row>, q: Query)
    ensures Filter(GenreEntries(catalog, q), NotAmong(StrictEntries(catalog, q))) == GenreOnlyEntries(catalog, q)
  {
    var e := Enumerate(catalog, 0);
    var g, st := OnRow(GenreMask(q)), OnRow(StrictMask(q));
    FilterFilter(e, g, NotAmong(StrictEntries(catalog, q)));
    forall i | 0 <= i < |e|
      ensures And(g, NotAmong(StrictEntries(catalog, q)))(e[i]) == AndNot(g, st)(e[i])
    {
      FilterMembership(e, st, e[i]);
    }
    FilterSame(e, And(g, NotAmong(StrictEntries(catalog, q))), AndNot(g, st));
  }

  /** The genre matches split into the strict matches and the genre-only ones. */
  lemma GenreSplits(catalog: seq<Row>, q: Query)
    ensures |GenreFilter(catalog, q)| == |StrictEntries(catalog, q)| + |GenreOnlyEntries(catalog, q)|
  {
    var e := Enumerate(catalog, 0);
    var g, st := OnRow(GenreMask(q)), OnRow(StrictMask(q));
    FilterPartition(e, g, st);
    FilterSame(e, And(g, st), st);
    RowsOfSelectedEntries(catalog, 0, GenreMask(q));
  }

  /** A top selection from the own-row scored entries: each candidate is one of
      the entries, scored against its own row, and no position occurs twice. */
  lemma TopEntries(catalog: seq<Row>, q: Query, sim: (string, nat) -> real,
                   entries: seq<Entry>, top: seq<Scored<Entry>>)
    requires Distinct(entries)
    requires forall i :: 0 <= i < |entries| ==> entries[i] in Enumerate(catalog, 0)
    requires multiset(top) <= multiset(OwnScored(entries, q, sim))
    ensures forall i :: 0 <= i < |top| ==>
              top[i].item in entries && top[i].score == sim(QueryText(q), top[i].item.index)
    ensures forall i, j :: 0 <= i < j < |top| ==> top[i].item.index != top[j].item.index
  {
    var pool := OwnScored(entries, q, sim);
    assert Distinct(pool) by {
      forall i, j | 0 <= i < j < |pool| ensures pool[i] != pool[j] {
        assert pool[i].item == entries[i] && pool[j].item == entries[j];
      }
    }
    SubMultisetDistinct(top, pool);
    DrawnFromPool(top, pool);
    EnumerateDistinct(catalog, 0);
    forall i, j | 0 <= i < j < |top|
      ensures top[i].item.index != top[j].item.index
    {
      var a, b :| 0 <= a < |pool| && 0 <= b < |pool| && pool[a] == top[i] && pool[b] == top[j];
      assert top[i].item in Enumerate(catalog, 0) && top[j].item in Enumerate(catalog, 0);
    }
  }

  lemma PicksOfTop(catalog: seq<Row>, q: Query, sim: (string, nat) -> real,
                   entries: seq<Entry>, top: seq<Scored<Entry>>, mask: Entry -> bool)
    requires forall i :: 0 <= i < |entries| ==> entries[i] in Enumerate(catalog, 0) && mask(entries[i])
    requires forall e :: mask(e) ==> GenreMatch(e.row, q)
    requires forall i :: 0 <= i < |top| ==>
               top[i].item in entries && top[i].score == sim(QueryText(q), top[i].item.index)
    requires forall i, j :: 0 <= i < j < |top| ==> top[i].item.index != top[j].item.index
    ensures var picks := ScoredPicks(top);
            && AllScored(picks) && Ranked(picks) == top && NoRepeats(picks)
            && forall i :: 0 <= i < |picks| ==> Genuine(catalog, q, sim, picks[i]) && mask(picks[i].entry)
  {
    var picks := ScoredPicks(top);
    forall i | 0 <= i < |picks|
      ensures Genuine(catalog, q, sim, picks[i]) && mask(picks[i].entry)
    {
      var j :| 0 <= j < |entries| && entries[j] == top[i].item;
      EnumerateIndices(catalog, 0, top[i].item);
    }
  }

  /** The picks made from a top selection of the own-row scored strict entries. */
  lemma StrictPicks(catalog: seq<Row>, q: Query, sim: (string, nat) -> real,
                    strict: seq<Entry>, top: seq<Scored<Entry>>)
    requires strict == StrictEntries(catalog, q)
    requires multiset(top) <= multiset(OwnScored(strict, q, sim))
    ensures var picks := ScoredPicks(top);
            && AllScored(picks) && Ranked(picks) == top && NoRepeats(picks)
            && forall i :: 0 <= i < |picks| ==>
                 Genuine(catalog, q, sim, picks[i]) && StrictMatch(picks[i].entry.row, q)
  {
    SelectedEntries(catalog, OnRow(StrictMask(q)));
    TopEntries(catalog, q, sim, strict, top);
    PicksOfTop(catalog, q, sim, strict, top, OnRow(StrictMask(q)));
  }

  /** The `len(filtered_data) >= 8` branch, corrected: strict candidates scored
      against their own rows, sorted descending, first eight kept. */
  method RankStrict(catalog: seq<Row>, q: Query, strict: seq<Entry>, sim: (string, nat) -> real)
    returns (picks: seq<Pick>)
    requires strict == StrictEntries(catalog, q)
    requires |strict| >= Recommender.TARGET
    ensures |picks| == Recommender.TARGET
    ensures AllScored(picks)
    ensures TopRanked(Ranked(picks), OwnScored(strict, q, sim), Recommender.TARGET)
    ensures forall i :: 0 <= i < |picks| ==> Genuine(catalog, q, sim, picks[i]) && StrictMatch(picks[i].entry.row, q)
    ensures NoRepeats(picks)
  {
    var scored := Attach(strict, OwnScores(strict, q, sim));
    var sorted := SortByScore(scored);
    var top := Take(sorted, Recommender.TARGET);
    picks := ScoredPicks(top);

    HeadOfSortedIsTop(sorted, scored, Recommender.TARGET);
    StrictPicks(catalog, q, sim, strict, top);
  }

  /** The underflow result: the strict picks unscored, then the backfill picks;
      no position occurs in both parts. */
  lemma AppendedPicks(catalog: seq<Row>, q: Query, sim: (string, nat) -> real,
                      strict: seq<Entry>, back: seq<Pick>)
    requires strict == StrictEntries(catalog, q)
    requires NoRepeats(back)
    requires forall i :: 0 <= i < |back| ==>
               Genuine(catalog, q, sim, back[i]) && !StrictMatch(back[i].entry.row, q)
    ensures var picks := PlainPicks(strict) + back;
            && picks[..|strict|] == PlainPicks(strict)
            && picks[|strict|..] == back
            && NoRepeats(picks)
            && forall i :: 0 <= i < |picks| ==> Genuine(catalog, q, sim, picks[i])
  {
    var picks := PlainPicks(strict) + back;
    var k := |strict|;
    SelectedEntries(catalog, OnRow(StrictMask(q)));
    forall i | 0 <= i < k
      ensures Genuine(catalog, q, sim, picks[i]) && StrictMatch(picks[i].entry.row, q)
    {
      assert picks[i].entry == strict[i];
      EnumerateIndices(catalog, 0, strict[i]);
    }
    forall i | k <= i < |picks|
      ensures Genuine(catalog, q, sim, picks[i]) && !StrictMatch(picks[i].entry.row, q)
    {
      assert picks[i] == back[i - k];
    }
    forall i, j | 0 <= i < j < |picks|
      ensures picks[i].entry.index != picks[j].entry.index
    {
      if j < k {
        assert picks[i].entry == strict[i] && picks[j].entry == strict[j];
      } else if k <= i {
        assert picks[i] == back[i - k] && picks[j] == back[j - k];
      }
    }
  }

  /** The backfill picks made from a top selection of the genre-only entries. */
  lemma BackfillPicks(catalog: seq<Row>, q: Query, sim: (string, nat) -> real, top: seq<Scored<Entry>>)
    requires multiset(top) <= multiset(OwnScored(GenreOnlyEntries(catalog, q), q, sim))
    ensures var back := ScoredPicks(top);
            && AllScored(back) && Ranked(back) == top && NoRepeats(back)
            && forall i :: 0 <= i < |back| ==>
                 Genuine(catalog, q, sim, back[i]) && !StrictMatch(back[i].entry.row, q)
  {
    var only := GenreOnlyEntries(catalog, q);
    var back := ScoredPicks(top);
    var onlyMask := AndNot(OnRow(GenreMask(q)), OnRow(StrictMask(q)));
    SelectedEntries(catalog, onlyMask);
    TopEntries(catalog, q, sim, only, top);
    PicksOfTop(catalog, q, sim, only, top, onlyMask);
    forall i | 0 <= i < |back|
      ensures !StrictMatch(back[i].entry.row, q)
    {
      assert onlyMask(back[i].entry);
    }
  }

  /** What a top selection of the genre-only entries makes of the underflow result. */
  lemma UnderflowPicks(catalog: seq<Row>, q: Query, sim: (string, nat) -> real,
                       strict: seq<Entry>, top: seq<Scored<Entry>>)
    requires strict == StrictEntries(catalog, q)
    requires |strict| < Recommender.TARGET
    requires TopRanked(top, OwnScored(GenreOnlyEntries(catalog, q), q, sim), Recommender.TARGET - |strict|)
    ensures var picks := PlainPicks(strict) + ScoredPicks(top);
            && |picks| == Min(Recommender.TARGET, |GenreFilter(catalog, q)|)
            && picks[..|strict|] == PlainPicks(strict)
            && AllScored(picks[|strict|..])
            && Ranked(picks[|strict|..]) == top
            && (forall i :: 0 <= i < |picks| ==> Genuine(catalog, q, sim, picks[i]))
            && NoRepeats(picks)
  {
    GenreSplits(catalog, q);
    BackfillPicks(catalog, q, sim, top);
    AppendedPicks(catalog, q, sim, strict, ScoredPicks(top));
  }

  /** The underflow branch, corrected: the backfill leaves out exactly the
      strict matches and scores each candidate against its own row; an empty
      backfill frame is scored as no candidates rather than failing. */
  method Backfill(catalog: seq<Row>, q: Query, strict: seq<Entry>, sim: (string, nat) -> real)
    returns (picks: seq<Pick>)
    requires strict == StrictEntries(catalog, q)
    requires |strict| < Recommender.TARGET
    ensures |picks| == Min(Recommender.TARGET, |GenreFilter(catalog, q)|)
    ensures |strict| <= |picks| && picks[..|strict|] == PlainPicks(strict)
    ensures AllScored(picks[|strict|..])
    ensures TopRanked(Ranked(picks[|strict|..]), OwnScored(GenreOnlyEntries(catalog, q), q, sim),
                      Recommender.TARGET - |strict|)
    ensures forall i :: 0 <= i < |picks| ==> Genuine(catalog, q, sim, picks[i])
    ensures NoRepeats(picks)
  {
    var additional := Filter(GenreEntries(catalog, q), NotAmong(strict));
    var scored := Attach(additional, OwnScores(additional, q, sim));
    var sorted := SortByScore(scored);
    var remaining := Recommender.TARGET - |strict|;
    var top := Take(sorted, remaining);
    picks := PlainPicks(strict) + ScoredPicks(top);

    ExclusionByIdentity(catalog, q);
    HeadOfSortedIsTop(sorted, scored, remaining);
    UnderflowPicks(catalog, q, sim, strict, top);
  }

  /** `get_recommendations` with both slips repaired. With `k` strict matches
      and `m` genre matches:
      - `k >= 8`: the eight best strict matches by their own scores;
      - `k < 8`: the strict matches in catalog order, then the best of the
        genre-only matches, `min(8, m)` picks in all;
      and in every case each pick is a genre match named by its true catalog
      position, carries its own row's score when scored, and occurs once. */
  method GetRecommendations(catalog: seq<Row>, q: Query, sim: (string, nat) -> real)
    returns (picks: seq<Pick>)
    ensures |picks| <= Recommender.TARGET
    ensures forall i :: 0 <= i < |picks| ==> Genuine(catalog, q, sim, picks[i])
    ensures NoRepeats(picks)
    ensures var strict := StrictEntries(catalog, q);
            |strict| >= Recommender.TARGET ==>
              && |picks| == Recommender.TARGET
              && AllScored(picks)
              && TopRanked(Ranked(picks), OwnScored(strict, q, sim), Recommender.TARGET)
    ensures var strict := StrictEntries(catalog, q);
            |strict| < Recommender.TARGET ==>
              && |picks| == Min(Recommender.TARGET, |GenreFilter(catalog, q)|)
              && |strict| <= |picks| && picks[..|strict|] == PlainPicks(strict)
              && AllScored(picks[|strict|..])
              && TopRanked(Ranked(picks[|strict|..]), OwnScored(GenreOnlyEntries(catalog, q), q, sim),
                           Recommender.TARGET - |strict|)
  {
    var strict := StrictEntries(catalog, q);
    if |strict| >= Recommender.TARGET {
      picks := RankStrict(catalog, q, strict, sim);
    } else {
      picks := Backfill(catalog, q, strict, sim);
    }
  }
}
