/** Where the source's bookkeeping goes wrong: scores taken from the wrong
    matrix rows, a backfill that drops the wrong rows, and a failure on an empty
    backfill frame; each set beside the corrected engine's answer. */
module Findings {
  import opened Options
  import opened Seqs
  import opened Text
  import opened Catalog
  import opened Ranking
  import Recommender
  import Corrected
  import Api

  const QUERY := Query("a", "", "", 2000, 120.0, 5.0, 0)
  /** A row of another genre. */
  const OTHER := Row("B", "", "", 2010, 100.0, 8.0, 10)
  /** A row that passes the strict filter. */
  const STRICT := Row("A", "", "", 2010, 100.0, 8.0, 10)
  /** A row of the right genre that is too old for the strict filter; its
      director gives it a text of its own. */
  const OLD := Row("A", "x", "", 1990, 100.0, 8.0, 10)

  /** A similarity that tells the matrix rows apart: row `j` scores `j`. */
  function RowNumber(text: string, j: nat): real {
    j as real
  }

  lemma Matches()
    ensures RowText(OLD) != RowText(STRICT)
    ensures !GenreMatch(OTHER, QUERY)
    ensures StrictMatch(STRICT, QUERY)
    ensures GenreMatch(OLD, QUERY) && !StrictMatch(OLD, QUERY)
  {
    assert Fold("a") == "a" && Fold("A") == "a" && Fold("B") == "b";
    assert !Contains("", "a");
    assert "b"[1..] == "" && "b"[..1] == "b" && "a" != "b";
    assert !Contains("b", "a");
    assert RowText(OLD)[2] == 'x' && RowText(STRICT)[2] == ' ';
  }

  /** For every catalog and query: the `i`-th row of the renumbered strict frame
      is the strict match at some catalog position `p >= i`. The source scores
      it against matrix row `i`, the corrected engine against row `p`. The two
      scores agree for every similarity when `p == i`, and for `RowNumber`,
      which tells the matrix rows apart, only then. */
  lemma StrictScoresPositional(catalog: seq<Row>, q: Query, sim: (string, nat) -> real, i: nat)
    requires i < |StrictFilter(catalog, q)|
    ensures var strict := Corrected.StrictEntries(catalog, q);
            && |strict| == |StrictFilter(catalog, q)|
            && StrictFilter(catalog, q)[i] == strict[i].row
            && i <= strict[i].index < |catalog| && catalog[strict[i].index] == strict[i].row
    ensures var strict := Corrected.StrictEntries(catalog, q);
            strict[i].index == i ==>
              Recommender.PositionallyScored(StrictFilter(catalog, q), q, sim)[i].score
              == Corrected.OwnScored(strict, q, sim)[i].score
    ensures var strict := Corrected.StrictEntries(catalog, q);
            Recommender.PositionallyScored(StrictFilter(catalog, q), q, RowNumber)[i].score
            == Corrected.OwnScored(strict, q, RowNumber)[i].score
            <==> strict[i].index == i
  {
    var e := Enumerate(catalog, 0);
    var mask := OnRow(StrictMask(q));
    var strict := Filter(e, mask);
    RowsOfSelectedEntries(catalog, 0, StrictMask(q));
    assert StrictFilter(catalog, q)[i] == RowsOf(strict)[i];
    EnumerateAscending(catalog, 0);
    FilterAscending(e, mask);
    AscendingFrom(strict, 0, i);
    FilterMembership(e, mask, strict[i]);
    EnumerateIndices(catalog, 0, strict[i]);
  }

  /** The source's backfill frame with catalog positions kept: the genre matches
      at positions `k` and later, `k` being the number of strict matches. */
  function BackfillEntries(catalog: seq<Row>, q: Query): seq<Entry> {
    Filter(Corrected.GenreEntries(catalog, q), OutsideIndex(|StrictFilter(catalog, q)|))
  }

  /** For every catalog and query: the `i`-th row of the renumbered backfill
      frame is the genre match at some catalog position `p >= k + i`. The source
      scores it against matrix row `i`, not its own row `p`; with `RowNumber`
      the two agree only when `p == i`, which never happens once there is a
      strict match. */
  lemma BackfillScoresPositional(catalog: seq<Row>, q: Query, sim: (string, nat) -> real, i: nat)
    requires i < |Recommender.BackfillRows(catalog, q, |StrictFilter(catalog, q)|)|
    ensures var k := |StrictFilter(catalog, q)|;
            var frame := BackfillEntries(catalog, q);
            && RowsOf(frame) == Recommender.BackfillRows(catalog, q, k)
            && k + i <= frame[i].index < |catalog| && catalog[frame[i].index] == frame[i].row
    ensures var k := |StrictFilter(catalog, q)|;
            var frame := BackfillEntries(catalog, q);
            frame[i].index == i ==>
              Recommender.PositionallyScored(Recommender.BackfillRows(catalog, q, k), q, sim)[i].score
              == sim(QueryText(q), frame[i].index)
    ensures var k := |StrictFilter(catalog, q)|;
            var frame := BackfillEntries(catalog, q);
            && (Recommender.PositionallyScored(Recommender.BackfillRows(catalog, q, k), q, RowNumber)[i].score
                == RowNumber(QueryText(q), frame[i].index)
                <==> frame[i].index == i)
            && (k > 0 ==> frame[i].index != i)
  {
    var k := |StrictFilter(catalog, q)|;
    var e := Enumerate(catalog, 0);
    var g := OnRow(GenreMask(q));
    var genre := Filter(e, g);
    var frame := Filter(genre, OutsideIndex(k));
    BackfillIsGenreSuffix(catalog, q, k);
    EnumerateAscending(catalog, 0);
    FilterAscending(e, g);
    FilterAscending(genre, OutsideIndex(k));
    AscendingFrom(frame, k, i);
    FilterMembership(genre, OutsideIndex(k), frame[i]);
    FilterMembership(e, g, frame[i]);
    EnumerateIndices(catalog, 0, frame[i]);
  }

  /** Eight copies of `STRICT`. */
  const EIGHT: seq<Row> := seq(8, i => STRICT)

  lemma EightStrict()
    ensures StrictFilter([OTHER] + EIGHT, QUERY) == EIGHT
    ensures |Corrected.StrictEntries([OTHER] + EIGHT, QUERY)| == 8
  {
    Matches();
    var c := [OTHER] + EIGHT;
    FilterAppend([OTHER], EIGHT, StrictMask(QUERY));
    assert [OTHER][1..] == [];
    FilterKeepsAll(EIGHT, StrictMask(QUERY));
    RowsOfSelectedEntries(c, 0, StrictMask(QUERY));
  }

  /** A top-8 of the positionally scored `EIGHT` holds the whole pool, so it
      holds the record scored against matrix row 0. */
  lemma ShiftedTop(recs: seq<Recommender.Record>)
    requires Recommender.AllScored(recs)
    requires TopRanked(Recommender.Ranked(recs), Recommender.PositionallyScored(EIGHT, QUERY, RowNumber), 8)
    ensures exists j :: 0 <= j < |recs| && recs[j] == Recommender.Record(STRICT, Some(0.0))
  {
    var pool := Recommender.PositionallyScored(EIGHT, QUERY, RowNumber);
    var top := Recommender.Ranked(recs);
    assert multiset(top) == multiset(pool) by {
      var rest := multiset(pool) - multiset(top);
      assert multiset(pool) == multiset(top) + rest;
    }
    assert pool[0] == Scored(STRICT, 0.0);
    assert pool[0] in multiset(top);
    var j :| 0 <= j < |top| && top[j] == pool[0];
    assert recs[j] == Recommender.Record(STRICT, Some(0.0));
  }

  /** Catalog `[OTHER]` followed by eight strict rows: the strict branch runs,
      and one of the eight records carries the score of matrix row 0, the row
      of `OTHER`, which is not even a genre match. */
  method StrictScoresShifted() returns (recs: seq<Recommender.Record>)
    ensures |recs| == 8
    ensures exists j :: 0 <= j < |recs| && recs[j] == Recommender.Record(STRICT, Some(0.0))
  {
    EightStrict();
    var outcome := Recommender.GetRecommendations([OTHER] + EIGHT, QUERY, RowNumber);
    recs := outcome.recs;
    ShiftedTop(recs);
  }

  /** For the same catalog the corrected engine scores every pick against its
      own row, so no pick carries row 0's score. */
  method CorrectedStrictScores() returns (picks: seq<Corrected.Pick>)
    ensures |picks| == 8
    ensures forall i :: 0 <= i < |picks| ==> picks[i].score.Some? && picks[i].score.value >= 1.0
  {
    EightStrict();
    Matches();
    var c := [OTHER] + EIGHT;
    picks := Corrected.GetRecommendations(c, QUERY, RowNumber);
    forall i | 0 <= i < |picks|
      ensures picks[i].score.Some? && picks[i].score.value >= 1.0
    {
      assert Corrected.Genuine(c, QUERY, RowNumber, picks[i]);
      assert picks[i].entry.index != 0 by {
        assert c[0] == OTHER;
      }
    }
  }

  /** Catalog `[OLD, STRICT]`: one strict row, so the source drops the genre
      matches at catalog position 0 from the backfill. That removes `OLD`, which
      is not a strict row, and keeps `STRICT`, which is. The corrected backfill
      is `[OLD]`. */
  lemma BackfillDropsWrongRow()
    ensures StrictFilter([OLD, STRICT], QUERY) == [STRICT]
    ensures RowsOf(Filter(Filter(Enumerate([OLD, STRICT], 0), OnRow(GenreMask(QUERY))), OutsideIndex(1)))
            == [STRICT]
    ensures Corrected.GenreOnlyEntries([OLD, STRICT], QUERY) == [Entry(0, OLD)]
  {
    Matches();
    var c := [OLD, STRICT];
    assert Filter(c[1..], StrictMask(QUERY)) == [STRICT];
    BackfillIsGenreSuffix(c, QUERY, 1);
    assert c[1..] == [STRICT];
    assert Filter(c[1..][1..], GenreMask(QUERY)) == [];
    var e := Enumerate(c, 0);
    assert e == [Entry(0, OLD), Entry(1, STRICT)];
    var m := AndNot(OnRow(GenreMask(QUERY)), OnRow(StrictMask(QUERY)));
    assert Filter(e[1..], m) == [];
  }

  /** The source's whole answer for catalog `[OLD, STRICT]`: `STRICT` twice, once
      unscored and once with the score of matrix row 0, the row of `OLD`; `OLD`
      itself never. */
  method RepeatedRecommendation() returns (recs: seq<Recommender.Record>)
    ensures recs == [Recommender.Record(STRICT, None), Recommender.Record(STRICT, Some(0.0))]
  {
    BackfillDropsWrongRow();
    var outcome := Recommender.GetRecommendations([OLD, STRICT], QUERY, RowNumber);
    var c := [OLD, STRICT];
    assert c[Min(1, 2)..] == [STRICT];
    assert GenreFilter([STRICT], QUERY) == [STRICT] by {
      Matches();
      assert [STRICT][1..] == [];
    }
    recs := outcome.recs;
    var pool := Recommender.PositionallyScored([STRICT], QUERY, RowNumber);
    assert pool == [Scored(STRICT, 0.0)];
    var top := Recommender.Ranked(recs[1..]);
    assert |top| == 1;
    assert top[0] in multiset(pool);
    assert recs[1] == Recommender.Record(STRICT, Some(0.0));
  }

  /** The corrected engine's view of catalog `[OLD, STRICT]`. */
  lemma CorrectedViewOfExample()
    ensures Corrected.StrictEntries([OLD, STRICT], QUERY) == [Entry(1, STRICT)]
    ensures |GenreFilter([OLD, STRICT], QUERY)| == 2
    ensures Corrected.OwnScored(Corrected.GenreOnlyEntries([OLD, STRICT], QUERY), QUERY, RowNumber)
            == [Scored(Entry(0, OLD), 0.0)]
  {
    BackfillDropsWrongRow();
    var c := [OLD, STRICT];
    var e := Enumerate(c, 0);
    assert e == [Entry(0, OLD), Entry(1, STRICT)];
    Matches();
    assert Filter(e[1..], OnRow(StrictMask(QUERY))) == [Entry(1, STRICT)];
    assert Filter(c[1..], GenreMask(QUERY)) == [STRICT];
  }

  /** For the same catalog the corrected engine answers `STRICT` then `OLD`. */
  method CorrectedRecommendation() returns (picks: seq<Corrected.Pick>)
    ensures |picks| == 2
    ensures picks[0] == Corrected.Pick(Entry(1, STRICT), None)
    ensures picks[1] == Corrected.Pick(Entry(0, OLD), Some(0.0))
  {
    CorrectedViewOfExample();
    picks := Corrected.GetRecommendations([OLD, STRICT], QUERY, RowNumber);
    var pool := Corrected.OwnScored(Corrected.GenreOnlyEntries([OLD, STRICT], QUERY), QUERY, RowNumber);
    var top := Corrected.Ranked(picks[1..]);
    assert |top| == 1;
    assert top[0] in multiset(pool);
  }

  /** Catalog `[OTHER]`: nothing matches the genre, so the backfill frame is
      empty and scoring it fails. */
  method NoGenreMatchFails() returns (outcome: Recommender.Outcome)
    ensures outcome == Recommender.SimilarityFailed
  {
    Matches();
    assert StrictFilter([OTHER], QUERY) == [] && GenreFilter([OTHER], QUERY) == [] by {
      assert [OTHER][1..] == [];
    }
    outcome := Recommender.GetRecommendations([OTHER], QUERY, RowNumber);
  }

  /** Catalog `[STRICT]`: the one genre match is also the one strict match, at
      position 0; it is dropped from the backfill, which is then empty. */
  method EarlyGenreMatchFails() returns (outcome: Recommender.Outcome)
    ensures outcome == Recommender.SimilarityFailed
  {
    Matches();
    assert StrictFilter([STRICT], QUERY) == [STRICT] by {
      assert [STRICT][1..] == [];
    }
    assert [STRICT][Min(1, 1)..] == [];
    outcome := Recommender.GetRecommendations([STRICT], QUERY, RowNumber);
  }

  /** The request for `QUERY` against catalog `[OTHER]` is answered with 500. */
  method ServerErrorWithoutMatch() returns (status: int, recs: seq<Recommender.Record>)
    ensures status == Api.SERVER_ERROR && recs == []
  {
    var body := Api.Payload(Some(2000), Some(120.0), Some("a"), Some(5.0), None, None, Some(0));
    assert Api.Admit(None, None, body) == Api.Admitted(QUERY);
    Matches();
    assert StrictFilter([OTHER], QUERY) == [] && GenreFilter([OTHER], QUERY) == [] by {
      assert [OTHER][1..] == [];
    }
    status, recs := Api.Predict(None, None, body, [OTHER], RowNumber);
  }

  /** The corrected engine answers nothing for `[OTHER]`. */
  method CorrectedWithoutMatch() returns (picks: seq<Corrected.Pick>)
    ensures picks == []
  {
    Matches();
    assert GenreFilter([OTHER], QUERY) == [] by {
      assert [OTHER][1..] == [];
    }
    assert Corrected.StrictEntries([OTHER], QUERY) == [] by {
      assert Enumerate([OTHER], 0) == [Entry(0, OTHER)];
      assert [Entry(0, OTHER)][1..] == [];
    }
    picks := Corrected.GetRecommendations([OTHER], QUERY, RowNumber);
  }

  lemma OneStrictPick(picks: seq<Corrected.Pick>)
    requires |picks| == 1 && picks[..1] == Corrected.PlainPicks([Entry(0, STRICT)])
    ensures picks == [Corrected.Pick(Entry(0, STRICT), None)]
  {
    assert picks == picks[..1];
  }

  /** The corrected engine answers the unscored strict row for `[STRICT]`. */
  method CorrectedEarlyMatch() returns (picks: seq<Corrected.Pick>)
    ensures picks == [Corrected.Pick(Entry(0, STRICT), None)]
  {
    Matches();
    assert GenreFilter([STRICT], QUERY) == [STRICT] by {
      assert [STRICT][1..] == [];
    }
    assert Corrected.StrictEntries([STRICT], QUERY) == [Entry(0, STRICT)] by {
      assert Enumerate([STRICT], 0) == [Entry(0, STRICT)];
      assert [Entry(0, STRICT)][1..] == [];
    }
    picks := Corrected.GetRecommendations([STRICT], QUERY, RowNumber);
    OneStrictPick(picks);
  }
}
