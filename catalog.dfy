/** The film catalog and the two row selections of `get_recommendations`: the
    strict five-condition filter and the genre-only filter used for backfilling. */
module Catalog {
  import opened Options
  import opened Seqs
  import opened Text

  /** One row of the loaded data set (columns the recommender does not read are left out). */
  datatype Row = Row(genre: string, director: string, star: string,
                     year: int, runtime: real, rating: real, votes: int)

  /** A request, after the defaults for `director` and `star` have been applied. */
  datatype Query = Query(genre: string, director: string, star: string,
                         year: int, runtime: real, rating: real, votes: int)

  /** The `combined_features` text: the three fields joined by single spaces.
      Its contract places each field, and each separator, at a fixed offset. */
  function Combine(genre: string, director: string, star: string): (r: string)
    ensures |r| == |genre| + |director| + |star| + 2
    ensures r[..|genre|] == genre && r[|genre|] == ' '
    ensures r[|genre| + 1..|genre| + 1 + |director|] == director
    ensures r[|genre| + 1 + |director|] == ' '
    ensures r[|genre| + |director| + 2..] == star
  {
    genre + " " + director + " " + star
  }

  /** The text of a catalog row, built once when the catalog is loaded. */
  function RowText(r: Row): string {
    Combine(r.genre, r.director, r.star)
  }

  /** The text of a query, built the same way as a row's. */
  function QueryText(q: Query): string {
    Combine(q.genre, q.director, q.star)
  }

  /** A row and a query with the same genre, director and star get the same text,
      so a query is projected exactly as the catalog row it resembles. */
  lemma SameFieldsSameText(r: Row, q: Query)
    requires r.genre == q.genre && r.director == q.director && r.star == q.star
    ensures RowText(r) == QueryText(q)
    ensures |RowText(r)| == |q.genre| + |q.director| + |q.star| + 2
  {
  }

  /** The genre condition alone. */
  predicate GenreMatch(r: Row, q: Query) {
    ContainsIgnoreCase(r.genre, q.genre)
  }

  /** All five conditions of the strict filter; every bound is inclusive. */
  predicate StrictMatch(r: Row, q: Query) {
    && GenreMatch(r, q)
    && r.year >= q.year
    && r.runtime <= q.runtime
    && r.rating >= q.rating
    && r.votes >= q.votes
  }

  function StrictMask(q: Query): Row -> bool {
    r => StrictMatch(r, q)
  }

  function GenreMask(q: Query): Row -> bool {
    r => GenreMatch(r, q)
  }

  /** `filtered_data`: the strict selection, renumbered from 0. */
  function StrictFilter(catalog: seq<Row>, q: Query): seq<Row> {
    Filter(catalog, StrictMask(q))
  }

  /** The genre-only selection. */
  function GenreFilter(catalog: seq<Row>, q: Query): seq<Row> {
    Filter(catalog, GenreMask(q))
  }

  /** The strict filter keeps exactly the rows meeting all five conditions, each
      as often as it occurs in the catalog. */
  lemma StrictFilterSelects(catalog: seq<Row>, q: Query)
    ensures forall x :: x in StrictFilter(catalog, q) <==> x in catalog && StrictMatch(x, q)
    ensures forall x :: multiset(StrictFilter(catalog, q))[x] ==
                        if StrictMatch(x, q) then multiset(catalog)[x] else 0
  {
    forall x
      ensures multiset(StrictFilter(catalog, q))[x] ==
              if StrictMatch(x, q) then multiset(catalog)[x] else 0
    {
      FilterCount(catalog, StrictMask(q), x);
    }
  }

  /** The strict filter keeps catalog order: filtering two consecutive parts of
      the catalog and concatenating gives the filter of the whole. */
  lemma StrictFilterKeepsOrder(front: seq<Row>, back: seq<Row>, q: Query)
    ensures StrictFilter(front + back, q) == StrictFilter(front, q) + StrictFilter(back, q)
  {
    FilterAppend(front, back, StrictMask(q));
  }

  /** The genre filter keeps exactly the rows whose genre matches. */
  lemma GenreFilterSelects(catalog: seq<Row>, q: Query)
    ensures forall x :: x in GenreFilter(catalog, q) <==> x in catalog && GenreMatch(x, q)
  {
    forall x
      ensures x in GenreFilter(catalog, q) <==> x in catalog && GenreMatch(x, q)
    {
      FilterMembership(catalog, GenreMask(q), x);
    }
  }

  /** Every strict match is a genre match, so the strict selection is contained
      in the genre-only selection. */
  lemma StrictWithinGenre(catalog: seq<Row>, q: Query)
    ensures multiset(StrictFilter(catalog, q)) <= multiset(GenreFilter(catalog, q))
  {
    FilterWeaker(catalog, StrictMask(q), GenreMask(q));
  }

  /** A row together with its original catalog position (the frame's index). */
  datatype Entry = Entry(index: nat, row: Row)

  /** The rows of `rows` tagged with their positions, counted from `base`. */
  function Enumerate(rows: seq<Row>, base: nat): (r: seq<Entry>)
    ensures |r| == |rows|
  {
    seq(|rows|, i requires 0 <= i < |rows| => Entry(base + i, rows[i]))
  }

  /** `reset_index(drop=True)`: forget the original positions. */
  function RowsOf(entries: seq<Entry>): (r: seq<Row>)
    ensures |r| == |entries|
  {
    seq(|entries|, i requires 0 <= i < |entries| => entries[i].row)
  }

  /** A row mask lifted to entries. */
  function OnRow(mask: Row -> bool): Entry -> bool {
    (e: Entry) => mask(e.row)
  }

  /** `~index.isin(filtered_data.index)` where `filtered_data` was renumbered
      `0..k-1`: the entry's original position is not below `k`. */
  function OutsideIndex(k: nat): Entry -> bool {
    (e: Entry) => !(e.index < k)
  }

  lemma RowsOfAppend(a: seq<Entry>, b: seq<Entry>)
    ensures RowsOf(a + b) == RowsOf(a) + RowsOf(b)
  {
    assert forall i :: 0 <= i < |a + b| ==> RowsOf(a + b)[i] == (RowsOf(a) + RowsOf(b))[i];
  }

  lemma EnumerateSplit(rows: seq<Row>, m: nat, base: nat)
    requires m <= |rows|
    ensures Enumerate(rows, base) == Enumerate(rows[..m], base) + Enumerate(rows[m..], base + m)
  {
    var e := Enumerate(rows, base);
    var f := Enumerate(rows[..m], base) + Enumerate(rows[m..], base + m);
    assert forall i :: 0 <= i < |e| ==> e[i] == f[i];
  }

  /** Selecting entries by a row mask and then forgetting positions is selecting rows. */
  lemma {:induction false} RowsOfSelectedEntries(rows: seq<Row>, base: nat, mask: Row -> bool)
    ensures RowsOf(Filter(Enumerate(rows, base), OnRow(mask))) == Filter(rows, mask)
  {
    if rows != [] {
      var e := Enumerate(rows, base);
      assert e[1..] == Enumerate(rows[1..], base + 1);
      assert e[0] == Entry(base, rows[0]);
      var head := if OnRow(mask)(e[0]) then [e[0]] else [];
      RowsOfAppend(head, Filter(e[1..], OnRow(mask)));
      RowsOfSelectedEntries(rows[1..], base + 1, mask);
    }
  }

  lemma EnumerateIndices(rows: seq<Row>, base: nat, e: Entry)
    requires e in Enumerate(rows, base)
    ensures base <= e.index < base + |rows| && rows[e.index - base] == e.row
  {
  }

  /** Positions are distinct, and a position determines its entry. */
  lemma EnumerateDistinct(rows: seq<Row>, base: nat)
    ensures Distinct(Enumerate(rows, base))
    ensures forall e1, e2 :: e1 in Enumerate(rows, base) && e2 in Enumerate(rows, base) && e1.index == e2.index
                             ==> e1 == e2
  {
  }

  /** Positions strictly increase along `s`. */
  predicate Ascending(s: seq<Entry>) {
    forall i, j :: 0 <= i < j < |s| ==> s[i].index < s[j].index
  }

  lemma EnumerateAscending(rows: seq<Row>, base: nat)
    ensures Ascending(Enumerate(rows, base))
    ensures forall i :: 0 <= i < |rows| ==> Enumerate(rows, base)[i].index >= base
  {
  }

  /** A selection keeps positions increasing. */
  lemma {:induction false} FilterAscending(s: seq<Entry>, p: Entry -> bool)
    requires Ascending(s)
    ensures Ascending(Filter(s, p))
  {
    if s != [] {
      var rest := Filter(s[1..], p);
      FilterAscending(s[1..], p);
      forall j | 0 <= j < |rest|
        ensures s[0].index < rest[j].index
      {
        FilterMembership(s[1..], p, rest[j]);
        var m :| 0 <= m < |s[1..]| && s[1..][m] == rest[j];
        assert s[m + 1] == rest[j];
      }
      var head := if p(s[0]) then [s[0]] else [];
      assert Filter(s, p) == head + rest;
    }
  }

  /** Along increasing positions that all lie at `base` or later, the `i`-th
      entry lies at `base + i` or later. */
  lemma {:induction false} AscendingFrom(s: seq<Entry>, base: nat, i: nat)
    requires Ascending(s) && i < |s|
    requires forall j :: 0 <= j < |s| ==> s[j].index >= base
    ensures s[i].index >= base + i
  {
    if i > 0 {
      AscendingFrom(s, base, i - 1);
      assert s[i - 1].index < s[i].index;
    }
  }

  /** No genre match from the first `m <= k` rows survives the exclusion. */
  lemma PrefixExcluded(front: seq<Row>, q: Query, k: nat)
    requires |front| <= k
    ensures Filter(Filter(Enumerate(front, 0), OnRow(GenreMask(q))), OutsideIndex(k)) == []
  {
    var e := Enumerate(front, 0);
    var f := Filter(e, OnRow(GenreMask(q)));
    forall i | 0 <= i < |f|
      ensures !OutsideIndex(k)(f[i])
    {
      FilterMembership(e, OnRow(GenreMask(q)), f[i]);
      EnumerateIndices(front, 0, f[i]);
    }
    FilterDropsAll(f, OutsideIndex(k));
  }

  /** Every genre match from position `k` on survives the exclusion. */
  lemma SuffixKept(back: seq<Row>, q: Query, k: nat)
    ensures Filter(Filter(Enumerate(back, k), OnRow(GenreMask(q))), OutsideIndex(k))
            == Filter(Enumerate(back, k), OnRow(GenreMask(q)))
  {
    var e := Enumerate(back, k);
    var f := Filter(e, OnRow(GenreMask(q)));
    forall i | 0 <= i < |f|
      ensures OutsideIndex(k)(f[i])
    {
      FilterMembership(e, OnRow(GenreMask(q)), f[i]);
      EnumerateIndices(back, k, f[i]);
    }
    FilterKeepsAll(f, OutsideIndex(k));
  }

  /** The backfill rows of the source: the genre matches whose ORIGINAL position
      is not among `0..k-1`, renumbered from 0. Because `k` counts the strict
      matches, this is the genre filter of the catalog with its first `k` rows
      cut off: it may contain strict rows and omits any genre match sitting
      before position `k`. */
  lemma BackfillIsGenreSuffix(catalog: seq<Row>, q: Query, k: nat)
    ensures RowsOf(Filter(Filter(Enumerate(catalog, 0), OnRow(GenreMask(q))), OutsideIndex(k)))
            == GenreFilter(catalog[Min(k, |catalog|)..], q)
  {
    var g, o := OnRow(GenreMask(q)), OutsideIndex(k);
    if k < |catalog| {
      var e1, e2 := Enumerate(catalog[..k], 0), Enumerate(catalog[k..], k);
      EnumerateSplit(catalog, k, 0);
      FilterAppend(e1, e2, g);
      FilterAppend(Filter(e1, g), Filter(e2, g), o);
      PrefixExcluded(catalog[..k], q, k);
      SuffixKept(catalog[k..], q, k);
      RowsOfSelectedEntries(catalog[k..], k, GenreMask(q));
      assert [] + Filter(e2, g) == Filter(e2, g);
    } else {
      PrefixExcluded(catalog, q, k);
      assert catalog[|catalog|..] == [];
    }
  }
}
