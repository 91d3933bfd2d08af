/** The decision rules of the `/recommend` handler: the shared-key gate, the
    mandatory-field check and the defaults, then the call into the recommender.
    A field of the request body is `None` when `data.get` finds it absent or
    JSON `null`. For the five mandatory fields both read as missing. For
    `director` and `star` only absence yields the `""` default: an explicit
    `null` is passed on as `None`, and no valid combined text is built from it;
    `Payload` does not tell the two apart, so that request is not modelled. */
module Api {
  import opened Options
  import opened Catalog
  import opened Ranking
  import Recommender

  /** The request body's fields as the handler reads them. */
  datatype Payload = Payload(year: Option<int>, runtime: Option<real>, genre: Option<string>,
                             rating: Option<real>, director: Option<string>, star: Option<string>,
                             votes: Option<int>)

  const FORBIDDEN := 403
  const BAD_REQUEST := 400
  const OK := 200
  /** Flask's answer to an exception raised while the handler runs. */
  const SERVER_ERROR := 500

  /** `api_key != valid_key and valid_key != None`. */
  predicate KeyRejected(supplied: Option<string>, configured: Option<string>) {
    supplied != configured && configured != None
  }

  /** `any(value is None for value in (year, runtime, genre, rating, votes))`. */
  predicate MissingMandatory(p: Payload) {
    p.year.None? || p.runtime.None? || p.genre.None? || p.rating.None? || p.votes.None?
  }

  /** What the handler decides before any recommendation is computed. */
  datatype Admission = Forbidden | BadRequest | Admitted(query: Query)

  /** The gate of the handler: the key is checked first, then the mandatory
      fields; an admitted query takes `director` and `star` as given or `""`. */
  function Admit(supplied: Option<string>, configured: Option<string>, p: Payload): (a: Admission)
    ensures a.Forbidden? <==> configured.Some? && supplied != configured
    ensures a.BadRequest? <==>
              && (configured.None? || supplied == configured)
              && (p.year.None? || p.runtime.None? || p.genre.None? || p.rating.None? || p.votes.None?)
    ensures a.Admitted? ==>
              && p.year.Some? && p.runtime.Some? && p.genre.Some? && p.rating.Some? && p.votes.Some?
              && a.query.genre == p.genre.value && a.query.year == p.year.value
              && a.query.runtime == p.runtime.value && a.query.rating == p.rating.value
              && a.query.votes == p.votes.value
              && a.query.director == (if p.director.Some? then p.director.value else "")
              && a.query.star == (if p.star.Some? then p.star.value else "")
  {
    if KeyRejected(supplied, configured) then Forbidden
    else if MissingMandatory(p) then BadRequest
    else Admitted(Query(p.genre.value, p.director.GetOr(""), p.star.GetOr(""),
                        p.year.value, p.runtime.value, p.rating.value, p.votes.value))
  }

  /** The HTTP status the gate decides on, before the recommender runs. */
  function Status(a: Admission): int {
    match a
    case Forbidden => FORBIDDEN
    case BadRequest => BAD_REQUEST
    case Admitted(_) => OK
  }

  /** With no key configured, no request is refused for its key. */
  lemma NoConfiguredKeyAdmitsAnyKey(supplied: Option<string>, p: Payload)
    ensures Admit(supplied, None, p) == Admit(None, None, p)
    ensures !Admit(supplied, None, p).Forbidden?
  {
  }

  /** With a key configured, exactly the requests carrying that key pass the gate. */
  lemma ConfiguredKeyMustMatch(supplied: Option<string>, key: string, p: Payload)
    ensures Admit(supplied, Some(key), p).Forbidden? <==> supplied != Some(key)
  {
  }

  /** The combined text of an admitted query: absent `director` or `star`
      contribute empty strings, so the separators remain. */
  lemma AdmittedQueryText(supplied: Option<string>, configured: Option<string>, p: Payload)
    requires Admit(supplied, configured, p).Admitted?
    ensures QueryText(Admit(supplied, configured, p).query)
            == p.genre.value + " " + p.director.GetOr("") + " " + p.star.GetOr("")
  {
  }

  /** The `/recommend` handler: gate, then recommend. An exception raised by
      the recommender is answered with status 500 and no records. */
  method Predict(supplied: Option<string>, configured: Option<string>, p: Payload,
                 catalog: seq<Row>, sim: (string, nat) -> real)
    returns (status: int, recs: seq<Recommender.Record>)
    ensures status == FORBIDDEN <==> configured.Some? && supplied != configured
    ensures status == BAD_REQUEST <==> !KeyRejected(supplied, configured) && MissingMandatory(p)
    ensures status == SERVER_ERROR <==>
              && Admit(supplied, configured, p).Admitted?
              && Recommender.Fails(catalog, Admit(supplied, configured, p).query)
    ensures status == OK <==>
              && Admit(supplied, configured, p).Admitted?
              && !Recommender.Fails(catalog, Admit(supplied, configured, p).query)
    ensures status != OK ==> recs == []
    ensures status == OK ==>
              && |recs| <= Recommender.TARGET
              && forall i :: 0 <= i < |recs| ==> GenreMatch(recs[i].row, Admit(supplied, configured, p).query)
    ensures status == OK ==>
              var strict := StrictFilter(catalog, Admit(supplied, configured, p).query);
              |strict| >= Recommender.TARGET ==>
                && |recs| == Recommender.TARGET
                && Recommender.AllScored(recs)
                && TopRanked(Recommender.Ranked(recs),
                             Recommender.PositionallyScored(strict, Admit(supplied, configured, p).query, sim),
                             Recommender.TARGET)
    ensures status == OK ==>
              var q := Admit(supplied, configured, p).query;
              var strict := StrictFilter(catalog, q);
              var backfill := Recommender.BackfillRows(catalog, q, |strict|);
              |strict| < Recommender.TARGET ==>
                && |recs| == |strict| + Min(Recommender.TARGET - |strict|, |backfill|)
                && recs[..|strict|] == Recommender.PlainRecords(strict)
                && Recommender.AllScored(recs[|strict|..])
                && TopRanked(Recommender.Ranked(recs[|strict|..]),
                             Recommender.PositionallyScored(backfill, q, sim), Recommender.TARGET - |strict|)
  {
    var a := Admit(supplied, configured, p);
    status := Status(a);
    recs := [];
    if a.Admitted? {
      var outcome := Recommender.GetRecommendations(catalog, a.query, sim);
      if outcome.Recommended? {
        recs := outcome.recs;
      } else {
        status := SERVER_ERROR;
      }
    }
  }
}
