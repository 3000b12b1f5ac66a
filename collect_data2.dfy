/**
 * d2draftnet/collect_data2.py: the API tier configuration and the `collect`
 * command, which takes the ids that `request_match_ids(limit)` scrapes,
 * requests the details of every id not already stored (within the daily
 * call budget), keeps the matches that pass the rank filter and have a valid
 * draft, stops at `limit` records, and merges them into the stored table
 * with keep-first deduplication on `match_id`.
 *
 * The details request for an id is the function `fetch` (None for a response
 * that is not 200 or is empty). The hero map is supplied already fetched.
 */
module CollectData2 {
  import opened Common
  import opened Dedup
  import opened Draft
  import opened CollectMatchIds

  /** `call_limit`: a number of calls per day, or `float('inf')`. */
  datatype CallLimit = Limited(calls: nat) | Unlimited

  datatype ApiConfig = ApiConfig(callLimit: CallLimit, rateLimit: nat)

  const FreeCallLimit := 2000
  const FreeRateLimit := 60
  const KeyedRateLimit := 1200

  /** `get_api_config(key)`: the free tier without a key, the premium tier with one. */
  function GetApiConfig(key: Option<string>): (c: ApiConfig)
    ensures key.None? <==> c.callLimit.Limited?
    ensures key.None? ==> c.callLimit.calls == FreeCallLimit && c.rateLimit == FreeRateLimit
    ensures key.Some? ==> c.rateLimit == KeyedRateLimit
  {
    if key.None? then ApiConfig(Limited(FreeCallLimit), FreeRateLimit)
    else ApiConfig(Unlimited, KeyedRateLimit)
  }

  /** `not (api_calls >= call_limit)`: another details request may be made. */
  predicate BudgetLeft(limit: CallLimit, apiCalls: nat) {
    match limit
    case Unlimited => true
    case Limited(n) => apiCalls < n
  }

  /** With a key the call budget never runs out; without one it runs out at 2000 calls. */
  lemma ConfigBudget(key: Option<string>, apiCalls: nat)
    ensures key.Some? ==> BudgetLeft(GetApiConfig(key).callLimit, apiCalls)
    ensures key.None? ==> (BudgetLeft(GetApiConfig(key).callLimit, apiCalls) <==> apiCalls < FreeCallLimit)
  {
  }

  /** `--match-type`, already lower-cased by the option parser. */
  datatype MatchType = Pro | Pub

  /** One row of the stored table. The date is kept as epoch seconds. */
  datatype Record<K> = Record(
    date: Option<int>,
    matchId: K,
    matchType: MatchType,
    winner: Winner,
    radiantDraft: seq<string>,
    direDraft: seq<string>)

  function RecordId<K>(r: Record<K>): K {
    r.matchId
  }

  /** What one run of `collect` reads besides the ids: stored ids, the details endpoint, the hero map, the filters. */
  datatype Run<!K> = Run(
    existingIds: set<K>,
    fetch: K -> Option<MatchDetails>,
    heroMap: map<int, string>,
    matchType: MatchType,
    pubRank: Option<int>)

  /**
   * The rank filter: for public matches with `--pub-rank` set, the details'
   * `rank_tier` must EQUAL it (a missing `rank_tier` never does); otherwise
   * every match passes.
   */
  predicate RankAccepted(matchType: MatchType, pubRank: Option<int>, d: MatchDetails) {
    !(matchType == Pub && pubRank.Some?) || d.rankTier == pubRank
  }

  /** `pd.to_datetime(start_time, unit="s") if start_time else None` (0 is falsy). */
  function MatchDate(startTime: Option<int>): Option<int> {
    if startTime.Some? && startTime.value != 0 then startTime else None
  }

  /** The record the loop body appends for `id`, or None when one of its `continue`s skips it. */
  function Candidate<K(==)>(run: Run<K>, id: K): Option<Record<K>> {
    if id in run.existingIds then None
    else
      match run.fetch(id)
      case None => None
      case Some(d) =>
        if d.picksBans.None? || !RankAccepted(run.matchType, run.pubRank, d) then None
        else
          match ExtractDraft(d, run.heroMap)
          case None => None
          case Some(dr) => Some(Record(MatchDate(d.startTime), id, run.matchType, dr.winner, dr.radiant, dr.dire))
  }

  /** The records accepted from the ids examined, in order. */
  function Collected<K(==)>(run: Run<K>, ids: seq<K>): seq<Record<K>>
    decreases |ids|
  {
    if |ids| == 0 then []
    else
      var prev := Collected(run, ids[..|ids| - 1]);
      match Candidate(run, ids[|ids| - 1])
      case None => prev
      case Some(r) => prev + [r]
  }

  /** The number of details requests made for the ids examined: one per id not already stored. */
  function DetailsRequests<K(==)>(existingIds: set<K>, ids: seq<K>): nat
    decreases |ids|
  {
    if |ids| == 0 then 0
    else DetailsRequests(existingIds, ids[..|ids| - 1]) + (if ids[|ids| - 1] in existingIds then 0 else 1)
  }

  /**
   * The `for match_id in match_ids` loop of `collect`. `consumed` is how many
   * ids it examined before leaving the loop. The records are those accepted
   * among them; a details request was made for each examined id not already
   * stored, never more than the call limit; the loop only leaves early when
   * the budget is spent or `limit` records were found, and when it stops
   * with `limit` records the last id it examined is the one that completed
   * them (without it there is one record fewer). With `limit <= 0` the
   * first accepted record still ends the loop, so one record is kept.
   */
  method CollectLoop<K(==)>(run: Run<K>, matchIds: seq<K>, callLimit: CallLimit, limit: int)
    returns (records: seq<Record<K>>, apiCalls: nat, ghost consumed: nat)
    ensures consumed <= |matchIds|
    ensures records == Collected(run, matchIds[..consumed])
    ensures apiCalls == DetailsRequests(run.existingIds, matchIds[..consumed])
    ensures callLimit.Limited? ==> apiCalls <= callLimit.calls
    ensures |records| <= if limit > 0 then limit else 1
    ensures consumed < |matchIds| ==> !BudgetLeft(callLimit, apiCalls) || (records != [] && |records| >= limit)
    ensures records != [] && |records| >= limit ==>
              0 < consumed && |Collected(run, matchIds[..consumed - 1])| == |records| - 1
  {
    records := [];
    apiCalls := 0;
    var i := 0;
    while i < |matchIds|
      invariant 0 <= i <= |matchIds|
      invariant records == Collected(run, matchIds[..i])
      invariant apiCalls == DetailsRequests(run.existingIds, matchIds[..i])
      invariant callLimit.Limited? ==> apiCalls <= callLimit.calls
      invariant records == [] || |records| < limit
    {
      if !BudgetLeft(callLimit, apiCalls) {
        break;
      }
      var matchId := matchIds[i];
      CollectedStep(run, matchIds, i);
      i := i + 1;
      var record, requested := ProcessMatch(run, matchId);
      if requested {
        apiCalls := apiCalls + 1;
      }
      if record.None? {
        continue;
      }
      records := records + [record.value];
      if |records| >= limit {
        break;
      }
    }
    consumed := i;
  }

  /**
   * The body of the `for match_id in match_ids` loop for one id, after the
   * budget check: skip a stored id; otherwise request its details (counted
   * as one API call whatever the answer) and skip it when there is no
   * `picks_bans`, when the rank filter rejects it or when the draft is
   * invalid; otherwise build its record.
   */
  method ProcessMatch<K(==)>(run: Run<K>, matchId: K) returns (record: Option<Record<K>>, requested: bool)
    ensures record == Candidate(run, matchId)
    ensures record.Some? ==> record.value.matchId == matchId
    ensures requested <==> matchId !in run.existingIds
  {
    record, requested := None, false;
    if matchId in run.existingIds {
      return;
    }
    var matchData := run.fetch(matchId);
    requested := true;
    if matchData.None? || matchData.value.picksBans.None? {
      return;
    }
    if run.matchType == Pub && run.pubRank.Some? {
      if matchData.value.rankTier != run.pubRank {
        return;
      }
    }
    var draft := ExtractDraft(matchData.value, run.heroMap);
    if draft.None? {
      return;
    }
    record := Some(Record(MatchDate(matchData.value.startTime), matchId, run.matchType,
                          draft.value.winner, draft.value.radiant, draft.value.dire));
  }

  /**
   * The `collect` command: existing table in, the records found and the
   * table written (None when nothing was found, as the source only saves
   * when `records` is non-empty). `matchIds` is the distinct list of
   * scraped ids and `consumed` how many of them the loop examined: the
   * records are exactly those accepted among them, and the loop left early
   * only when the call budget ran out or `limit` records were found. Each
   * record passes every skip rule of the loop and carries its match's
   * draft, winner, type and date.
   */
  method Collect(
    existing: seq<Record<string>>, listing: int -> ListingPage, fetch: string -> Option<MatchDetails>,
    heroMap: map<int, string>, key: Option<string>, limit: int, matchType: MatchType, pubRank: Option<int>)
    returns (records: seq<Record<string>>, saved: Option<seq<Record<string>>>,
             matchIds: seq<string>, ghost consumed: nat)
    ensures forall i, j :: 0 <= i < j < |matchIds| ==> matchIds[i] != matchIds[j]
    ensures forall x :: x in matchIds <==> x in AllIds(listing, PagesToScrape(limit))
    ensures consumed <= |matchIds|
    ensures records == Collected(Run(Keys(existing, RecordId), fetch, heroMap, matchType, pubRank), matchIds[..consumed])
    ensures var calls := DetailsRequests(Keys(existing, RecordId), matchIds[..consumed]);
            && (GetApiConfig(key).callLimit.Limited? ==> calls <= GetApiConfig(key).callLimit.calls)
            && (consumed < |matchIds| ==>
                  !BudgetLeft(GetApiConfig(key).callLimit, calls) || (records != [] && |records| >= limit))
    ensures |records| <= if limit > 0 then limit else 1
    ensures Unique(records, RecordId)
    ensures forall k :: 0 <= k < |records| ==>
              records[k].matchId !in Keys(existing, RecordId) &&
              records[k].matchId in AllIds(listing, PagesToScrape(limit))
    ensures forall k :: 0 <= k < |records| ==>
              && fetch(records[k].matchId).Some?
              && fetch(records[k].matchId).value.picksBans.Some?
              && RankAccepted(matchType, pubRank, fetch(records[k].matchId).value)
              && ExtractDraft(fetch(records[k].matchId).value, heroMap) ==
                   Some(Draft(records[k].radiantDraft, records[k].direDraft, records[k].winner))
              && records[k].date == MatchDate(fetch(records[k].matchId).value.startTime)
              && records[k].matchType == matchType
    ensures saved == MergeIfAny(existing, records, RecordId)
    ensures saved.None? <==> records == []
    ensures saved.Some? ==> Unique(saved.value, RecordId) && |saved.value| <= |existing| + |records|
  {
    var existingIds := Keys(existing, RecordId);
    var config := GetApiConfig(key);
    matchIds := RequestMatchIds(limit, listing);
    var run := Run(existingIds, fetch, heroMap, matchType, pubRank);
    var apiCalls;
    records, apiCalls, consumed := CollectLoop(run, matchIds, config.callLimit, limit);
    ghost var examined := matchIds[..consumed];
    assert forall i, j :: 0 <= i < j < |examined| ==> examined[i] != examined[j];
    CollectedUnique(run, examined);
    CollectedSound(run, examined);
    saved := MergeIfAny(existing, records, RecordId);
    MergeIfAnyWrites(existing, records, RecordId);
  }

  // ---------------------------------------------------------------------------

  /** One more id examined by the loop. */
  lemma CollectedStep<K>(run: Run<K>, ids: seq<K>, i: int)
    requires 0 <= i < |ids|
    ensures Collected(run, ids[..i + 1]) ==
              match Candidate(run, ids[i])
              case None => Collected(run, ids[..i])
              case Some(r) => Collected(run, ids[..i]) + [r]
    ensures DetailsRequests(run.existingIds, ids[..i + 1]) ==
              DetailsRequests(run.existingIds, ids[..i]) + (if ids[i] in run.existingIds then 0 else 1)
    ensures ids[..i + 1][..i] == ids[..i]
  {
    assert ids[..i + 1][..i] == ids[..i];
  }

  /**
   * Every collected record comes from an examined id that is not stored,
   * whose details were returned with `picks_bans`, that passes the rank
   * filter (for "pub": `rank_tier` equal to `pub_rank`), and whose draft is
   * valid; the record carries that draft and winner.
   */
  lemma {:induction false} CollectedSound<K>(run: Run<K>, ids: seq<K>)
    ensures forall k :: 0 <= k < |Collected(run, ids)| ==>
              var r := Collected(run, ids)[k];
              && r.matchId in ids
              && r.matchId !in run.existingIds
              && run.fetch(r.matchId).Some?
              && run.fetch(r.matchId).value.picksBans.Some?
              && RankAccepted(run.matchType, run.pubRank, run.fetch(r.matchId).value)
              && ExtractDraft(run.fetch(r.matchId).value, run.heroMap) == Some(Draft(r.radiantDraft, r.direDraft, r.winner))
              && |r.radiantDraft| == PicksPerTeam && |r.direDraft| == PicksPerTeam
              && r.matchType == run.matchType
              && r.date == MatchDate(run.fetch(r.matchId).value.startTime)
    decreases |ids|
  {
    if |ids| > 0 {
      var init := ids[..|ids| - 1];
      CollectedSound(run, init);
      assert forall x :: x in init ==> x in ids;
    }
  }

  /** An id yields a record exactly when it was examined and the loop body accepts it. */
  lemma {:induction false} CollectedKeys<K>(run: Run<K>, ids: seq<K>, x: K)
    ensures x in Keys(Collected(run, ids), RecordId) <==> x in ids && Candidate(run, x).Some?
    decreases |ids|
  {
    if |ids| > 0 {
      var init := ids[..|ids| - 1];
      CollectedKeys(run, init, x);
      assert ids == init + [ids[|ids| - 1]];
      var c := Candidate(run, ids[|ids| - 1]);
      if c.Some? {
        assert c.value.matchId == ids[|ids| - 1];
        KeysAppend(Collected(run, init), [c.value], RecordId);
        assert Keys([c.value], RecordId) == {c.value.matchId} by {
          assert [c.value][..0] == [];
        }
      }
    }
  }

  /** Distinct input ids give records with distinct ids. */
  lemma {:induction false} CollectedUnique<K>(run: Run<K>, ids: seq<K>)
    requires forall i, j :: 0 <= i < j < |ids| ==> ids[i] != ids[j]
    ensures Unique(Collected(run, ids), RecordId)
    decreases |ids|
  {
    if |ids| > 0 {
      var init := ids[..|ids| - 1];
      var last := ids[|ids| - 1];
      CollectedUnique(run, init);
      var c := Candidate(run, last);
      if c.Some? {
        CollectedKeys(run, init, last);
        UniqueSnoc(Collected(run, init), c.value, RecordId);
      }
    }
  }

  /**
   * Accepted ids are never added to the set of known ids: the loop body
   * alone would record an id listed twice as two records. In `collect` the
   * ids come from `request_match_ids`, which returns distinct ids, so this
   * never happens there.
   */
  lemma CollectedKeepsRepeatedIds<K>(run: Run<K>, x: K)
    requires Candidate(run, x).Some?
    ensures Collected(run, [x, x]) == [Candidate(run, x).value, Candidate(run, x).value]
  {
    var r := Candidate(run, x).value;
    assert [x][..0] == [];
    assert Collected(run, [x]) == [r];
    assert [x, x][..1] == [x];
    assert Collected(run, [x, x]) == Collected(run, [x]) + [r];
  }

  /** Requests are counted only for ids not already stored, so they never exceed the ids examined. */
  lemma {:induction false} DetailsRequestsBound<K>(existingIds: set<K>, ids: seq<K>)
    ensures DetailsRequests(existingIds, ids) <= |ids|
    ensures (forall i :: 0 <= i < |ids| ==> ids[i] in existingIds) ==> DetailsRequests(existingIds, ids) == 0
    decreases |ids|
  {
    if |ids| > 0 {
      DetailsRequestsBound(existingIds, ids[..|ids| - 1]);
    }
  }
}
