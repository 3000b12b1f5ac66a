/**
 * `main` of d2draftnet/collect_data0.py: take the first `limit` entries of
 * the `/proMatches` list, request the details of every one whose id is not
 * stored, keep those with a valid draft, and merge them into the stored
 * table with keep-first deduplication on `match_id`.
 *
 * The `/proMatches` response is None when its status is not 200; a list
 * entry is its `match_id`. The details request for an id is the function
 * `fetch`. The hero map is supplied already fetched.
 */
module CollectData0 {
  import opened Common
  import opened Dedup
  import opened Draft

  /** One row of the stored table. */
  datatype ProRecord<K> = ProRecord(matchId: K, radiantDraft: seq<string>, direDraft: seq<string>, winner: Winner)

  function ProRecordId<K>(r: ProRecord<K>): K {
    r.matchId
  }

  /** What one run reads besides the match list: the stored ids, the details endpoint and the hero map. */
  datatype ProRun<!K> = ProRun(existingIds: set<K>, fetch: K -> Option<MatchDetails>, heroMap: map<int, string>)

  /** Python's `xs[:limit]`: a prefix; a negative `limit` counts from the end. */
  function SliceTo<T>(s: seq<T>, limit: int): (r: seq<T>)
    ensures r <= s
    ensures 0 <= limit ==> |r| == if limit <= |s| then limit else |s|
    ensures limit < 0 ==> |r| == if 0 <= |s| + limit then |s| + limit else 0
  {
    if 0 <= limit then (if limit <= |s| then s[..limit] else s)
    else if 0 <= |s| + limit then s[..|s| + limit]
    else []
  }

  /** The record the loop body appends for `match_id`, or None when a `continue` skips it. */
  function ProCandidate<K(==)>(run: ProRun<K>, id: K): Option<ProRecord<K>> {
    if id in run.existingIds then None
    else
      match run.fetch(id)
      case None => None
      case Some(d) =>
        if d.picksBans.None? then None
        else
          match ExtractDraft(d, run.heroMap)
          case None => None
          case Some(dr) => Some(ProRecord(id, dr.radiant, dr.dire, dr.winner))
  }

  /** The records accepted from a list of match ids, in order. */
  function ProRecords<K(==)>(run: ProRun<K>, ids: seq<K>): seq<ProRecord<K>>
    decreases |ids|
  {
    if |ids| == 0 then []
    else
      var prev := ProRecords(run, ids[..|ids| - 1]);
      match ProCandidate(run, ids[|ids| - 1])
      case None => prev
      case Some(r) => prev + [r]
  }

  /**
   * `main(limit)`, named CollectPro here: a failed `/proMatches` request ends the run with no
   * records and no write; otherwise the records are those accepted among
   * the first `limit` matches, so there are at most `limit` of them, and
   * the table is written (merged) only when there is at least one.
   */
  method CollectPro<K(==)>(
    existing: seq<ProRecord<K>>, proMatches: Option<seq<K>>, fetch: K -> Option<MatchDetails>,
    heroMap: map<int, string>, limit: int)
    returns (records: seq<ProRecord<K>>, saved: Option<seq<ProRecord<K>>>)
    ensures proMatches.None? ==> records == [] && saved.None?
    ensures proMatches.Some? ==>
              records == ProRecords(ProRun(Keys(existing, ProRecordId), fetch, heroMap), SliceTo(proMatches.value, limit))
    ensures 0 <= limit ==> |records| <= limit
    ensures saved == MergeIfAny(existing, records, ProRecordId)
    ensures saved.Some? ==> Unique(saved.value, ProRecordId) && |saved.value| <= |existing| + |records|
  {
    var existingMatchIds := Keys(existing, ProRecordId);
    if proMatches.None? {
      records := [];
      saved := None;
      return;
    }
    var run := ProRun(existingMatchIds, fetch, heroMap);
    var matches := SliceTo(proMatches.value, limit);
    records := [];
    var i := 0;
    while i < |matches|
      invariant 0 <= i <= |matches|
      invariant records == ProRecords(run, matches[..i])
    {
      var matchId := matches[i];
      assert matches[..i + 1][..i] == matches[..i];
      i := i + 1;
      if matchId in existingMatchIds {
        continue;
      }
      var matchData := fetch(matchId);
      if matchData.None? || matchData.value.picksBans.None? {
        continue;
      }
      var draft := ExtractDraft(matchData.value, heroMap);
      if draft.None? {
        continue;
      }
      records := records + [ProRecord(matchId, draft.value.radiant, draft.value.dire, draft.value.winner)];
    }
    assert matches[..i] == matches;
    ProRecordsBound(run, matches);
    saved := MergeIfAny(existing, records, ProRecordId);
    MergeIfAnyWrites(existing, records, ProRecordId);
  }

  // ---------------------------------------------------------------------------

  /** No more records than matches examined. */
  lemma {:induction false} ProRecordsBound<K>(run: ProRun<K>, ids: seq<K>)
    ensures |ProRecords(run, ids)| <= |ids|
    decreases |ids|
  {
    if |ids| > 0 {
      ProRecordsBound(run, ids[..|ids| - 1]);
    }
  }

  /**
   * A stored id, missing details, details without `picks_bans` or an invalid
   * draft never produce a record: every record comes from an examined id
   * that passes all four checks, and carries its draft.
   */
  lemma {:induction false} ProRecordsSound<K>(run: ProRun<K>, ids: seq<K>)
    ensures forall k :: 0 <= k < |ProRecords(run, ids)| ==>
              var r := ProRecords(run, ids)[k];
              && r.matchId in ids
              && r.matchId !in run.existingIds
              && run.fetch(r.matchId).Some?
              && run.fetch(r.matchId).value.picksBans.Some?
              && ExtractDraft(run.fetch(r.matchId).value, run.heroMap) == Some(Draft(r.radiantDraft, r.direDraft, r.winner))
              && |r.radiantDraft| == PicksPerTeam && |r.direDraft| == PicksPerTeam
    decreases |ids|
  {
    if |ids| > 0 {
      var init := ids[..|ids| - 1];
      ProRecordsSound(run, init);
      assert forall x :: x in init ==> x in ids;
    }
  }

  /** An id yields a record exactly when it is among the examined matches and passes every check. */
  lemma {:induction false} ProRecordsKeys<K>(run: ProRun<K>, ids: seq<K>, x: K)
    ensures x in Keys(ProRecords(run, ids), ProRecordId) <==> x in ids && ProCandidate(run, x).Some?
    decreases |ids|
  {
    if |ids| > 0 {
      var init := ids[..|ids| - 1];
      ProRecordsKeys(run, init, x);
      assert ids == init + [ids[|ids| - 1]];
      var c := ProCandidate(run, ids[|ids| - 1]);
      if c.Some? {
        KeysAppend(ProRecords(run, init), [c.value], ProRecordId);
        assert Keys([c.value], ProRecordId) == {c.value.matchId} by {
          assert [c.value][..0] == [];
        }
      }
    }
  }
}
