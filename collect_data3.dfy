/**
 * `DataFetcher` of d2draftnet/collect_data3.py: an object holding the stored
 * table `match_data`, which `analyze_pub_data` extends with up to
 * `N_matches` new public matches taken from successive `/publicMatches`
 * batches.
 *
 * The hero map (`/heroes`) and the stored table (the parquet file when it
 * exists) are constructor arguments. The `/publicMatches` responses are the
 * sequence `responses`: the k-th request answers `responses[k]`, None
 * standing for a non-200 status; a request past the end of the sequence is
 * answered None.
 */
module CollectData3 {
  import opened Common
  import opened Dedup

  /** One entry of a `/publicMatches` batch; `radiant_team`/`dire_team` may be missing. */
  datatype PubMatch<K> = PubMatch(
    matchId: K, radiantTeam: Option<seq<int>>, direTeam: Option<seq<int>>, duration: int, radiantWin: bool)

  /** The `match_info` dict appended for an accepted match. */
  datatype PubRecord<K> = PubRecord(
    matchId: K, radiantDraft: seq<string>, direDraft: seq<string>, duration: int, winner: Winner)

  function PubRecordId<K>(r: PubRecord<K>): K {
    r.matchId
  }

  /** `hero_id_to_name.get(hero_id, f"Unknown({hero_id})")` */
  function HeroLabel(heroMap: map<int, string>, heroId: int): string {
    if heroId in heroMap then heroMap[heroId] else "Unknown(" + IntToString(heroId) + ")"
  }

  function TeamNames(heroMap: map<int, string>, ids: seq<int>): seq<string> {
    seq(|ids|, i requires 0 <= i < |ids| => HeroLabel(heroMap, ids[i]))
  }

  /**
   * The record built for a match: the drafts have the length and order of
   * `radiant_team`/`dire_team` (empty when missing), with no count check,
   * and the winner is Radiant exactly when `radiant_win` holds.
   */
  function PubInfo<K>(heroMap: map<int, string>, m: PubMatch<K>): (r: PubRecord<K>)
    ensures r.matchId == m.matchId && r.duration == m.duration
    ensures |r.radiantDraft| == |m.radiantTeam.GetOr([])| && |r.direDraft| == |m.direTeam.GetOr([])|
    ensures forall i :: 0 <= i < |r.radiantDraft| ==> r.radiantDraft[i] == HeroLabel(heroMap, m.radiantTeam.GetOr([])[i])
    ensures forall i :: 0 <= i < |r.direDraft| ==> r.direDraft[i] == HeroLabel(heroMap, m.direTeam.GetOr([])[i])
    ensures r.winner == Radiant <==> m.radiantWin
  {
    PubRecord(
      m.matchId,
      TeamNames(heroMap, m.radiantTeam.GetOr([])),
      TeamNames(heroMap, m.direTeam.GetOr([])),
      m.duration,
      WinnerOf(m.radiantWin))
  }

  /**
   * The records gathered from the matches examined, in order: a match is
   * skipped exactly when its id is among the stored ids. Ids gathered
   * earlier in the same run are not consulted.
   */
  function Gathered<K(==)>(heroMap: map<int, string>, stored: set<K>, ms: seq<PubMatch<K>>): seq<PubRecord<K>>
    decreases |ms|
  {
    if |ms| == 0 then []
    else
      var prev := Gathered(heroMap, stored, ms[..|ms| - 1]);
      var m := ms[|ms| - 1];
      if m.matchId in stored then prev else prev + [PubInfo(heroMap, m)]
  }

  /** The matches of the successive batches, up to the first failed request. */
  function Available<K>(responses: seq<Option<seq<PubMatch<K>>>>): seq<PubMatch<K>>
    decreases |responses|
  {
    if |responses| == 0 || responses[0].None? then [] else responses[0].value + Available(responses[1..])
  }

  /** `_get_pub_data` for the request numbered `call` (from 0). */
  function GetPubData<K>(responses: seq<Option<seq<PubMatch<K>>>>, call: nat): Option<seq<PubMatch<K>>> {
    if call < |responses| then responses[call] else None
  }

  class DataFetcher<K(==)> {
    const heroIdToName: map<int, string>
    var matchData: seq<PubRecord<K>>

    /** `__post_init__`: the stored table when it exists, otherwise empty. */
    constructor(heroMap: map<int, string>, stored: Option<seq<PubRecord<K>>>)
      ensures heroIdToName == heroMap
      ensures matchData == stored.GetOr([])
    {
      heroIdToName := heroMap;
      matchData := stored.GetOr([]);
    }

    /** `_verify_no_duplicates(id)`: true exactly when no stored record has that id. */
    predicate VerifyNoDuplicates(newMatchId: K)
      reads this
      ensures VerifyNoDuplicates(newMatchId) <==> forall i :: 0 <= i < |matchData| ==> matchData[i].matchId != newMatchId
    {
      KeysIff(matchData, PubRecordId, newMatchId);
      newMatchId !in Keys(matchData, PubRecordId)
    }

    /**
     * `_df_to_dict()`: its keys are exactly the stored ids, and for an id
     * stored more than once the last record carrying it wins.
     */
    function DfToDict(): (m: map<K, PubRecord<K>>)
      reads this
      ensures m.Keys == Keys(matchData, PubRecordId)
      ensures forall i :: 0 <= i < |matchData| && IsLast(matchData, PubRecordId, i) ==>
                            matchData[i].matchId in m && m[matchData[i].matchId] == matchData[i]
    {
      ToDict(matchData, PubRecordId)
    }

    /** `_write_to_parquet(new)`: the stored table becomes the old one followed by the new records. */
    method WriteToParquet(newMatchData: seq<PubRecord<K>>)
      modifies this
      ensures matchData == old(matchData) + newMatchData
      ensures |matchData| == |old(matchData)| + |newMatchData|
      ensures old(matchData) <= matchData
    {
      matchData := matchData + newMatchData;
    }

    /**
     * The `for match in pub_data` loop over one batch: matches are examined
     * in order until `collected` reaches N; a stored id is skipped and every
     * other match appends its record. `examined` grows by the prefix of the
     * batch looked at, which is the whole batch unless N was reached.
     */
    method ScanBatch(
      nMatches: int, batch: seq<PubMatch<K>>, newMatchData: seq<PubRecord<K>>, collected: int,
      ghost examined: seq<PubMatch<K>>)
      returns (newMatchData': seq<PubRecord<K>>, collected': int, ghost examined': seq<PubMatch<K>>)
      requires 0 <= collected < nMatches && collected == |newMatchData|
      requires newMatchData == Gathered(heroIdToName, Keys(matchData, PubRecordId), examined)
      ensures |examined| <= |examined'| <= |examined| + |batch| && examined' == examined + batch[..|examined'| - |examined|]
      ensures newMatchData' == Gathered(heroIdToName, Keys(matchData, PubRecordId), examined')
      ensures collected' == |newMatchData'| <= nMatches
      ensures collected' < nMatches ==> examined' == examined + batch
      ensures collected' == nMatches ==>
                |examined| < |examined'| && StoppedAtLast(heroIdToName, Keys(matchData, PubRecordId), examined', nMatches)
    {
      ghost var stored := Keys(matchData, PubRecordId);
      newMatchData', collected', examined' := newMatchData, collected, examined;
      var j := 0;
      while j < |batch|
        invariant 0 <= j <= |batch|
        invariant examined' == examined + batch[..j]
        invariant 0 <= collected' <= nMatches && collected' == |newMatchData'|
        invariant newMatchData' == Gathered(heroIdToName, stored, examined')
        invariant nMatches <= collected' ==> 0 < j && StoppedAtLast(heroIdToName, stored, examined', collected')
      {
        var m := batch[j];
        if collected' >= nMatches {
          break;
        }
        ghost var prevExamined := examined';
        examined' := examined' + [m];
        PrefixSnoc(examined, batch, j);
        GatheredSnoc(heroIdToName, stored, prevExamined, m);
        j := j + 1;
        KeysIff(matchData, PubRecordId, m.matchId);
        if !VerifyNoDuplicates(m.matchId) {
          continue;
        }
        newMatchData' := newMatchData' + [PubInfo(heroIdToName, m)];
        collected' := collected' + 1;
      }
      if collected' < nMatches {
        assert batch[..j] == batch;
      }
    }

    /**
     * `analyze_pub_data(N_matches)`. `examined` is the matches the loop
     * looked at, a prefix of all matches available before the first failed
     * request. When a request fails before N matches are gathered the method
     * returns with the table unchanged; otherwise exactly max(N, 0) records,
     * those gathered from `examined`, are appended, and the loop stopped
     * right after the last of them. The table is written exactly when the
     * available matches hold N new ones.
     */
    method AnalyzePubData(nMatches: int, responses: seq<Option<seq<PubMatch<K>>>>)
      returns (ghost written: bool, ghost examined: seq<PubMatch<K>>)
      modifies this
      ensures examined <= Available(responses)
      ensures written ==>
                matchData == old(matchData) + Gathered(heroIdToName, Keys(old(matchData), PubRecordId), examined)
      ensures written ==>
                |Gathered(heroIdToName, Keys(old(matchData), PubRecordId), examined)| == if nMatches < 0 then 0 else nMatches
      ensures written && 0 < nMatches ==> StoppedAtLast(heroIdToName, Keys(old(matchData), PubRecordId), examined, nMatches)
      ensures !written ==>
                matchData == old(matchData) && examined == Available(responses) &&
                |Gathered(heroIdToName, Keys(old(matchData), PubRecordId), examined)| < nMatches
      ensures written <==> nMatches <= |Gathered(heroIdToName, Keys(old(matchData), PubRecordId), Available(responses))|
    {
      ghost var stored := Keys(matchData, PubRecordId);
      ghost var all := Available(responses);
      var newMatchData: seq<PubRecord<K>> := [];
      var collected := 0;
      var call := 0;
      examined := [];
      while collected < nMatches
        invariant matchData == old(matchData)
        invariant 0 <= call <= |responses|
        invariant 0 <= collected && collected == |newMatchData|
        invariant newMatchData == Gathered(heroIdToName, stored, examined)
        invariant examined <= all
        invariant collected < nMatches ==> examined + Available(responses[call..]) == all
        invariant collected <= if nMatches < 0 then 0 else nMatches
        invariant 0 < nMatches <= collected ==> StoppedAtLast(heroIdToName, stored, examined, collected)
        decreases |responses| - call
      {
        var pubData := GetPubData(responses, call);
        AvailableStep(responses, call);
        call := call + 1;
        if pubData.None? {
          assert examined == all;
          written := false;
          return;
        }
        var batch := pubData.value;
        ghost var before := examined;
        ghost var rest := Available(responses[call..]);
        assert before + (batch + rest) == all;
        newMatchData, collected, examined := ScanBatch(nMatches, batch, newMatchData, collected, examined);
        PrefixStep(before, batch, rest, all, examined);
      }
      WriteToParquet(newMatchData);
      written := true;
      if 0 < nMatches {
        GatheredPrefix(heroIdToName, stored, examined, Available(responses));
      }
    }
  }

  // ---------------------------------------------------------------------------

  /** The last match examined was the one that brought the gathered count to `n`. */
  ghost predicate StoppedAtLast<K>(heroMap: map<int, string>, stored: set<K>, examined: seq<PubMatch<K>>, n: int) {
    0 < |examined| && |Gathered(heroMap, stored, examined[..|examined| - 1])| == n - 1
  }

  /** `Gathered` on one more match. */
  lemma GatheredSnoc<K>(heroMap: map<int, string>, stored: set<K>, ms: seq<PubMatch<K>>, m: PubMatch<K>)
    ensures Gathered(heroMap, stored, ms + [m]) ==
              if m.matchId in stored then Gathered(heroMap, stored, ms)
              else Gathered(heroMap, stored, ms) + [PubInfo(heroMap, m)]
    ensures (ms + [m])[..|ms|] == ms
  {
    assert (ms + [m])[..|ms|] == ms;
  }

  /** One request of the batch loop: a failed one ends the available matches, a good one contributes its batch. */
  lemma AvailableStep<K>(responses: seq<Option<seq<PubMatch<K>>>>, call: nat)
    requires call <= |responses|
    ensures GetPubData(responses, call).None? ==> Available(responses[call..]) == []
    ensures GetPubData(responses, call).Some? ==>
              Available(responses[call..]) == GetPubData(responses, call).value + Available(responses[call + 1..])
  {
    if call < |responses| {
      assert responses[call..][1..] == responses[call + 1..];
    }
  }

  /** Examining more matches never removes a gathered record: prefixes map to prefixes. */
  lemma {:induction false} GatheredPrefix<K>(heroMap: map<int, string>, stored: set<K>, a: seq<PubMatch<K>>, b: seq<PubMatch<K>>)
    requires a <= b
    ensures Gathered(heroMap, stored, a) <= Gathered(heroMap, stored, b)
    decreases |b|
  {
    if |a| < |b| {
      assert a <= b[..|b| - 1];
      GatheredPrefix(heroMap, stored, a, b[..|b| - 1]);
    } else {
      assert a == b;
    }
  }

  /** At most one record per match examined. */
  lemma {:induction false} GatheredBound<K>(heroMap: map<int, string>, stored: set<K>, ms: seq<PubMatch<K>>)
    ensures |Gathered(heroMap, stored, ms)| <= |ms|
    decreases |ms|
  {
    if |ms| > 0 {
      GatheredBound(heroMap, stored, ms[..|ms| - 1]);
    }
  }

  /** An id is gathered exactly when some examined match carries it and it is not stored. */
  lemma {:induction false} GatheredKeys<K>(heroMap: map<int, string>, stored: set<K>, ms: seq<PubMatch<K>>, x: K)
    ensures x in Keys(Gathered(heroMap, stored, ms), PubRecordId) <==>
            x !in stored && exists i :: 0 <= i < |ms| && ms[i].matchId == x
    decreases |ms|
  {
    if |ms| > 0 {
      var init := ms[..|ms| - 1];
      var m := ms[|ms| - 1];
      GatheredKeys(heroMap, stored, init, x);
      if m.matchId !in stored {
        var r := PubInfo(heroMap, m);
        KeysAppend(Gathered(heroMap, stored, init), [r], PubRecordId);
        assert Keys([r], PubRecordId) == {m.matchId} by {
          assert [r][..0] == [];
        }
      }
      if exists i :: 0 <= i < |init| && init[i].matchId == x {
        var i :| 0 <= i < |init| && init[i].matchId == x;
        assert ms[i] == init[i];
      }
      forall i | 0 <= i < |ms| - 1 && ms[i].matchId == x
        ensures exists k :: 0 <= k < |init| && init[k].matchId == x
      {
        assert init[i] == ms[i];
      }
    }
  }

  /**
   * Duplicates only consult the stored table: a new match that occurs twice
   * in the examined matches is gathered twice, so the appended table need
   * not have unique ids.
   */
  lemma GatheredKeepsRunDuplicates<K>(heroMap: map<int, string>, stored: set<K>, m: PubMatch<K>)
    requires m.matchId !in stored
    ensures Gathered(heroMap, stored, [m, m]) == [PubInfo(heroMap, m), PubInfo(heroMap, m)]
    ensures !Unique(Gathered(heroMap, stored, [m, m]), PubRecordId)
  {
    assert [m, m][..1] == [m];
    assert [m][..0] == [];
    assert Gathered(heroMap, stored, [m]) == [PubInfo(heroMap, m)];
    var g := Gathered(heroMap, stored, [m, m]);
    assert PubRecordId(g[0]) == PubRecordId(g[1]);
  }

  /** Two unmapped heroes get the same `Unknown(id)` label only when their ids are equal. */
  lemma HeroLabelUnknownInjective(heroMap: map<int, string>, a: int, b: int)
    requires a !in heroMap && b !in heroMap
    requires HeroLabel(heroMap, a) == HeroLabel(heroMap, b)
    ensures a == b
  {
    var sa := IntToString(a);
    var sb := IntToString(b);
    var la := "Unknown(" + sa + ")";
    var lb := "Unknown(" + sb + ")";
    assert |sa| == |sb| by {
      assert |la| == |lb|;
    }
    assert sa == la[8..8 + |sa|];
    assert sb == lb[8..8 + |sb|];
    IntToStringInjective(a, b);
  }
}
