/**
 * `extract_draft` (identical in d2draftnet/collect_data0.py and
 * d2draftnet/collect_data2.py): turn the `picks_bans` list of a
 * match-details response into the two five-hero drafts and the winner, or
 * reject the match.
 */
module Draft {
  import opened Common

  /** One entry of `picks_bans`; `is_pick` missing or null reads as false, `team` may be missing. */
  datatype PickBan = PickBan(heroId: int, isPick: bool, team: Option<int>)

  /**
   * The fields of a `/matches/{id}` response that the scripts read. A field
   * that is absent is None; a missing or null `radiant_win` reads as false.
   */
  datatype MatchDetails = MatchDetails(
    picksBans: Option<seq<PickBan>>,
    radiantWin: bool,
    rankTier: Option<int>,
    startTime: Option<int>)

  /** `(radiant_picks, dire_picks, winner)` when the draft is valid. */
  datatype Draft = Draft(radiant: seq<string>, dire: seq<string>, winner: Winner)

  const RadiantTeam := 0
  const DireTeam := 1
  const PicksPerTeam := 5

  /** `match_data.get("picks_bans", [])` */
  function Picks(details: MatchDetails): seq<PickBan> {
    details.picksBans.GetOr([])
  }

  predicate IsTeamPick(e: PickBan, team: int) {
    e.isPick && e.team == Some(team)
  }

  /** `[entry["hero_id"] for entry in picks if entry.get("is_pick") and entry.get("team") == team]` */
  function TeamPickIds(picks: seq<PickBan>, team: int): seq<int>
    decreases |picks|
  {
    if |picks| == 0 then []
    else (if IsTeamPick(picks[0], team) then [picks[0].heroId] else []) + TeamPickIds(picks[1..], team)
  }

  /** `hero_map.get(hero_id, str(hero_id))` */
  function HeroName(heroMap: map<int, string>, heroId: int): string {
    if heroId in heroMap then heroMap[heroId] else IntToString(heroId)
  }

  function HeroNames(heroMap: map<int, string>, ids: seq<int>): seq<string> {
    seq(|ids|, i requires 0 <= i < |ids| => HeroName(heroMap, ids[i]))
  }

  /**
   * `extract_draft(match_data, hero_map)`: None (the source's `(None, None,
   * None)`) unless exactly five team-0 picks and exactly five team-1 picks
   * exist; otherwise both drafts, element by element the hero names of the
   * picks in `picks_bans` order, and the winner.
   */
  function ExtractDraft(details: MatchDetails, heroMap: map<int, string>): (r: Option<Draft>)
    ensures r.Some? <==> |TeamPickIds(Picks(details), RadiantTeam)| == PicksPerTeam
                         && |TeamPickIds(Picks(details), DireTeam)| == PicksPerTeam
    ensures r.Some? ==> |r.value.radiant| == PicksPerTeam && |r.value.dire| == PicksPerTeam
    ensures r.Some? ==> forall i :: 0 <= i < PicksPerTeam ==>
              r.value.radiant[i] == HeroName(heroMap, TeamPickIds(Picks(details), RadiantTeam)[i]) &&
              r.value.dire[i] == HeroName(heroMap, TeamPickIds(Picks(details), DireTeam)[i])
    ensures r.Some? ==> (r.value.winner == Radiant <==> details.radiantWin)
  {
    var picks := Picks(details);
    var radiantIds := TeamPickIds(picks, RadiantTeam);
    var direIds := TeamPickIds(picks, DireTeam);
    if |radiantIds| != PicksPerTeam || |direIds| != PicksPerTeam then None
    else Some(Draft(HeroNames(heroMap, radiantIds), HeroNames(heroMap, direIds), WinnerOf(details.radiantWin)))
  }

  // ---------------------------------------------------------------------------

  /** The picks of a team in a concatenation are the picks of each part, in order. */
  lemma {:induction false} TeamPickIdsConcat(p: seq<PickBan>, q: seq<PickBan>, team: int)
    ensures TeamPickIds(p + q, team) == TeamPickIds(p, team) + TeamPickIds(q, team)
    decreases |p|
  {
    if |p| == 0 {
      assert p + q == q;
    } else {
      var head := if IsTeamPick(p[0], team) then [p[0].heroId] else [];
      assert (p + q)[0] == p[0];
      assert (p + q)[1..] == p[1..] + q;
      assert TeamPickIds(p + q, team) == head + TeamPickIds(p[1..] + q, team);
      TeamPickIdsConcat(p[1..], q, team);
      assert head + (TeamPickIds(p[1..], team) + TeamPickIds(q, team))
          == (head + TeamPickIds(p[1..], team)) + TeamPickIds(q, team);
    }
  }

  /** A hero id is among a team's picks exactly when some pick entry of that team carries it. */
  lemma {:induction false} TeamPickIdsMember(p: seq<PickBan>, team: int, heroId: int)
    ensures heroId in TeamPickIds(p, team) <==>
            exists i :: 0 <= i < |p| && IsTeamPick(p[i], team) && p[i].heroId == heroId
    decreases |p|
  {
    if |p| > 0 {
      TeamPickIdsMember(p[1..], team, heroId);
      if exists i :: 0 <= i < |p[1..]| && IsTeamPick(p[1..][i], team) && p[1..][i].heroId == heroId {
        var i :| 0 <= i < |p[1..]| && IsTeamPick(p[1..][i], team) && p[1..][i].heroId == heroId;
        assert p[i + 1] == p[1..][i];
      }
      forall i | 1 <= i < |p| && IsTeamPick(p[i], team) && p[i].heroId == heroId
        ensures heroId in TeamPickIds(p[1..], team)
      {
        assert p[1..][i - 1] == p[i];
      }
    }
  }

  /**
   * Bans, and picks of any team other than 0 and 1, are ignored: removing
   * such an entry from anywhere in `picks_bans` leaves the result unchanged.
   */
  lemma ExtractDraftIgnoresOtherEntries(
    details: MatchDetails, heroMap: map<int, string>, before: seq<PickBan>, e: PickBan, after: seq<PickBan>)
    requires !IsTeamPick(e, RadiantTeam) && !IsTeamPick(e, DireTeam)
    requires details.picksBans == Some(before + [e] + after)
    ensures ExtractDraft(details, heroMap) == ExtractDraft(details.(picksBans := Some(before + after)), heroMap)
  {
    TeamPickIdsSkip(before, e, after, RadiantTeam);
    TeamPickIdsSkip(before, e, after, DireTeam);
  }

  lemma TeamPickIdsSkip(before: seq<PickBan>, e: PickBan, after: seq<PickBan>, team: int)
    requires !IsTeamPick(e, team)
    ensures TeamPickIds(before + [e] + after, team) == TeamPickIds(before + after, team)
  {
    TeamPickIdsConcat(before + [e], after, team);
    TeamPickIdsConcat(before, [e], team);
    TeamPickIdsConcat(before, after, team);
    assert TeamPickIds([e], team) == [] by {
      assert [e][1..] == [];
    }
  }

  /** A hero missing from the hero map is rendered as its id, which the name still determines. */
  lemma HeroNameFallback(heroMap: map<int, string>, heroId: int)
    requires heroId !in heroMap
    ensures ParseInt(HeroName(heroMap, heroId)) == heroId
  {
    IntToStringRoundTrip(heroId);
  }
}
