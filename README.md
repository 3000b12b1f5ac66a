# D2DraftNet collection core, modelled in Dafny

D2DraftNet collects Dota 2 matches (the two five-hero drafts and the winner) from the OpenDota API and from the
Dotabuff match listing. It merges them into a stored table keyed by match id and has small utilities that count
and remove repeated ids. This project models the logic under that I/O:

- draft extraction from a match-details response;
- the API tier configuration;
- the five collection loops: `collect` in collect_data2.py, `main` in collect_data0.py, `DataFetcher.analyze_pub_data`
  in collect_data3.py, the row loop in collect_match_data.py and `request_match_ids` in collect_match_ids.py;
- the keep-first merge and deduplication, the repeat counters, and the id-to-record dictionary.

All of it is modelled with one shape:

- Network responses are inputs. A details endpoint is a function from id to an optional response. The
  Dotabuff listing read by `request_match_ids` is a function from page number to page. The repeated requests of
  collect_data3.py and collect_match_data.py are a sequence of responses, and a request past its end counts as a
  failed one.
- Parsed HTML is a sequence of pre-parsed cells.
- A stored table is a sequence of records.
- The identifier is a generic equality type where the source allows it. It is the int `match_id` of the OpenDota
  JSON in collect_data0.py and collect_data3.py. In collect_data2.py it is a string, the last segment of a listing
  link returned by `request_match_ids` (collect_match_ids.py:28), and in collect_match_data.py it is the string link
  text.

Each loop is a Dafny `method` with a `while` loop. It is proved against a recursive specification function: the
records it returns are that function applied to the prefix of the input it examined. Lemmas then prove the
source's promises about those functions: soundness of each skip rule, uniqueness, bounds, keep-first behaviour,
idempotence and the exit conditions.

`DataFetcher` is a class. Its field `match_data` is extended in place.

Files, one module each:

| file | models |
|---|---|
| common.dfy | optional values, the winner, Python's `str(int)` and its inverse |
| dedup.dfy | `drop_duplicates(keep="first")`, concat and dedup merge, dict-by-id |
| draft.dfy | `extract_draft`, which is the same in collect_data0.py and collect_data2.py |
| collect_match_ids.dfy | `request_match_ids` |
| collect_data2.dfy | `get_api_config`, the `collect` loop and its merge |
| collect_data0.dfy | `main`: the limit slice, the skips and the merge |
| collect_data3.dfy | `DataFetcher`: `match_data`, `_verify_no_duplicates`, `_df_to_dict`, `_write_to_parquet`, `analyze_pub_data` |
| collect_match_data.dfy | the page and row loop of `main`, the draft-title filter, the append |
| remove_repeats.dfy | `remove_repeats` |
| view_match_data.dfy | `check_repeats` |

### Deduplication differs between the scripts

- Only collect_match_data.py marks an accepted id as seen before the next candidate is examined
  (collect_match_data.py:80). The loops of `collect` (collect_data2.py:103), `main` (collect_data0.py:102) and
  `analyze_pub_data` (collect_data3.py:98) compare candidates only with the ids stored before the run.
  - In `main` and `analyze_pub_data` the input can list an id twice, and then it is gathered twice. See
    `CollectData3.GatheredKeepsRunDuplicates`.
  - In `collect` the loop would do the same (`CollectData2.CollectedKeepsRepeatedIds`). Its input, though, comes
    from `request_match_ids`, which returns distinct ids (collect_match_ids.py:38), so its records have unique ids.
- collect_data0.py and collect_data2.py drop duplicates when they merge. collect_data3.py:57 and
  collect_match_data.py:94 append without deduplicating, so the stored table need not have unique ids after them.

## Model

| member | source | states |
|---|---|---|
| Common.WinnerOf | d2draftnet/collect_data2.py:67 | the winner is Radiant exactly when `radiant_win` is truthy, otherwise Dire |
| Common.NatToString | d2draftnet/collect_data2.py:65-66 | `str(n)` of a natural number is a non-empty string of digits with no leading zero |
| Common.IntToStringRoundTrip | d2draftnet/collect_data2.py:65-66 | the `str(hero_id)` fallback name can be read back to the id |
| Common.IntToStringInjective | d2draftnet/collect_data0.py:59-60 | two distinct unmapped hero ids never get the same fallback name |
| Dedup.ToDict | d2draftnet/collect_data3.py:75 | the dict's keys are exactly the ids of the table, and for a repeated id the last record wins |
| Dedup.KeysIff | d2draftnet/collect_data2.py:85 | an id is in `set(df["match_id"])` exactly when some row carries it |
| Dedup.KeysAppend | d2draftnet/collect_data2.py:148 | the ids of a concatenation are the ids of both parts |
| Dedup.UniqueKeysCount | d2draftnet/remove_repeats.py:21-24 | a table with unique ids has as many distinct ids as rows |
| Dedup.KeepFirstKeys | d2draftnet/remove_repeats.py:21 | keep-first deduplication loses no id |
| Dedup.KeepFirstUnique | d2draftnet/remove_repeats.py:21 | after `drop_duplicates(keep="first")` all ids are unique |
| Dedup.KeepFirstIsFirstOccurrences | d2draftnet/remove_repeats.py:21 | the result is the input rows at a strictly increasing sequence of indices, and an index is kept exactly when its row is the first with its id |
| Dedup.KeepFirstOfUnique | d2draftnet/remove_repeats.py:21 | a table with unique ids is left unchanged |
| Dedup.KeepFirstIdempotent | d2draftnet/remove_repeats.py:21-24 | deduplicating twice gives the same table as once |
| Dedup.KeepFirstCount | d2draftnet/remove_repeats.py:18-24 | the deduplicated length equals the number of distinct ids, which is at most the input length |
| Dedup.KeepFirstShorter | d2draftnet/remove_repeats.py:21 | deduplication never lengthens a table |
| Dedup.KeepFirstAbsorbs | d2draftnet/collect_data2.py:148-149 | appending rows whose ids are all present already changes nothing after deduplication |
| Dedup.KeepFirstPrefix | d2draftnet/collect_data2.py:148-149 | the deduplicated existing rows are a prefix of the deduplicated concatenation, so existing rows win |
| Dedup.MergeProperties | d2draftnet/collect_data2.py:146-150 | after concat and `drop_duplicates(subset=["match_id"])`: ids are unique; the ids are those of both tables; the size is at most the sum of the sizes; the deduplicated existing rows come first; every later row has an id that was not stored |
| Dedup.MergeKeepsExisting | d2draftnet/collect_data2.py:148-149 | when the stored table has unique ids, the merge keeps it intact as a prefix |
| Dedup.MergeIdempotent | d2draftnet/collect_data0.py:120-121 | merging the same new records a second time changes nothing |
| Dedup.MergeIfAnyWrites | d2draftnet/collect_data0.py:118-125 | nothing is written exactly when there are no records; what is written has unique ids and at most existing plus new rows |
| ViewMatchData.CheckRepeatsCountsDuplicated | src/d2draftnet/view_match_data.py:14 | `check_repeats` counts exactly the rows whose id appeared in an earlier row |
| ViewMatchData.CheckRepeatsPlusKept | src/d2draftnet/view_match_data.py:14 | the repeated rows plus the rows that keep-first deduplication keeps make up the whole table |
| ViewMatchData.CheckRepeatsIsRowsMinusDistinct | src/d2draftnet/view_match_data.py:4-14 | the count equals the number of rows minus the number of distinct ids, so it lies between 0 and the number of rows |
| ViewMatchData.CheckRepeatsZeroIffUnique | src/d2draftnet/view_match_data.py:4-14 | the count is 0 exactly when all ids are unique |
| RemoveRepeats.RemoveRepeats | d2draftnet/remove_repeats.py:11-33 | the kept table is the keep-first deduplication of the input: unique ids and the same id set; `N_total` is the input length; `N_repeats = N_total - len(df)` equals `check_repeats` of the input and the input length minus the number of distinct ids; the table is written back exactly when the operator confirms |
| RemoveRepeats.RemoveRepeatsIdempotent | d2draftnet/remove_repeats.py:21-24 | deduplicating the output again removes 0 entries |
| Draft.ExtractDraft | d2draftnet/collect_data2.py:57-68 | a draft exists exactly when there are 5 team-0 picks and 5 team-1 picks; then both drafts have length 5, element i is the hero name of the i-th pick of that team in `picks_bans` order, and the winner is Radiant exactly when `radiant_win` |
| Draft.TeamPickIdsConcat | d2draftnet/collect_data2.py:59-60 | the team-pick filter distributes over concatenation of `picks_bans`, keeping order |
| Draft.TeamPickIdsMember | d2draftnet/collect_data2.py:59-60 | an id is among a team's picks exactly when some pick entry of that team carries it |
| Draft.TeamPickIdsSkip | d2draftnet/collect_data0.py:53-54 | an entry that is not a pick of the team can be removed without changing that team's picks |
| Draft.ExtractDraftIgnoresOtherEntries | d2draftnet/collect_data0.py:52-63 | bans and picks of teams other than 0 and 1 never affect the result |
| Draft.HeroNameFallback | d2draftnet/collect_data0.py:59-60 | an id missing from the hero map is rendered as `str(id)`, which reads back to the id |
| CollectMatchIds.PagesToScrape | d2draftnet/collect_match_ids.py:16-17 | `N_ids // 100 + 1` pages hold more than `N_ids` ids at 100 per page, and one page fewer holds at most `N_ids`; when `N_ids` is a multiple of 100 that is exactly `N_ids`, so the source requests one page more than it needs |
| CollectMatchIds.HrefIdSuffix | d2draftnet/collect_match_ids.py:28 | `href.split("/")[-1]` is a suffix of the href with no '/', preceded by '/' whenever it is not the whole href |
| CollectMatchIds.HrefIdAfterSlash | d2draftnet/collect_match_ids.py:28 | the id of `path/seg` is `seg` when `seg` has no '/' |
| CollectMatchIds.MatchLinkId | d2draftnet/collect_match_ids.py:28 | `/matches/<id>` passes the link selector and yields `<id>` |
| CollectMatchIds.LinkIdsMember | d2draftnet/collect_match_ids.py:28 | an id is extracted from a page exactly when some `/matches/` link on it ends in that id |
| CollectMatchIds.AllIdsMember | d2draftnet/collect_match_ids.py:20-34 | an id is collected exactly when one of pages 1 through the page count answered 200 and lists it, so non-200 pages contribute nothing |
| CollectMatchIds.SetToSeq | d2draftnet/collect_match_ids.py:38 | `list(set(xs))` has no duplicates, the same elements as the set and the same size |
| CollectMatchIds.RequestMatchIds | d2draftnet/collect_match_ids.py:10-43 | the result has no duplicates, its elements are exactly the ids extracted from pages 1 to `N_ids // 100 + 1`, and its length is the number of distinct ids (no truncation to `N_ids`) |
| CollectData2.GetApiConfig | d2draftnet/collect_data2.py:9-23 | with no key the call limit is 2000 and the rate limit is 60; with a key the call limit is unbounded and the rate limit is 1200 |
| CollectData2.ConfigBudget | d2draftnet/collect_data2.py:20-23 | with a key the call budget never runs out; without one it runs out at 2000 calls |
| CollectData2.CollectLoop | d2draftnet/collect_data2.py:95-144 | the records are those accepted from the ids examined; the API calls are one per examined id not already stored, never more than the call limit; at most `limit` records (1 when `limit <= 0`); the loop leaves early only when the budget is spent or `limit` records are found; when it stops with `limit` records, the ids before the last one examined give one record fewer, so it stopped right after the record that reached `limit` |
| CollectData2.ProcessMatch | d2draftnet/collect_data2.py:103-137 | one id of the loop: the record is the one the loop body accepts, it carries that id, and a details request is made exactly when the id is not already stored |
| CollectData2.Collect | d2draftnet/collect_data2.py:80-150 | the scraped ids are distinct and are exactly those extracted by `request_match_ids(limit)`; the records are exactly those the loop accepts among the first `consumed` of them, so every valid new match examined is recorded; the details requests stay within the call limit, and the loop leaves early only when the budget is spent or `limit` records were found; at most `limit` records (1 when `limit <= 0`), with unique ids, none already stored; each record's details have `picks_bans`, pass the rank filter (`rank_tier == pub_rank` for "pub" with a rank) and give a valid draft, and the record carries that draft, the winner, the match type and the date of `start_time`; the table written is the keep-first merge, unique and at most existing plus new rows; it is written exactly when there are records |
| CollectData2.CollectedSound | d2draftnet/collect_data2.py:102-135 | every record comes from an examined id that is not stored, has details with `picks_bans`, passes the rank filter (`rank_tier == pub_rank` for "pub" with a rank, equality and not a threshold), has a valid draft and carries that draft and the date of its `start_time` |
| CollectData2.CollectedKeys | d2draftnet/collect_data2.py:98-135 | an id yields a record exactly when it was examined and the loop body accepts it |
| CollectData2.CollectedUnique | d2draftnet/collect_data2.py:98-135 | distinct input ids give records with distinct ids |
| CollectData2.CollectedKeepsRepeatedIds | d2draftnet/collect_data2.py:102-135 | accepted ids are not added to the seen set, so the loop body alone records an id listed twice as two records (its input in `collect` is distinct) |
| CollectData2.DetailsRequestsBound | d2draftnet/collect_data2.py:102-109 | details requests never exceed the ids examined, and none are made when every id is stored |
| CollectData0.SliceTo | d2draftnet/collect_data0.py:96 | `xs[:limit]` is a prefix of length `min(limit, len)` for `limit >= 0`, and for a negative `limit` it drops that many entries from the end |
| CollectData0.CollectPro | d2draftnet/collect_data0.py:82-125 | a non-200 pro-matches response gives no records and no write; otherwise the records are those accepted among the matches of `[:limit]`, at most `limit` of them for `limit >= 0` (for a negative `limit` the slice drops entries from the end, and the bound is its length); the table written is the keep-first merge when there are records, and nothing is written when there are none |
| CollectData0.ProRecordsBound | d2draftnet/collect_data0.py:100-115 | at most one record per match examined |
| CollectData0.ProRecordsSound | d2draftnet/collect_data0.py:101-115 | a stored id, missing details, details without `picks_bans` or an invalid draft never yield a record; every record carries its match's five-hero drafts |
| CollectData0.ProRecordsKeys | d2draftnet/collect_data0.py:100-115 | an id yields a record exactly when it is among the examined matches and passes every check |
| CollectData3.PubInfo | d2draftnet/collect_data3.py:101-111 | each draft has the length and order of `radiant_team`/`dire_team` (empty when missing, with no count check); element i is the mapped name or `Unknown(id)`; the winner is Radiant exactly when `radiant_win` |
| CollectData3.DataFetcher.constructor | d2draftnet/collect_data3.py:16-32 | `match_data` is the stored table when it exists, otherwise empty |
| CollectData3.DataFetcher.VerifyNoDuplicates | d2draftnet/collect_data3.py:77-82 | true exactly when no record of the stored `match_data` has the id |
| CollectData3.DataFetcher.DfToDict | d2draftnet/collect_data3.py:71-75 | the keys are exactly the ids of `match_data`, and for a repeated id the later record wins |
| CollectData3.DataFetcher.WriteToParquet | d2draftnet/collect_data3.py:53-59 | `match_data` becomes the old records followed by the new ones: old records unchanged, total = old + new |
| CollectData3.DataFetcher.ScanBatch | d2draftnet/collect_data3.py:94-114 | the `for match in pub_data` loop examines a prefix of the batch (all of it unless N was reached), appends the records gathered from it with `collected == len(new_match_data)`, and stops right after the N-th |
| CollectData3.DataFetcher.AnalyzePubData | d2draftnet/collect_data3.py:84-115 | if a fetch fails before N matches are gathered, the method returns without writing and `match_data` is unchanged; otherwise exactly max(N, 0) records are appended (so `collected <= max(N, 0)`), namely those gathered from the examined prefix of the available matches; the table is written exactly when gathering over all available matches yields at least N records (a new match listed twice counts twice) |
| CollectData3.GatheredPrefix | d2draftnet/collect_data3.py:94-114 | examining more matches only extends the gathered records |
| CollectData3.GatheredBound | d2draftnet/collect_data3.py:94-114 | at most one record per match examined |
| CollectData3.GatheredKeys | d2draftnet/collect_data3.py:98-99 | an id is gathered exactly when some examined match carries it and it is not in the stored table |
| CollectData3.GatheredKeepsRunDuplicates | d2draftnet/collect_data3.py:77-113 | ids gathered in the same run are not consulted: a new match seen twice is appended twice, so ids need not be unique |
| CollectData3.HeroLabelUnknownInjective | d2draftnet/collect_data3.py:101-104 | two unmapped heroes share an `Unknown(id)` label only when their ids are equal |
| CollectMatchData.DraftTitlesSpec | d2draftnet/collect_match_data.py:62-66 | the draft is the image titles that are present and non-empty, no longer than the image list, each non-empty, and exactly the non-empty titles present |
| CollectMatchData.DraftTitlesConcat | d2draftnet/collect_match_data.py:62-66 | the title filter keeps order across concatenation |
| CollectMatchData.ScanRow | d2draftnet/collect_match_data.py:39-80 | one row: the accepted list grows as the definition of acceptance says, by at most one match, and `existing_ids` stays the pre-loaded ids plus the accepted ones |
| CollectMatchData.ScanRows | d2draftnet/collect_match_data.py:38-84 | the row loop examines a prefix of the page's rows (all unless N was reached), accepts rows as the specification says, adds each accepted id to `existing_ids` at once, and stops right after the N-th |
| CollectMatchData.SaveMatches | d2draftnet/collect_match_data.py:87-99 | with a stored table the new rows are appended without deduplication, and nothing is written when there are none; without one the new rows become the table |
| CollectMatchData.ScanPages | d2draftnet/collect_match_data.py:23-85 | pages 1, 2, 3, … are scanned until N matches are gathered or a page is not 200; the rows examined are a prefix of the data rows before the failing page; at most max(N, 0) matches; fewer than N only when every such row was examined; the scan stops right after the N-th |
| CollectMatchData.ScrapeMatches | d2draftnet/collect_match_data.py:10-101 | the ids known before the scan are those of the stored table; the matches are those accepted by the page scan, with its bounds and stopping rule; the save rule of `SaveMatches`; the total printed is the number of distinct pre-existing ids plus the number accepted |
| CollectMatchData.AcceptedSound | d2draftnet/collect_match_data.py:38-80 | every accepted match comes from a row with at least 6 cells and a non-empty link text, which is its id, and that id was not among the pre-loaded ids |
| CollectMatchData.AcceptedKeys | d2draftnet/collect_match_data.py:38-80 | an id is accepted exactly when it was not pre-loaded and some row with at least 6 cells has it as non-empty link text, so a new id is never skipped |
| CollectMatchData.IdSetOfAccepted | d2draftnet/collect_match_data.py:79-80 | the ids added to `existing_ids` are exactly the ids of the accepted matches |
| CollectMatchData.AcceptedUnique | d2draftnet/collect_match_data.py:45-80 | accepted ids are pairwise distinct, because each joins `existing_ids` before the next row is examined |
| CollectMatchData.AcceptedCount | d2draftnet/collect_match_data.py:79-101 | `len(existing_ids)` afterwards is the number of pre-existing distinct ids plus the number accepted |

## Left out

- HTTP requests, HTML parsing (BeautifulSoup), parquet reading and writing, `os.path.exists`/`Path.exists`, DataFrame
  construction, console output (click, tqdm, progress bars), `ck.confirm` and `time.sleep`. Responses, parsed tables,
  stored tables and the operator's answer are inputs, and written tables are outputs.
- The `delay = 60 / rate_limit` float and `pd.to_datetime`. These are timing, floating point and a library
  conversion; a date is kept as epoch seconds (`CollectData2.MatchDate`).
- `float('inf')` as a number. The unbounded call limit is the constructor `Unlimited`.
- `get_open_dota_hero_map` and `_openDotaID_2_heroname`. The hero map is a parameter.
- `load_existing_data` and `save_data`. The stored table is a parameter and the written table a result.
- `collect_data2.collect` takes the scraped ids from `request_match_ids(limit)`. The model passes the listing pages to it.
- A `match` without `match_id`, `duration` or `radiant_win` in collect_data3.py:98-110. The source raises KeyError
  there; the model's `PubMatch` type makes the three fields mandatory.
- A `radiant_team` or `dire_team` present as JSON `null` in collect_data3.py:101-104. There `.get(..., [])` returns
  None and iterating it raises TypeError; the model reads None as a missing team and yields an empty draft.
- The `--verbose` progress line of collect_data2.py:139-141. With `limit == 0`, `found / limit` raises
  ZeroDivisionError after the first accepted record, and nothing is saved. The model has no verbose mode, so it
  keeps that record and merges it.
- A `picks_bans` value of JSON `null`, and a pick entry without `hero_id`. The source would raise on these; the model
  types rule them out.
- `match.get("match_id")` returning None in collect_data0.py. The model takes pro-match entries as ids.
- The unbounded `while` loops in collect_data3.py:88 and collect_match_data.py:25. They can spin forever on a source
  that keeps returning only duplicates. They run over a finite sequence of responses, and a request past its end
  counts as a failed one.
- `_filter_by_rank` (it only raises `NotImplementedError`) and `checkout_dataset` (it only prints).
- d2draftnet/collect_selenium.py. It is HTML scraping plus an append without deduplication, and its logic repeats
  collect_match_ids.py and collect_match_data.py. It is not part of this model.
- d2draftnet/view_match_data.py, the `view`/`view_parquet` commands and the `main` of view_match_data.py and
  collect_match_ids.py. They only print.
- tests/test_file.py. It exercises a module that is not part of this model.
- CollectData2.CollectLoop: with `limit <= 0` the source still keeps the first accepted record, because it checks
  the length after appending. The contract bounds the records by 1 in that case rather than by `limit`.
- CollectMatchData.ScrapeMatches: the `astype(str)` conversion of stored ids is not modelled, because stored ids
  are already strings.
