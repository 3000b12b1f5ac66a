/**
 * `main` of d2draftnet/collect_match_data.py: scrape the match listing
 * pages 1, 2, 3, ... until N new matches are gathered or a page fails,
 * then append them to the stored table.
 *
 * HTML parsing is left out. A page is its status code and, when it holds a
 * table, the table's rows (header first), each row its `td` cells, each
 * cell pre-parsed into the pieces the scraper reads. The response to the
 * request for page p is `pages[p - 1]`; a request past the end of the
 * sequence is treated as a failed one. `date.today()` is the parameter
 * `today`. The stored table is None when the parquet file does not exist.
 */
module CollectMatchData {
  import opened Common

  /**
   * One `td`: the stripped text of its first `<a>` and of its first
   * `<time>`, its stripped first child, the text of its `div.subtext`, its
   * whole stripped text, and the `title` attribute of each of its `<img>`s.
   */
  datatype Cell = Cell(
    anchorText: Option<string>,
    timeText: Option<string>,
    firstContent: Option<string>,
    subtext: Option<string>,
    text: string,
    imageTitles: seq<Option<string>>)

  datatype Page = Page(status: int, table: Option<seq<seq<Cell>>>)

  /** One row of the stored table; `id` may be missing in a stored file. */
  datatype Scraped = Scraped(
    id: Option<string>,
    date: string,
    duration: string,
    result: string,
    gameMode: string,
    skill: string,
    radiantDraft: seq<string>,
    direDraft: seq<string>)

  const StatusOk := 200
  const CellsPerRow := 6

  /** `set(df['id'].dropna())`: the ids present in a table. */
  function IdSet(s: seq<Scraped>): set<string>
    decreases |s|
  {
    if |s| == 0 then {}
    else IdSet(s[..|s| - 1]) + (if s[|s| - 1].id.Some? then {s[|s| - 1].id.value} else {})
  }

  /**
   * `[img.get("title") for img in td.find_all("img") if img.get("title")]`:
   * the titles that are present and non-empty, in order.
   */
  function DraftTitles(titles: seq<Option<string>>): seq<string>
    decreases |titles|
  {
    if |titles| == 0 then []
    else
      var rest := DraftTitles(titles[1..]);
      if titles[0].Some? && titles[0].value != "" then [titles[0].value] + rest else rest
  }

  /** The draft is no longer than the image list and holds exactly the present, non-empty titles. */
  lemma {:induction false} DraftTitlesSpec(titles: seq<Option<string>>)
    ensures var r := DraftTitles(titles);
            |r| <= |titles| &&
            (forall k :: 0 <= k < |r| ==> r[k] != "") &&
            (forall x :: x in r <==> Some(x) in titles && x != "")
    decreases |titles|
  {
    if |titles| > 0 {
      DraftTitlesSpec(titles[1..]);
      assert forall t :: t in titles <==> t == titles[0] || t in titles[1..];
    }
  }

  /** The rows after the header, or none when the page has no table. */
  function DataRows(page: Page): seq<seq<Cell>> {
    match page.table
    case None => []
    case Some(rows) => if |rows| == 0 then [] else rows[1..]
  }

  /** The data rows of the successive pages from index `from` on, up to the first page that fails. */
  function AllRowsFrom(pages: seq<Page>, from: nat): seq<seq<Cell>>
    decreases |pages| - from
  {
    if from >= |pages| || pages[from].status != StatusOk then []
    else DataRows(pages[from]) + AllRowsFrom(pages, from + 1)
  }

  /** The data rows of all pages before the first one that fails. */
  function AllRows(pages: seq<Page>): seq<seq<Cell>> {
    AllRowsFrom(pages, 0)
  }

  /** The response to `requests.get(base_url.format(page))`: None when the request fails. */
  function FetchPage(pages: seq<Page>, page: int): Option<Page> {
    if 1 <= page <= |pages| then Some(pages[page - 1]) else None
  }

  /** A row the scraper can read: at least six cells and a non-empty link text in the first. */
  predicate Readable(row: seq<Cell>) {
    CellsPerRow <= |row| && row[0].anchorText.Some? && row[0].anchorText.value != ""
  }

  /** The `match_data` dict built from a readable row. */
  function RowRecord(row: seq<Cell>, today: string): Scraped
    requires Readable(row)
  {
    Scraped(
      row[0].anchorText,
      row[0].timeText.GetOr(today),
      row[3].firstContent.GetOr(""),
      row[2].anchorText.GetOr(row[2].text),
      row[1].firstContent.GetOr(""),
      row[1].subtext.GetOr(""),
      DraftTitles(row[4].imageTitles),
      DraftTitles(row[5].imageTitles))
  }

  /**
   * The rows accepted from `rows`, in order, when `seen` holds the ids known
   * beforehand: a readable row is accepted unless its id is in `seen` or was
   * accepted from an earlier row.
   */
  function Accepted(rows: seq<seq<Cell>>, seen: set<string>, today: string): seq<Scraped>
    decreases |rows|
  {
    if |rows| == 0 then []
    else
      var prev := Accepted(rows[..|rows| - 1], seen, today);
      var row := rows[|rows| - 1];
      if !Readable(row) || row[0].anchorText.value in seen + IdSet(prev) then prev
      else prev + [RowRecord(row, today)]
  }

  lemma IdSetSnoc(s: seq<Scraped>, r: Scraped)
    ensures IdSet(s + [r]) == IdSet(s) + if r.id.Some? then {r.id.value} else {}
  {
    assert (s + [r])[..|s|] == s;
  }

  /** `Accepted` on one more row. */
  lemma AcceptedSnoc(rows: seq<seq<Cell>>, row: seq<Cell>, seen: set<string>, today: string)
    ensures var prev := Accepted(rows, seen, today);
            Accepted(rows + [row], seen, today) ==
              if !Readable(row) || row[0].anchorText.value in seen + IdSet(prev) then prev
              else prev + [RowRecord(row, today)]
    ensures (rows + [row])[..|rows|] == rows
  {
    assert (rows + [row])[..|rows|] == rows;
  }

  /** The last row examined was the one that brought the accepted count to `n`. */
  ghost predicate StoppedAtLast(examined: seq<seq<Cell>>, seen: set<string>, today: string, n: int) {
    0 < |examined| && |Accepted(examined[..|examined| - 1], seen, today)| == n - 1
  }

  /**
   * The body of the `for tr in rows[1:]` loop on one row `tds`, after the
   * rows `examined`: a row with fewer than six cells, no link text or a
   * known id is skipped; otherwise its record is appended and its id
   * becomes known.
   */
  method ScanRow(
    tds: seq<Cell>, today: string, matchesList: seq<Scraped>, existingIds: set<string>,
    ghost initialIds: set<string>, ghost examined: seq<seq<Cell>>)
    returns (matchesList': seq<Scraped>, existingIds': set<string>)
    requires matchesList == Accepted(examined, initialIds, today)
    requires existingIds == initialIds + IdSet(matchesList)
    ensures matchesList' == Accepted(examined + [tds], initialIds, today)
    ensures existingIds' == initialIds + IdSet(matchesList')
    ensures (examined + [tds])[..|examined|] == examined
    ensures |matchesList'| <= |matchesList| + 1
  {
    AcceptedSnoc(examined, tds, initialIds, today);
    if |tds| < CellsPerRow {
      return matchesList, existingIds;
    }
    var matchId := tds[0].anchorText;
    if matchId.None? || matchId.value == "" || matchId.value in existingIds {
      return matchesList, existingIds;
    }
    var record := RowRecord(tds, today);
    IdSetSnoc(matchesList, record);
    matchesList' := matchesList + [record];
    existingIds' := existingIds + {matchId.value};
  }

  /**
   * The `for tr in rows[1:]` loop over one page: rows are examined in
   * order; an accepted row is appended and its id added to `existingIds`
   * at once, and the loop stops as soon as N rows are gathered. `examined`
   * grows by the prefix of the rows looked at, which is all of them unless
   * N was reached.
   */
  method ScanRows(
    nMatches: int, rows: seq<seq<Cell>>, today: string, matchesList: seq<Scraped>, existingIds: set<string>,
    ghost initialIds: set<string>, ghost examined: seq<seq<Cell>>)
    returns (matchesList': seq<Scraped>, existingIds': set<string>, ghost examined': seq<seq<Cell>>)
    requires |matchesList| < nMatches
    requires matchesList == Accepted(examined, initialIds, today)
    requires existingIds == initialIds + IdSet(matchesList)
    ensures |examined| <= |examined'| <= |examined| + |rows| && examined' == examined + rows[..|examined'| - |examined|]
    ensures matchesList' == Accepted(examined', initialIds, today)
    ensures existingIds' == initialIds + IdSet(matchesList')
    ensures |matchesList'| <= nMatches
    ensures |matchesList'| < nMatches ==> examined' == examined + rows
    ensures |matchesList'| == nMatches ==>
              |examined| < |examined'| && StoppedAtLast(examined', initialIds, today, nMatches)
  {
    matchesList', existingIds', examined' := matchesList, existingIds, examined;
    var j := 0;
    while j < |rows|
      invariant 0 <= j <= |rows|
      invariant examined' == examined + rows[..j]
      invariant matchesList' == Accepted(examined', initialIds, today)
      invariant existingIds' == initialIds + IdSet(matchesList')
      invariant |matchesList'| <= nMatches
      invariant |matchesList'| == nMatches ==>
                  0 < j && StoppedAtLast(examined', initialIds, today, nMatches)
    {
      if |matchesList'| >= nMatches {
        break;
      }
      var tds := rows[j];
      PrefixSnoc(examined, rows, j);
      matchesList', existingIds' := ScanRow(tds, today, matchesList', existingIds', initialIds, examined');
      examined' := examined' + [tds];
      j := j + 1;
    }
    if |matchesList'| < nMatches {
      assert rows[..j] == rows;
    }
  }

  /**
   * The write after the scan: with a stored table the new rows are appended
   * without deduplication, and nothing is written when there are none;
   * without one the new rows (possibly none) become the table.
   */
  function SaveMatches(stored: Option<seq<Scraped>>, matchesList: seq<Scraped>): (saved: Option<seq<Scraped>>)
    ensures stored.None? ==> saved == Some(matchesList)
    ensures stored.Some? ==> (saved.None? <==> matchesList == [])
    ensures stored.Some? && saved.Some? ==> saved.value == stored.value + matchesList
  {
    if stored.None? then Some(matchesList)
    else if matchesList == [] then None
    else Some(stored.value + matchesList)
  }

  /**
   * The `while len(matches_list) < N_matches` loop of `main`: request pages
   * 1, 2, 3, ... and scan each one's rows until N matches are gathered or a
   * page fails. `examined` is the rows looked at, a prefix of the data rows
   * of all pages before the first failing one; fewer than N matches only
   * when all of those were scanned, and when N are gathered the scan
   * stopped right after the last.
   */
  method ScanPages(nMatches: int, pages: seq<Page>, today: string, initialIds: set<string>)
    returns (matchesList: seq<Scraped>, existingIds: set<string>, ghost examined: seq<seq<Cell>>)
    ensures examined <= AllRows(pages)
    ensures matchesList == Accepted(examined, initialIds, today)
    ensures existingIds == initialIds + IdSet(matchesList)
    ensures |matchesList| <= if nMatches < 0 then 0 else nMatches
    ensures |matchesList| < nMatches ==> examined == AllRows(pages)
    ensures 0 < nMatches == |matchesList| ==> StoppedAtLast(examined, initialIds, today, nMatches)
  {
    matchesList, existingIds := [], initialIds;
    ghost var all := AllRows(pages);
    examined := [];
    var page := 1;
    while |matchesList| < nMatches
      invariant 1 <= page <= |pages| + 1
      invariant matchesList == Accepted(examined, initialIds, today)
      invariant existingIds == initialIds + IdSet(matchesList)
      invariant examined <= all
      invariant |matchesList| < nMatches ==> examined + AllRowsFrom(pages, page - 1) == all
      invariant |matchesList| <= if nMatches < 0 then 0 else nMatches
      invariant 0 < nMatches <= |matchesList| ==> StoppedAtLast(examined, initialIds, today, nMatches)
      decreases |pages| + 1 - page
    {
      var response := FetchPage(pages, page);
      if response.None? || response.value.status != StatusOk {
        AllRowsStep(pages, page);
        break;
      }
      var rows := DataRows(response.value);
      AllRowsStep(pages, page);
      ghost var before := examined;
      ghost var rest := AllRowsFrom(pages, page);
      assert before + (rows + rest) == all;
      matchesList, existingIds, examined := ScanRows(nMatches, rows, today, matchesList, existingIds, initialIds, examined);
      PrefixStep(before, rows, rest, all, examined);
      page := page + 1;
    }
  }

  /**
   * `main(N_matches)`: the ids already stored are known before the scan;
   * the accepted matches are those of the rows examined by `ScanPages`. The
   * table is appended to without deduplication, left unwritten when it
   * exists and nothing is new, and created (possibly empty) when it does
   * not exist. The reported total is the number of distinct known ids
   * afterwards.
   */
  method ScrapeMatches(nMatches: int, pages: seq<Page>, stored: Option<seq<Scraped>>, today: string)
    returns (matchesList: seq<Scraped>, saved: Option<seq<Scraped>>, total: int, ghost examined: seq<seq<Cell>>)
    ensures examined <= AllRows(pages)
    ensures matchesList == Accepted(examined, IdSet(stored.GetOr([])), today)
    ensures |matchesList| <= if nMatches < 0 then 0 else nMatches
    ensures |matchesList| < nMatches ==> examined == AllRows(pages)
    ensures 0 < nMatches == |matchesList| ==> StoppedAtLast(examined, IdSet(stored.GetOr([])), today, nMatches)
    ensures saved == SaveMatches(stored, matchesList)
    ensures total == |IdSet(stored.GetOr([]))| + |matchesList|
  {
    var existingIds: set<string> := {};
    if stored.Some? {
      existingIds := IdSet(stored.value);
    }
    matchesList, existingIds, examined := ScanPages(nMatches, pages, today, existingIds);
    saved := SaveMatches(stored, matchesList);
    AcceptedCount(examined, IdSet(stored.GetOr([])), today);
    total := |existingIds|;
  }

  // ---------------------------------------------------------------------------

  /** One step of the page loop: a failing page ends the rows, a good one contributes its data rows. */
  lemma AllRowsStep(pages: seq<Page>, page: int)
    requires 1 <= page <= |pages| + 1
    ensures FetchPage(pages, page).None? || FetchPage(pages, page).value.status != StatusOk ==>
              AllRowsFrom(pages, page - 1) == []
    ensures FetchPage(pages, page).Some? && FetchPage(pages, page).value.status == StatusOk ==>
              AllRowsFrom(pages, page - 1) == DataRows(pages[page - 1]) + AllRowsFrom(pages, page)
  {
  }

  /** `r` is the record of some readable row of `rows`. */
  ghost predicate FromRow(rows: seq<seq<Cell>>, r: Scraped, today: string) {
    exists i :: 0 <= i < |rows| && Readable(rows[i]) && r == RowRecord(rows[i], today)
  }

  /** One more row either leaves the accepted matches alone or appends that row's record. */
  lemma AcceptedStep(rows: seq<seq<Cell>>, seen: set<string>, today: string)
    requires |rows| > 0
    ensures var prev := Accepted(rows[..|rows| - 1], seen, today);
            var acc := Accepted(rows, seen, today);
            var row := rows[|rows| - 1];
            || acc == prev
            || (&& Readable(row)
                && row[0].anchorText.value !in seen
                && acc == prev + [RowRecord(row, today)])
  {
  }

  /**
   * Every accepted match comes from a readable row of `rows` (so one with at
   * least six cells), carries that row's non-empty link text as its id, and
   * that id was not known beforehand.
   */
  lemma {:induction false} AcceptedSound(rows: seq<seq<Cell>>, seen: set<string>, today: string)
    ensures forall k :: 0 <= k < |Accepted(rows, seen, today)| ==> FromRow(rows, Accepted(rows, seen, today)[k], today)
    ensures forall k :: 0 <= k < |Accepted(rows, seen, today)| ==>
              Accepted(rows, seen, today)[k].id.Some? && Accepted(rows, seen, today)[k].id.value !in seen
    decreases |rows|
  {
    if |rows| > 0 {
      var init := rows[..|rows| - 1];
      AcceptedSound(init, seen, today);
      AcceptedStep(rows, seen, today);
      var acc := Accepted(rows, seen, today);
      var prev := Accepted(init, seen, today);
      forall k | 0 <= k < |acc|
        ensures FromRow(rows, acc[k], today)
        ensures acc[k].id.Some? && acc[k].id.value !in seen
      {
        if k < |prev| {
          assert acc[k] == prev[k];
          assert FromRow(init, prev[k], today);
          var i :| 0 <= i < |init| && Readable(init[i]) && prev[k] == RowRecord(init[i], today);
          assert rows[i] == init[i];
        } else {
          var i := |rows| - 1;
          assert Readable(rows[i]) && acc[k] == RowRecord(rows[i], today);
        }
      }
    }
  }

  /** The ids of the accepted matches, one per accepted match. */
  lemma {:induction false} IdSetOfAccepted(rows: seq<seq<Cell>>, seen: set<string>, today: string)
    ensures forall x :: x in IdSet(Accepted(rows, seen, today)) <==>
              exists k :: 0 <= k < |Accepted(rows, seen, today)| && Accepted(rows, seen, today)[k].id == Some(x)
    decreases |rows|
  {
    if |rows| > 0 {
      var init := rows[..|rows| - 1];
      IdSetOfAccepted(init, seen, today);
      var acc := Accepted(rows, seen, today);
      var prev := Accepted(init, seen, today);
      if acc != prev {
        assert acc[..|acc| - 1] == prev;
        forall x | exists k :: 0 <= k < |prev| && prev[k].id == Some(x)
          ensures exists k :: 0 <= k < |acc| && acc[k].id == Some(x)
        {
          var k :| 0 <= k < |prev| && prev[k].id == Some(x);
          assert acc[k] == prev[k];
        }
      }
    }
  }

  /** Some readable row of `rows` has link text `x`. */
  ghost predicate HasReadableRow(rows: seq<seq<Cell>>, x: string) {
    exists i :: 0 <= i < |rows| && Readable(rows[i]) && rows[i][0].anchorText.value == x
  }

  /**
   * An id is accepted exactly when it was not known beforehand and some
   * readable row carries it: an id not yet seen is never skipped.
   */
  lemma {:induction false} AcceptedKeys(rows: seq<seq<Cell>>, seen: set<string>, today: string)
    ensures forall x :: x in IdSet(Accepted(rows, seen, today)) <==> x !in seen && HasReadableRow(rows, x)
    decreases |rows|
  {
    if |rows| > 0 {
      var n := |rows| - 1;
      var init := rows[..n];
      var row := rows[n];
      AcceptedKeys(init, seen, today);
      var prev := Accepted(init, seen, today);
      forall x ensures HasReadableRow(rows, x) <==> HasReadableRow(init, x) || (Readable(row) && row[0].anchorText.value == x) {
        if HasReadableRow(rows, x) {
          var i :| 0 <= i < |rows| && Readable(rows[i]) && rows[i][0].anchorText.value == x;
          if i < n {
            assert init[i] == rows[i];
          }
        }
        if HasReadableRow(init, x) {
          var i :| 0 <= i < |init| && Readable(init[i]) && init[i][0].anchorText.value == x;
          assert rows[i] == init[i];
        }
      }
      if Readable(row) && row[0].anchorText.value !in seen + IdSet(prev) {
        IdSetSnoc(prev, RowRecord(row, today));
      }
    }
  }

  /** No two accepted matches share an id: each new id joins the seen set at once. */
  lemma {:induction false} AcceptedUnique(rows: seq<seq<Cell>>, seen: set<string>, today: string)
    ensures forall k1, k2 :: 0 <= k1 < k2 < |Accepted(rows, seen, today)| ==>
              Accepted(rows, seen, today)[k1].id != Accepted(rows, seen, today)[k2].id
    decreases |rows|
  {
    if |rows| > 0 {
      var init := rows[..|rows| - 1];
      AcceptedUnique(init, seen, today);
      var acc := Accepted(rows, seen, today);
      var prev := Accepted(init, seen, today);
      if acc != prev {
        IdSetOfAccepted(init, seen, today);
        AcceptedSound(init, seen, today);
        assert acc[..|acc| - 1] == prev;
        forall k | 0 <= k < |prev| ensures prev[k].id != acc[|acc| - 1].id {
          assert prev[k].id.value in IdSet(prev);
        }
      }
    }
  }

  /**
   * The known ids after the run are the ones before it plus one new id per
   * accepted match, so the reported total is their sum.
   */
  lemma {:induction false} AcceptedCount(rows: seq<seq<Cell>>, seen: set<string>, today: string)
    ensures |seen + IdSet(Accepted(rows, seen, today))| == |seen| + |Accepted(rows, seen, today)|
    decreases |rows|
  {
    if |rows| > 0 {
      var init := rows[..|rows| - 1];
      AcceptedCount(init, seen, today);
      var acc := Accepted(rows, seen, today);
      var prev := Accepted(init, seen, today);
      if acc != prev {
        var row := rows[|rows| - 1];
        assert acc[..|acc| - 1] == prev;
        assert IdSet(acc) == IdSet(prev) + {row[0].anchorText.value};
        assert seen + IdSet(acc) == (seen + IdSet(prev)) + {row[0].anchorText.value};
      }
    }
  }

  /** The titles kept from two lists of images are those kept from each, in order. */
  lemma {:induction false} DraftTitlesConcat(a: seq<Option<string>>, b: seq<Option<string>>)
    ensures DraftTitles(a + b) == DraftTitles(a) + DraftTitles(b)
    decreases |a|
  {
    if |a| == 0 {
      assert a + b == b;
    } else {
      assert (a + b)[0] == a[0];
      assert (a + b)[1..] == a[1..] + b;
      DraftTitlesConcat(a[1..], b);
    }
  }
}
