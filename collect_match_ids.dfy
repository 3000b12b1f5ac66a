/**
 * `request_match_ids` of d2draftnet/collect_match_ids.py: fetch listing
 * pages 1 .. N_ids // 100 + 1, take the last path segment of every link
 * that starts with `/matches/`, and return the distinct ids.
 *
 * HTML parsing is left out: a page is its status code and the `href`
 * attributes of its links, in document order. `fetch(p)` is the response to
 * the request for page `p`.
 */
module CollectMatchIds {

  datatype ListingPage = ListingPage(status: int, hrefs: seq<string>)

  const IdsPerPage := 100
  const StatusOk := 200
  const MatchesPrefix := "/matches/"

  /** `N_ids // ids_per_page + 1`: the pages hold at least N_ids ids at 100 per page. */
  function PagesToScrape(nIds: int): (pages: int)
    ensures (pages - 1) * IdsPerPage <= nIds < pages * IdsPerPage
  {
    nIds / IdsPerPage + 1
  }

  /** The index of the last '/' in `s`, or -1 when there is none. */
  function LastSlash(s: string): int
    decreases |s|
  {
    if |s| == 0 then -1
    else if s[|s| - 1] == '/' then |s| - 1
    else LastSlash(s[..|s| - 1])
  }

  /** `href.split("/")[-1]`: the text after the last '/', or all of it when there is none. */
  function HrefId(href: string): string {
    var r := LastSlash(href);
    if 0 <= r + 1 <= |href| then href[r + 1..] else href
  }

  /** `LastSlash` is an index of '/' (or -1) with no '/' after it. */
  lemma {:induction false} LastSlashSpec(s: string)
    ensures -1 <= LastSlash(s) < |s|
    ensures 0 <= LastSlash(s) ==> s[LastSlash(s)] == '/'
    ensures forall i :: LastSlash(s) < i < |s| ==> s[i] != '/'
    decreases |s|
  {
    if |s| > 0 && s[|s| - 1] != '/' {
      LastSlashSpec(s[..|s| - 1]);
    }
  }

  /** The id of a link is a suffix of it with no '/', preceded by '/' unless it is the whole link. */
  lemma HrefIdSuffix(href: string)
    ensures var id := HrefId(href);
            && '/' !in id
            && |id| <= |href| && href[|href| - |id|..] == id
            && (|id| < |href| ==> href[|href| - |id| - 1] == '/')
  {
    LastSlashSpec(href);
  }

  /** The CSS selector `a[href^='/matches/']`. */
  predicate IsMatchLink(href: string) {
    MatchesPrefix <= href
  }

  /** `[a["href"].split("/")[-1] for a in soup.select("a[href^='/matches/']")]` */
  function LinkIds(hrefs: seq<string>): seq<string>
    decreases |hrefs|
  {
    if |hrefs| == 0 then []
    else (if IsMatchLink(hrefs[0]) then [HrefId(hrefs[0])] else []) + LinkIds(hrefs[1..])
  }

  /** The ids a response contributes: none unless its status is 200. */
  function PageIds(page: ListingPage): seq<string> {
    if page.status == StatusOk then LinkIds(page.hrefs) else []
  }

  /** `ids(1) + ids(2) + ... + ids(count)`: what the extend loop accumulates, in request order. */
  function Concat<T>(ids: int -> seq<T>, count: int): seq<T>
    decreases count
  {
    if count <= 0 then [] else Concat(ids, count - 1) + ids(count)
  }

  /** The ids each page number contributes. */
  function PageIdsOf(fetch: int -> ListingPage): int -> seq<string> {
    p => PageIds(fetch(p))
  }

  /** `all_match_ids` after requesting pages 1 .. count, in request order. */
  function AllIds(fetch: int -> ListingPage, count: int): seq<string> {
    Concat(PageIdsOf(fetch), count)
  }

  /** `set(xs)` */
  function Distinct<T>(xs: seq<T>): set<T> {
    set x | x in xs
  }

  /** `list(set(xs))`: the distinct elements, in an unspecified order. */
  method SetToSeq<T(==)>(s: set<T>) returns (r: seq<T>)
    ensures |r| == |s|
    ensures forall i, j :: 0 <= i < j < |r| ==> r[i] != r[j]
    ensures forall x :: x in r <==> x in s
  {
    r := [];
    var rest := s;
    while rest != {}
      invariant rest <= s
      invariant forall x :: x in r <==> x in s && x !in rest
      invariant forall i, j :: 0 <= i < j < |r| ==> r[i] != r[j]
      invariant |r| + |rest| == |s|
      decreases |rest|
    {
      var x :| x in rest;
      r := r + [x];
      rest := rest - {x};
    }
  }

  /**
   * `request_match_ids(N_ids)`: the resulting ids are distinct and are
   * exactly the ids extracted from pages 1 .. N_ids // 100 + 1; the result
   * is not truncated to N_ids.
   */
  method RequestMatchIds(nIds: int, fetch: int -> ListingPage) returns (ids: seq<string>)
    ensures forall i, j :: 0 <= i < j < |ids| ==> ids[i] != ids[j]
    ensures forall x :: x in ids <==> x in AllIds(fetch, PagesToScrape(nIds))
    ensures |ids| == |Distinct(AllIds(fetch, PagesToScrape(nIds)))|
  {
    var allMatchIds: seq<string> := [];
    var pagesToScrape := PagesToScrape(nIds);
    var page := 1;
    while page <= pagesToScrape
      invariant 1 <= page
      invariant page <= pagesToScrape + 1 || page == 1
      invariant allMatchIds == AllIds(fetch, page - 1)
    {
      var response := fetch(page);
      if response.status == StatusOk {
        allMatchIds := allMatchIds + LinkIds(response.hrefs);
      }
      page := page + 1;
    }
    assert allMatchIds == AllIds(fetch, PagesToScrape(nIds));
    ids := SetToSeq(Distinct(allMatchIds));
  }

  // ---------------------------------------------------------------------------

  /** The id of a link is the segment after its last '/'. */
  lemma HrefIdAfterSlash(path: string, id: string)
    requires '/' !in id
    ensures HrefId(path + "/" + id) == id
  {
    var h := path + "/" + id;
    LastSlashSpec(h);
    var r := LastSlash(h);
    assert h[|path|] == '/';
    assert forall i :: |path| < i < |h| ==> h[i] == id[i - |path| - 1];
    assert r == |path|;
    assert h[|path| + 1..] == id;
  }

  /** `/matches/<id>` yields `<id>`. */
  lemma MatchLinkId(id: string)
    requires '/' !in id
    ensures IsMatchLink(MatchesPrefix + id) && HrefId(MatchesPrefix + id) == id
  {
    assert MatchesPrefix + id == "/matches" + "/" + id;
    HrefIdAfterSlash("/matches", id);
  }

  /** An id is extracted from a list of links exactly when some `/matches/` link ends in it. */
  lemma LinkIdsMember(hrefs: seq<string>, id: string)
    ensures id in LinkIds(hrefs) <==>
            exists i :: 0 <= i < |hrefs| && IsMatchLink(hrefs[i]) && HrefId(hrefs[i]) == id
  {
    if id in LinkIds(hrefs) {
      LinkIdsSound(hrefs, id);
    }
    if exists i :: 0 <= i < |hrefs| && IsMatchLink(hrefs[i]) && HrefId(hrefs[i]) == id {
      var i :| 0 <= i < |hrefs| && IsMatchLink(hrefs[i]) && HrefId(hrefs[i]) == id;
      LinkIdsComplete(hrefs, i);
    }
  }

  /** Every extracted id comes from some `/matches/` link. */
  lemma {:induction false} LinkIdsSound(hrefs: seq<string>, id: string)
    requires id in LinkIds(hrefs)
    ensures exists i :: 0 <= i < |hrefs| && IsMatchLink(hrefs[i]) && HrefId(hrefs[i]) == id
    decreases |hrefs|
  {
    if !(IsMatchLink(hrefs[0]) && HrefId(hrefs[0]) == id) {
      var rest := hrefs[1..];
      assert id in LinkIds(rest);
      LinkIdsSound(rest, id);
      var i :| 0 <= i < |rest| && IsMatchLink(rest[i]) && HrefId(rest[i]) == id;
      assert hrefs[i + 1] == rest[i];
    }
  }

  /** Every `/matches/` link contributes its id. */
  lemma {:induction false} LinkIdsComplete(hrefs: seq<string>, i: int)
    requires 0 <= i < |hrefs| && IsMatchLink(hrefs[i])
    ensures HrefId(hrefs[i]) in LinkIds(hrefs)
    decreases i
  {
    if i > 0 {
      var rest := hrefs[1..];
      assert rest[i - 1] == hrefs[i];
      LinkIdsComplete(rest, i - 1);
    }
  }

  /**
   * An id is collected exactly when one of pages 1 .. count answered 200 and
   * carries it: pages that fail contribute nothing.
   */
  lemma AllIdsMember(fetch: int -> ListingPage, count: int, id: string)
    ensures id in AllIds(fetch, count) <==>
            exists p :: 1 <= p <= count && fetch(p).status == StatusOk && id in LinkIds(fetch(p).hrefs)
  {
    AllIdsPages(fetch, count, id);
    assert forall p :: id in PageIds(fetch(p)) <==> fetch(p).status == StatusOk && id in LinkIds(fetch(p).hrefs);
  }

  /** An id is collected exactly when one of pages 1 .. count contributes it. */
  lemma AllIdsPages(fetch: int -> ListingPage, count: int, id: string)
    ensures id in AllIds(fetch, count) <==> exists p :: 1 <= p <= count && id in PageIds(fetch(p))
  {
    var f := PageIdsOf(fetch);
    if id in Concat(f, count) {
      ConcatSound(f, count, id);
      var p :| 1 <= p <= count && id in f(p);
      assert id in PageIds(fetch(p));
    }
    if exists p :: 1 <= p <= count && id in PageIds(fetch(p)) {
      var p :| 1 <= p <= count && id in PageIds(fetch(p));
      assert id in f(p);
      ConcatComplete(f, count, p, id);
    }
  }

  /** Every element of a concatenation comes from one of its parts. */
  lemma {:induction false} ConcatSound<T>(ids: int -> seq<T>, count: int, x: T)
    requires x in Concat(ids, count)
    ensures exists p :: 1 <= p <= count && x in ids(p)
    decreases count
  {
    if x !in ids(count) {
      ConcatSound(ids, count - 1, x);
    }
  }

  /** Every element of one of the parts is in the concatenation. */
  lemma {:induction false} ConcatComplete<T>(ids: int -> seq<T>, count: int, p: int, x: T)
    requires 1 <= p <= count && x in ids(p)
    ensures x in Concat(ids, count)
    decreases count
  {
    if p < count {
      ConcatComplete(ids, count - 1, p, x);
    }
  }
}
