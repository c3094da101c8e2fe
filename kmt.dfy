/**
 * The paginated crawl of scrape.py (`scrape_kmt`): fetch page after page,
 * turn every anchor labelled "details" into a record, stop after `max_pages`
 * pages or after two pages in a row without such an anchor, and fall back to
 * splitting the page text while no record has been found yet.
 *
 * Fetching and HTML parsing are inputs: a fetch is a function from URL to an
 * optional parsed page (None is a failed request), `urljoin` is an arbitrary
 * function `join`.
 */
module Kmt {
  import opened Wrappers
  import opened Text
  import opened Web

  /**
   * The element a matched anchor's record text comes from: its nearest
   * enclosing tr, div, li or article, else its parent. `text` is the
   * element's `get_text(" ", strip=True)`; `firstHref` is the `href` of the
   * first anchor inside it that has one (`row.find("a", href=True)`).
   */
  datatype Container = Container(text: string, firstHref: Option<string>)

  /** An anchor of the page: its caption (`get_text(strip=True)`), its `href` attribute, its container. */
  datatype Anchor = Anchor(caption: string, href: Option<string>, container: Option<Container>)

  /** A fetched and parsed listing page: its anchors in document order and its full text. */
  datatype Page = Page(anchors: seq<Anchor>, text: string)

  /** One emitted listing record. */
  datatype Record = Record(text: string, detailsUrl: string, pageUrl: string)

  /** A page together with the URL it was fetched from. */
  datatype Visit = Visit(url: string, page: Page)

  type Fetch = string -> Option<Page>

  // ---------------------------------------------------------------------------
  // Matching anchors

  /** `a.get_text(strip=True).lower() == "details"`. */
  predicate IsDetailsAnchor(a: Anchor) {
    Lower(a.caption) == "details"
  }

  /** The label test is case-insensitive, letter by letter. */
  lemma DetailsLabelIff(a: Anchor)
    ensures IsDetailsAnchor(a) <==>
      |a.caption| == 7 && forall i :: 0 <= i < 7 ==> LowerChar(a.caption[i]) == ["details"[i]]
  {
    LowerEqualsIff(a.caption, "details");
  }

  /** The anchors of a page whose label is "details", in document order. */
  function Matches(anchors: seq<Anchor>): (r: seq<Anchor>)
    ensures |r| <= |anchors|
  {
    if anchors == [] then []
    else MatchIfDetails(anchors[0]) + Matches(anchors[1..])
  }

  /** What anchor `a` contributes to the matches: itself if it is labelled "details", else nothing. */
  function MatchIfDetails(a: Anchor): seq<Anchor>
  {
    if IsDetailsAnchor(a) then [a] else []
  }

  /** The matched anchors are exactly the page's anchors labelled "details". */
  lemma {:induction false} MatchesMembers(anchors: seq<Anchor>)
    ensures forall a :: a in Matches(anchors) <==> a in anchors && IsDetailsAnchor(a)
  {
    if anchors != [] {
      MatchesMembers(anchors[1..]);
      assert forall a :: a in anchors <==> a == anchors[0] || a in anchors[1..];
    }
  }

  /** Matching keeps document order. */
  lemma {:induction false} MatchesAppend(a: seq<Anchor>, b: seq<Anchor>)
    ensures Matches(a + b) == Matches(a) + Matches(b)
  {
    if a == [] {
      assert a + b == b;
    } else {
      assert (a + b)[0] == a[0] && (a + b)[1..] == a[1..] + b;
      MatchesAppend(a[1..], b);
    }
  }

  // ---------------------------------------------------------------------------
  // One record per matched anchor

  /** `a.get("href") or ""`. */
  function HrefOf(a: Anchor): string {
    match a.href
    case Some(h) => h
    case None => ""
  }

  /** The container holds an anchor with an `href`. */
  predicate HasFallbackLink(a: Anchor) {
    a.container.Some? && a.container.value.firstHref.Some?
  }

  /** The `href` of that anchor. */
  function FallbackHref(a: Anchor): string
    requires HasFallbackLink(a)
  {
    a.container.value.firstHref.value
  }

  /**
   * The record's link: the anchor's own `href` resolved against the page;
   * when that is empty, the first `href` in the container; else "".
   * The source tests the resolved link, not the `href`, before falling back.
   */
  function LinkFor(a: Anchor, pageUrl: string, join: Join): (link: string)
    ensures HrefOf(a) != "" && join(pageUrl, HrefOf(a)) != "" ==> link == join(pageUrl, HrefOf(a))
    ensures HrefOf(a) == "" && HasFallbackLink(a) ==> link == join(pageUrl, FallbackHref(a))
    ensures HrefOf(a) != "" && join(pageUrl, HrefOf(a)) == "" && HasFallbackLink(a) ==>
      link == join(pageUrl, FallbackHref(a))
    ensures HrefOf(a) == "" && !HasFallbackLink(a) ==> link == ""
    ensures link == "" || link == join(pageUrl, HrefOf(a)) ||
      (HasFallbackLink(a) && link == join(pageUrl, FallbackHref(a)))
  {
    var href := HrefOf(a);
    var link := if href != "" then join(pageUrl, href) else "";
    if link == "" && HasFallbackLink(a) then join(pageUrl, FallbackHref(a)) else link
  }

  /** The record built for a matched anchor on the page at `pageUrl`. */
  function RecordFor(a: Anchor, pageUrl: string, join: Join): (r: Record)
    ensures r.pageUrl == pageUrl
    ensures r.detailsUrl == LinkFor(a, pageUrl, join)
  {
    var text := if a.container.Some? then NormalizeSpace(a.container.value.text) else "";
    Record(text, LinkFor(a, pageUrl, join), pageUrl)
  }

  /**
   * A record's text is its container's text, whitespace-normalised: same
   * non-blank characters, single spaces, no blank ends; "" without a container.
   */
  lemma RecordText(a: Anchor, pageUrl: string, join: Join)
    ensures IsNormalized(RecordFor(a, pageUrl, join).text)
    ensures a.container.Some? ==> NonSpace(RecordFor(a, pageUrl, join).text) == NonSpace(a.container.value.text)
    ensures a.container.Some? ==> RecordFor(a, pageUrl, join).text == JoinWith(" ", Words(a.container.value.text))
    ensures a.container.None? ==> RecordFor(a, pageUrl, join).text == ""
  {
    if a.container.Some? {
      var t := NormalizeSpace(a.container.value.text);
      assert RecordFor(a, pageUrl, join).text == t;
    } else {
      assert IsNormalized("");
    }
  }

  /** The records of a page's matched anchors, one per anchor, in order. */
  function PageRecords(matches: seq<Anchor>, pageUrl: string, join: Join): seq<Record>
  {
    seq(|matches|, i requires 0 <= i < |matches| => RecordFor(matches[i], pageUrl, join))
  }

  /**
   * Of a "Details" anchor, a "Help" anchor and a "DETAILS" anchor, the first
   * and the last match, in document order.
   */
  lemma TwoDetailsRows(row1: Container, row2: Container)
    ensures Matches([Anchor("Details", Some("/r/1"), Some(row1)),
                     Anchor("Help", Some("/help"), None),
                     Anchor("DETAILS", Some("/r/2"), Some(row2))])
         == [Anchor("Details", Some("/r/1"), Some(row1)), Anchor("DETAILS", Some("/r/2"), Some(row2))]
  {
    var a1 := Anchor("Details", Some("/r/1"), Some(row1));
    var a2 := Anchor("Help", Some("/help"), None);
    var a3 := Anchor("DETAILS", Some("/r/2"), Some(row2));
    LowerOfDetails();
    LowerOfHelp();
    LowerOfCapitalDetails();
    assert MatchIfDetails(a1) == [a1] && MatchIfDetails(a2) == [] && MatchIfDetails(a3) == [a3];
    assert Matches([a3]) == [a3];
    assert [a1, a2, a3][1..] == [a2, a3];
    assert [a2, a3][1..] == [a3];
  }

  // ---------------------------------------------------------------------------
  // The text fallback

  /** The stripped, non-empty pieces of the page text split on the word "Details". */
  function FallbackParts(page: Page): (r: seq<string>)
    ensures forall p :: p in r ==> p != "" && NoEdgeSpace(p)
    ensures |r| <= 1 + MatchCount(NormalizeSpace(page.text), 0)
  {
    SplitDetailsCount(NormalizeSpace(page.text));
    StrippedParts(SplitDetails(NormalizeSpace(page.text)))
  }

  /** `p[-200:]`. */
  function Snippet(p: string): (r: string)
    ensures |p| <= 200 ==> r == p
    ensures |p| > 200 ==> |r| == 200
    ensures r == p[|p| - |r|..]
  {
    if |p| <= 200 then p else p[|p| - 200..]
  }

  /** The records the fallback emits for a page. */
  function FallbackRecords(page: Page, pageUrl: string): seq<Record>
  {
    SnippetRecords(FallbackParts(page), pageUrl)
  }

  /** One link-less record per part, holding the part's last 200 characters. */
  function SnippetRecords(parts: seq<string>, pageUrl: string): seq<Record>
  {
    seq(|parts|, i requires 0 <= i < |parts| => Record(Snippet(parts[i]), "", pageUrl))
  }

  /**
   * `r` is the fallback record of part `p`: no link, the page's URL, and a
   * text of 1 to 200 characters that ends `p`.
   */
  predicate SnippetOf(r: Record, p: string, pageUrl: string) {
    r.detailsUrl == "" && r.pageUrl == pageUrl &&
    0 < |r.text| <= 200 && |r.text| <= |p| && r.text == p[|p| - |r.text|..]
  }

  /** Each snippet record is the snippet of its part. */
  lemma SnippetRecordsShape(parts: seq<string>, pageUrl: string)
    requires forall p :: p in parts ==> p != ""
    ensures |SnippetRecords(parts, pageUrl)| == |parts|
    ensures forall i :: 0 <= i < |parts| ==> SnippetOf(SnippetRecords(parts, pageUrl)[i], parts[i], pageUrl)
  {
    forall i | 0 <= i < |parts|
      ensures SnippetOf(SnippetRecords(parts, pageUrl)[i], parts[i], pageUrl)
    {
      assert parts[i] in parts;
    }
  }

  /**
   * The fallback emits one record per non-empty stripped piece of the page
   * text split on "Details", at most one per piece, and each is the snippet
   * of its part, a non-empty piece without blank ends.
   */
  lemma FallbackShape(page: Page, pageUrl: string)
    ensures |FallbackRecords(page, pageUrl)| == |FallbackParts(page)| <= |SplitDetails(NormalizeSpace(page.text))|
    ensures forall i :: 0 <= i < |FallbackParts(page)| ==>
      FallbackParts(page)[i] != "" && NoEdgeSpace(FallbackParts(page)[i]) &&
      SnippetOf(FallbackRecords(page, pageUrl)[i], FallbackParts(page)[i], pageUrl)
  {
    var parts := FallbackParts(page);
    SnippetRecordsShape(parts, pageUrl);
    forall i | 0 <= i < |parts|
      ensures parts[i] != "" && NoEdgeSpace(parts[i])
    {
      assert parts[i] in parts;
    }
  }

  // ---------------------------------------------------------------------------
  // The records after each page

  /**
   * The records once the page of `v` has been processed: one record per
   * matched anchor appended, then, if there is still no record at all, the
   * fallback records of this page.
   */
  function AfterPage(records: seq<Record>, v: Visit, join: Join): (r: seq<Record>)
    ensures records <= r
    ensures forall i :: |records| <= i < |r| ==> r[i].pageUrl == v.url
    ensures records != [] || Matches(v.page.anchors) != [] ==>
      r == records + PageRecords(Matches(v.page.anchors), v.url, join)
    ensures records == [] && Matches(v.page.anchors) == [] ==> r == FallbackRecords(v.page, v.url)
  {
    AfterAnchors(records, Matches(v.page.anchors), v.page, v.url, join)
  }

  /** `AfterPage` once the page's matched anchors are known. */
  function AfterAnchors(records: seq<Record>, matches: seq<Anchor>, page: Page, pageUrl: string, join: Join): seq<Record>
  {
    var r := records + PageRecords(matches, pageUrl, join);
    if r == [] then FallbackRecords(page, pageUrl) else r
  }

  /** The records after processing the pages of `vs` in order. */
  function RecordsAfter(vs: seq<Visit>, join: Join): seq<Record>
  {
    if vs == [] then [] else AfterPage(RecordsAfter(vs[..|vs| - 1], join), vs[|vs| - 1], join)
  }

  /** The record list only ever grows. */
  lemma {:induction false} RecordsGrow(vs: seq<Visit>, j: nat, join: Join)
    requires j <= |vs|
    ensures RecordsAfter(vs[..j], join) <= RecordsAfter(vs, join)
    decreases |vs|
  {
    if j < |vs| {
      var init := vs[..|vs| - 1];
      RecordsGrow(init, j, join);
      assert init[..j] == vs[..j];
    } else {
      assert vs[..j] == vs;
    }
  }

  /**
   * The records added while processing page `k` carry that page's URL, and
   * they come after those of every earlier page.
   */
  lemma RecordsOfPage(vs: seq<Visit>, k: nat, join: Join)
    requires k < |vs|
    ensures RecordsAfter(vs[..k], join) <= RecordsAfter(vs[..k + 1], join) <= RecordsAfter(vs, join)
    ensures forall i :: |RecordsAfter(vs[..k], join)| <= i < |RecordsAfter(vs[..k + 1], join)| ==>
      RecordsAfter(vs, join)[i].pageUrl == vs[k].url
  {
    var before, after := RecordsAfter(vs[..k], join), RecordsAfter(vs[..k + 1], join);
    assert vs[..k + 1][..k] == vs[..k] && vs[..k + 1][k] == vs[k];
    assert after == AfterPage(before, vs[k], join);
    RecordsGrow(vs, k + 1, join);
    forall i | |before| <= i < |after|
      ensures RecordsAfter(vs, join)[i].pageUrl == vs[k].url
    {
      assert RecordsAfter(vs, join)[i] == after[i];
    }
  }

  /** The records of the matched anchors of the pages of `ws`, page after page. */
  function AllPageRecords(ws: seq<Visit>, join: Join): seq<Record>
  {
    if ws == [] then []
    else
      var w := ws[|ws| - 1];
      AllPageRecords(ws[..|ws| - 1], join) + PageRecords(Matches(w.page.anchors), w.url, join)
  }

  lemma AppendInit<T>(vs: seq<T>, ws: seq<T>)
    requires ws != []
    ensures vs + ws == (vs + ws[..|ws| - 1]) + [ws[|ws| - 1]]
  {
  }

  /** Processing one more page. */
  lemma RecordsAfterSnoc(vs: seq<Visit>, w: Visit, join: Join)
    ensures RecordsAfter(vs + [w], join) == AfterPage(RecordsAfter(vs, join), w, join)
  {
    assert (vs + [w])[..|vs|] == vs;
  }

  /** Once there is a record, the fallback never runs again. */
  lemma {:induction false} NoFallbackOnceFound(vs: seq<Visit>, ws: seq<Visit>, join: Join)
    requires RecordsAfter(vs, join) != []
    ensures RecordsAfter(vs + ws, join) == RecordsAfter(vs, join) + AllPageRecords(ws, join)
    decreases |ws|
  {
    if ws == [] {
      assert vs + ws == vs;
    } else {
      var init, w := ws[..|ws| - 1], ws[|ws| - 1];
      NoFallbackOnceFound(vs, init, join);
      AppendInit(vs, ws);
      FoundStep(vs + init, w, vs + ws, join);
      var found, earlier, added :=
        RecordsAfter(vs, join), AllPageRecords(init, join), PageRecords(Matches(w.page.anchors), w.url, join);
      AllPageRecordsSnoc(ws, join, earlier, added);
      Regroup(RecordsAfter(vs + ws, join), RecordsAfter(vs + init, join), found, earlier, added, AllPageRecords(ws, join));
    }
  }

  lemma Regroup<T>(total: seq<T>, prior: seq<T>, found: seq<T>, earlier: seq<T>, added: seq<T>, all: seq<T>)
    requires prior == found + earlier && total == prior + added && all == earlier + added
    ensures total == found + all
  {
  }

  lemma AllPageRecordsSnoc(ws: seq<Visit>, join: Join, earlier: seq<Record>, added: seq<Record>)
    requires ws != [] && earlier == AllPageRecords(ws[..|ws| - 1], join)
    requires added == PageRecords(Matches(ws[|ws| - 1].page.anchors), ws[|ws| - 1].url, join)
    ensures AllPageRecords(ws, join) == earlier + added
  {
  }

  /** With a record already found, one more page only adds its anchors' records. */
  lemma FoundStep(vs: seq<Visit>, w: Visit, vs': seq<Visit>, join: Join)
    requires vs' == vs + [w] && RecordsAfter(vs, join) != []
    ensures RecordsAfter(vs', join) == RecordsAfter(vs, join) + PageRecords(Matches(w.page.anchors), w.url, join)
  {
    RecordsAfterSnoc(vs, w, join);
  }

  /** A page with a matched anchor leaves at least one record behind it. */
  lemma MatchedPageFound(vs: seq<Visit>, k: nat, join: Join)
    requires k < |vs| && Matches(vs[k].page.anchors) != []
    ensures RecordsAfter(vs[..k + 1], join) != []
  {
    assert vs[..k + 1][..k] == vs[..k];
    assert vs[..k + 1][k] == vs[k];
  }

  // ---------------------------------------------------------------------------
  // The pages a crawl requests

  /** `urljoin(base, str(index))`. */
  function PageUrl(join: Join, base: string, index: int): string {
    join(base, DecimalString(index))
  }

  /** The URL of each page index. */
  function PageUrls(join: Join, base: string): int -> string {
    index => PageUrl(join, base, index)
  }

  /** The page has no "details" anchor: what makes it count towards the empty streak. */
  predicate NoMatches(page: Page) {
    Matches(page.anchors) == []
  }

  /** The page at `url` was fetched and is empty by `isEmpty`. */
  predicate EmptyPage(fetch: Fetch, isEmpty: Page -> bool, url: string) {
    fetch(url).Some? && isEmpty(fetch(url).value)
  }

  /** Pages `j` and `j + 1` of `urls` are both empty. */
  predicate EmptyPair(fetch: Fetch, isEmpty: Page -> bool, urls: seq<string>, j: nat)
    requires j + 1 < |urls|
  {
    EmptyPage(fetch, isEmpty, urls[j]) && EmptyPage(fetch, isEmpty, urls[j + 1])
  }

  /** The last two pages requested were both empty: the streak reached 2. */
  predicate StreakStop(fetch: Fetch, isEmpty: Page -> bool, urls: seq<string>) {
    |urls| >= 2 && EmptyPair(fetch, isEmpty, urls, |urls| - 2)
  }

  /** No two consecutive empty pages occur before the last page. */
  predicate NoEarlierStop(fetch: Fetch, isEmpty: Page -> bool, urls: seq<string>) {
    forall j :: 0 <= j && j + 2 < |urls| ==> !EmptyPair(fetch, isEmpty, urls, j)
  }

  /** 1 when the last page of `urls` was empty, else 0: the streak the loop carries. */
  function LastEmpty(fetch: Fetch, isEmpty: Page -> bool, urls: seq<string>): nat {
    if urls != [] && EmptyPage(fetch, isEmpty, urls[|urls| - 1]) then 1 else 0
  }

  /** A request after a run with no streak of 2 keeps the earlier pages free of one. */
  lemma NoEarlierStopSnoc(fetch: Fetch, isEmpty: Page -> bool, urls: seq<string>, url: string)
    requires NoEarlierStop(fetch, isEmpty, urls) && !StreakStop(fetch, isEmpty, urls)
    ensures NoEarlierStop(fetch, isEmpty, urls + [url])
  {
    var urls' := urls + [url];
    forall j | 0 <= j && j + 2 < |urls'|
      ensures !EmptyPair(fetch, isEmpty, urls', j)
    {
      assert urls'[j] == urls[j] && urls'[j + 1] == urls[j + 1];
      assert EmptyPair(fetch, isEmpty, urls', j) == EmptyPair(fetch, isEmpty, urls, j);
    }
  }

  /**
   * The streak after one more fetched page: it reaches 2 exactly when the
   * last two pages are empty, and otherwise it is again `LastEmpty`.
   */
  lemma StreakStep(fetch: Fetch, isEmpty: Page -> bool, urls: seq<string>, url: string)
    requires fetch(url).Some?
    requires !StreakStop(fetch, isEmpty, urls)
    ensures isEmpty(fetch(url).value) && LastEmpty(fetch, isEmpty, urls) == 1 <==> StreakStop(fetch, isEmpty, urls + [url])
    ensures isEmpty(fetch(url).value) && LastEmpty(fetch, isEmpty, urls) == 0 ==> LastEmpty(fetch, isEmpty, urls + [url]) == 1
    ensures !isEmpty(fetch(url).value) ==> LastEmpty(fetch, isEmpty, urls + [url]) == 0
  {
    var urls' := urls + [url];
    assert urls'[|urls'| - 1] == url;
    if urls != [] {
      assert urls'[|urls'| - 2] == urls[|urls| - 1];
    }
  }

  /** Why a crawl ended: `max_pages` pages requested, a second empty page in a row, or a failed request. */
  datatype Stop = Exhausted | Streak | Failed

  /** The URLs a crawl requested, in order, and why it ended. */
  datatype Run = Run(requested: seq<string>, stop: Stop)

  /**
   * The rest of a crawl that is about to request page `index`, may still make
   * `left` requests, has just seen `streak` empty pages in a row, and has
   * requested `requested` so far.
   */
  function CrawlFrom(fetch: Fetch, isEmpty: Page -> bool, urlOf: int -> string, index: int, left: int, streak: nat,
                     requested: seq<string>): (run: Run)
    ensures requested <= run.requested
    ensures |run.requested| <= |requested| + (if left < 0 then 0 else left)
    ensures run.stop == Exhausted ==> |run.requested| == |requested| + (if left < 0 then 0 else left)
    ensures run.stop != Exhausted ==> |run.requested| > |requested|
    decreases left
  {
    if left <= 0 then Run(requested, Exhausted)
    else
      var url := urlOf(index);
      match fetch(url)
      case None => Run(requested + [url], Failed)
      case Some(page) =>
        var streak' := if isEmpty(page) then streak + 1 else 0;
        if streak' >= 2 then Run(requested + [url], Streak)
        else CrawlFrom(fetch, isEmpty, urlOf, index + 1, left - 1, streak', requested + [url])
  }

  /** A crawl whose next request fails stops there. */
  lemma CrawlFailsAt(fetch: Fetch, isEmpty: Page -> bool, urlOf: int -> string, index: int, left: int, streak: nat,
                     requested: seq<string>)
    requires left > 0 && fetch(urlOf(index)).None?
    ensures CrawlFrom(fetch, isEmpty, urlOf, index, left, streak, requested) == Run(requested + [urlOf(index)], Failed)
  {
  }

  /** A crawl whose next page is its second empty page in a row stops there. */
  lemma CrawlStreakAt(fetch: Fetch, isEmpty: Page -> bool, urlOf: int -> string, index: int, left: int, streak: nat,
                      requested: seq<string>)
    requires left > 0 && fetch(urlOf(index)).Some? && isEmpty(fetch(urlOf(index)).value) && streak >= 1
    ensures CrawlFrom(fetch, isEmpty, urlOf, index, left, streak, requested) == Run(requested + [urlOf(index)], Streak)
  {
  }

  /** Otherwise the crawl goes on from the next index with the updated streak. */
  lemma CrawlGoesOnAt(fetch: Fetch, isEmpty: Page -> bool, urlOf: int -> string, index: int, left: int, streak: nat,
                      requested: seq<string>, streak': nat)
    requires left > 0 && fetch(urlOf(index)).Some?
    requires streak' == if isEmpty(fetch(urlOf(index)).value) then streak + 1 else 0
    requires streak' < 2
    ensures CrawlFrom(fetch, isEmpty, urlOf, index, left, streak, requested)
         == CrawlFrom(fetch, isEmpty, urlOf, index + 1, left - 1, streak', requested + [urlOf(index)])
  {
  }

  /** Each further request is for the next index. */
  lemma {:induction false} CrawlIndices(fetch: Fetch, isEmpty: Page -> bool, urlOf: int -> string, index: int, left: int, streak: nat,
                                        requested: seq<string>)
    ensures forall k :: |requested| <= k < |CrawlFrom(fetch, isEmpty, urlOf, index, left, streak, requested).requested| ==>
      CrawlFrom(fetch, isEmpty, urlOf, index, left, streak, requested).requested[k] == urlOf(index + (k - |requested|))
    decreases left
  {
    var run := CrawlFrom(fetch, isEmpty, urlOf, index, left, streak, requested);
    if left > 0 {
      var url := urlOf(index);
      var requested' := requested + [url];
      if fetch(url).Some? {
        var streak' := if isEmpty(fetch(url).value) then streak + 1 else 0;
        if streak' < 2 {
          assert run == CrawlFrom(fetch, isEmpty, urlOf, index + 1, left - 1, streak', requested');
          CrawlIndices(fetch, isEmpty, urlOf, index + 1, left - 1, streak', requested');
          forall k | |requested| <= k < |run.requested|
            ensures run.requested[k] == urlOf(index + (k - |requested|))
          {
            if k == |requested| {
              assert run.requested[k] == requested'[k];
            } else {
              assert index + 1 + (k - |requested'|) == index + (k - |requested|);
            }
          }
        }
      }
    }
  }

  /** A crawl that starts with nothing requested asks for index `index + k` as its k-th request. */
  lemma CrawlIndicesFromStart(fetch: Fetch, isEmpty: Page -> bool, urlOf: int -> string, index: int, left: int)
    ensures forall k :: 0 <= k < |CrawlFrom(fetch, isEmpty, urlOf, index, left, 0, []).requested| ==>
      CrawlFrom(fetch, isEmpty, urlOf, index, left, 0, []).requested[k] == urlOf(index + k)
  {
    CrawlIndices(fetch, isEmpty, urlOf, index, left, 0, []);
  }

  /** Only the last request of a crawl can fail, and a failed request ends the crawl. */
  lemma {:induction false} CrawlFetches(fetch: Fetch, isEmpty: Page -> bool, urlOf: int -> string, index: int, left: int, streak: nat,
                                        requested: seq<string>)
    requires forall k :: 0 <= k < |requested| ==> fetch(requested[k]).Some?
    ensures forall k :: 0 <= k < |CrawlFrom(fetch, isEmpty, urlOf, index, left, streak, requested).requested| - 1 ==>
      fetch(CrawlFrom(fetch, isEmpty, urlOf, index, left, streak, requested).requested[k]).Some?
    ensures CrawlFrom(fetch, isEmpty, urlOf, index, left, streak, requested).stop == Failed <==>
      CrawlFrom(fetch, isEmpty, urlOf, index, left, streak, requested).requested != requested &&
      fetch(Last(CrawlFrom(fetch, isEmpty, urlOf, index, left, streak, requested).requested)).None?
    decreases left
  {
    var run := CrawlFrom(fetch, isEmpty, urlOf, index, left, streak, requested);
    if left > 0 {
      var url := urlOf(index);
      var requested' := requested + [url];
      if fetch(url).Some? {
        var streak' := if isEmpty(fetch(url).value) then streak + 1 else 0;
        if streak' < 2 {
          assert run == CrawlFrom(fetch, isEmpty, urlOf, index + 1, left - 1, streak', requested');
          CrawlFetches(fetch, isEmpty, urlOf, index + 1, left - 1, streak', requested');
          if run.requested == requested' {
            assert Last(run.requested) == url;
          }
        }
      }
    }
  }

  /**
   * A crawl ends on the streak exactly when its last two pages are empty,
   * and it never sees two empty pages in a row before its last page.
   */
  lemma {:induction false} CrawlStops(fetch: Fetch, isEmpty: Page -> bool, urlOf: int -> string, index: int, left: int,
                                      requested: seq<string>)
    requires NoEarlierStop(fetch, isEmpty, requested) && !StreakStop(fetch, isEmpty, requested)
    ensures NoEarlierStop(fetch, isEmpty, CrawlFrom(fetch, isEmpty, urlOf, index, left, LastEmpty(fetch, isEmpty, requested), requested).requested)
    ensures CrawlFrom(fetch, isEmpty, urlOf, index, left, LastEmpty(fetch, isEmpty, requested), requested).stop == Streak <==>
      CrawlFrom(fetch, isEmpty, urlOf, index, left, LastEmpty(fetch, isEmpty, requested), requested).requested != requested &&
      StreakStop(fetch, isEmpty, CrawlFrom(fetch, isEmpty, urlOf, index, left, LastEmpty(fetch, isEmpty, requested), requested).requested)
    decreases left
  {
    var streak := LastEmpty(fetch, isEmpty, requested);
    var run := CrawlFrom(fetch, isEmpty, urlOf, index, left, streak, requested);
    if left > 0 {
      var url := urlOf(index);
      var requested' := requested + [url];
      NoEarlierStopSnoc(fetch, isEmpty, requested, url);
      if fetch(url).Some? {
        var streak' := if isEmpty(fetch(url).value) then streak + 1 else 0;
        StreakStep(fetch, isEmpty, requested, url);
        if streak' < 2 {
          assert streak' == LastEmpty(fetch, isEmpty, requested');
          assert run == CrawlFrom(fetch, isEmpty, urlOf, index + 1, left - 1, streak', requested');
          CrawlStops(fetch, isEmpty, urlOf, index + 1, left - 1, requested');
        }
      } else {
        assert Last(requested') == url;
      }
    }
  }

  // ---------------------------------------------------------------------------
  // The crawl

  /** Dropping the element just appended gives back the sequence. */
  lemma DropLast<T>(s: seq<T>, x: T)
    ensures (s + [x])[..|s|] == s
  {
  }

  /** The last element of a non-empty sequence. */
  function Last<T>(s: seq<T>): T
    requires s != []
  {
    s[|s| - 1]
  }

  /** The fetched pages of `urls`, each with its URL; a failed request contributes no page. */
  function VisitsOf(fetch: Fetch, urls: seq<string>): (vs: seq<Visit>)
    ensures |vs| <= |urls|
  {
    if urls == [] then []
    else
      var url := Last(urls);
      VisitsOf(fetch, urls[..|urls| - 1]) + (match fetch(url) case None => [] case Some(page) => [Visit(url, page)])
  }

  /** When every request succeeded, there is one visit per URL, in order. */
  lemma {:induction false} VisitsOfFetched(fetch: Fetch, urls: seq<string>)
    requires forall k :: 0 <= k < |urls| ==> fetch(urls[k]).Some?
    ensures |VisitsOf(fetch, urls)| == |urls|
    ensures forall k :: 0 <= k < |urls| ==> VisitsOf(fetch, urls)[k] == Visit(urls[k], fetch(urls[k]).value)
  {
    if urls != [] {
      VisitsOfFetched(fetch, urls[..|urls| - 1]);
    }
  }

  /** `RecordsStep` for the records a loop holds before and after processing the page at `url`. */
  lemma RecordsStepped(fetch: Fetch, urls: seq<string>, url: string, join: Join, before: seq<Record>, after: seq<Record>)
    requires fetch(url).Some?
    requires before == RecordsAfter(VisitsOf(fetch, urls), join)
    requires after == AfterAnchors(before, Matches(fetch(url).value.anchors), fetch(url).value, url, join)
    ensures after == RecordsAfter(VisitsOf(fetch, urls + [url]), join)
  {
    RecordsStep(fetch, urls, url, join);
  }

  /** One more fetched page adds its visit at the end, and its records as `AfterPage` says. */
  lemma RecordsStep(fetch: Fetch, urls: seq<string>, url: string, join: Join)
    requires fetch(url).Some?
    ensures RecordsAfter(VisitsOf(fetch, urls + [url]), join)
         == AfterAnchors(RecordsAfter(VisitsOf(fetch, urls), join), Matches(fetch(url).value.anchors),
                         fetch(url).value, url, join)
  {
    var page := fetch(url).value;
    assert (urls + [url])[..|urls|] == urls;
    assert VisitsOf(fetch, urls + [url]) == VisitsOf(fetch, urls) + [Visit(url, page)];
    RecordsAfterSnoc(VisitsOf(fetch, urls), Visit(url, page), join);
  }

  /** The pages whose anchors were processed: all but the one that ended the streak. */
  function Processed(fetch: Fetch, urls: seq<string>): (r: seq<string>)
    ensures r <= urls
  {
    if StreakStop(fetch, NoMatches, urls) then urls[..|urls| - 1] else urls
  }

  /** What `scrape_kmt` did: the URLs it requested, in order, and its result. */
  datatype Crawl = Crawl(requested: seq<string>, result: Result<seq<Record>, FetchError>)

  /**
   * The whole of `scrape_kmt(start, max_pages)`: a failed request ends it
   * with that request's error; otherwise its records are those of the pages
   * it processed.
   */
  function Scrape(fetch: Fetch, join: Join, base: string, start: int, maxPages: int): Crawl
  {
    var run := CrawlFrom(fetch, NoMatches, PageUrls(join, base), start, maxPages, 0, []);
    Crawl(run.requested, Outcome(fetch, join, run))
  }

  /** What a finished crawl returns: the failed URL's error, or the records of the pages it processed. */
  function Outcome(fetch: Fetch, join: Join, run: Run): Result<seq<Record>, FetchError>
    requires run.stop != Exhausted ==> run.requested != []
  {
    match run.stop
    case Failed => Failure(FetchError(Last(run.requested)))
    case Streak => Success(RecordsAfter(VisitsOf(fetch, run.requested[..|run.requested| - 1]), join))
    case Exhausted => Success(RecordsAfter(VisitsOf(fetch, run.requested), join))
  }

  lemma PageRecordsSnoc(anchors: seq<Anchor>, j: nat, pageUrl: string, join: Join)
    requires j < |anchors|
    ensures PageRecords(anchors[..j + 1], pageUrl, join)
         == PageRecords(anchors[..j], pageUrl, join) + [RecordFor(anchors[j], pageUrl, join)]
  {
  }

  lemma SnippetRecordsSnoc(parts: seq<string>, k: nat, pageUrl: string)
    requires k < |parts|
    ensures SnippetRecords(parts, pageUrl)[..k + 1]
         == SnippetRecords(parts, pageUrl)[..k] + [Record(Snippet(parts[k]), "", pageUrl)]
  {
  }

  /** `for a in anchors: ... records.append(...)`: one record per matched anchor, in order. */
  method AppendAnchorRecords(records: seq<Record>, anchors: seq<Anchor>, pageUrl: string, join: Join)
    returns (result: seq<Record>)
    ensures result == records + PageRecords(anchors, pageUrl, join)
  {
    result := records;
    var j := 0;
    while j < |anchors|
      invariant 0 <= j <= |anchors|
      invariant result == records + PageRecords(anchors[..j], pageUrl, join)
    {
      result := result + [RecordFor(anchors[j], pageUrl, join)];
      PageRecordsSnoc(anchors, j, pageUrl, join);
      j := j + 1;
    }
    assert anchors[..j] == anchors;
  }

  /** `for p in parts: ... records.append(...)` on an empty list: one snippet record per part. */
  method SnippetLoop(parts: seq<string>, pageUrl: string) returns (result: seq<Record>)
    ensures result == SnippetRecords(parts, pageUrl)
  {
    result := [];
    var k := 0;
    while k < |parts|
      invariant 0 <= k <= |parts|
      invariant result == SnippetRecords(parts, pageUrl)[..k]
    {
      result := result + [Record(Snippet(parts[k]), "", pageUrl)];
      SnippetRecordsSnoc(parts, k, pageUrl);
      k := k + 1;
    }
  }

  /**
   * The body of the crawl loop after the streak test: one record per matched
   * anchor, then the text fallback while there is no record at all.
   */
  method ProcessPage(records: seq<Record>, pageUrl: string, page: Page, anchors: seq<Anchor>, join: Join)
    returns (result: seq<Record>)
    ensures result == AfterAnchors(records, anchors, page, pageUrl, join)
  {
    result := AppendAnchorRecords(records, anchors, pageUrl, join);
    if result == [] {
      result := SnippetLoop(FallbackParts(page), pageUrl);
    }
  }

  /** `scrape_kmt(start, max_pages)` makes at most `max_pages` requests, and none when that is not positive. */
  lemma ScrapeRequestCount(fetch: Fetch, join: Join, base: string, start: int, maxPages: int,
                           requested: seq<string>, result: Result<seq<Record>, FetchError>)
    requires Crawl(requested, result) == Scrape(fetch, join, base, start, maxPages)
    ensures maxPages >= 0 ==> |requested| <= maxPages
    ensures maxPages <= 0 ==> requested == [] && result == Success([])
  {
  }

  /** The k-th request of `scrape_kmt(start, max_pages)` is for page index `start + k`. */
  lemma ScrapeRequestUrls(fetch: Fetch, join: Join, base: string, start: int, maxPages: int,
                          requested: seq<string>, result: Result<seq<Record>, FetchError>)
    requires Crawl(requested, result) == Scrape(fetch, join, base, start, maxPages)
    ensures forall k :: 0 <= k < |requested| ==> requested[k] == PageUrl(join, base, start + k)
  {
    CrawlIndicesFromStart(fetch, NoMatches, PageUrls(join, base), start, maxPages);
    PageUrlsApplied(join, base, start, requested);
  }

  lemma PageUrlsApplied(join: Join, base: string, start: int, urls: seq<string>)
    requires forall k :: 0 <= k < |urls| ==> urls[k] == PageUrls(join, base)(start + k)
    ensures forall k :: 0 <= k < |urls| ==> urls[k] == PageUrl(join, base, start + k)
  {
  }

  /**
   * How `scrape_kmt` fails: only its last request can fail, and a failed
   * request ends it with an error naming that URL.
   */
  lemma ScrapeFailure(fetch: Fetch, join: Join, base: string, start: int, maxPages: int,
                      requested: seq<string>, result: Result<seq<Record>, FetchError>)
    requires Crawl(requested, result) == Scrape(fetch, join, base, start, maxPages)
    ensures forall k :: 0 <= k < |requested| - 1 ==> fetch(requested[k]).Some?
    ensures result.Failure? <==> requested != [] && fetch(Last(requested)).None?
    ensures result.Failure? ==> result.error == FetchError(Last(requested))
  {
    CrawlFetches(fetch, NoMatches, PageUrls(join, base), start, maxPages, 0, []);
  }

  /**
   * How `scrape_kmt` ends otherwise: it never sees two empty pages in a row
   * before its last request; it ends before `max_pages` requests only on a
   * second empty page in a row, which is then not processed; and its records
   * are those of the processed pages, as `RecordsAfter` gives them.
   */
  lemma ScrapeSuccess(fetch: Fetch, join: Join, base: string, start: int, maxPages: int,
                      requested: seq<string>, result: Result<seq<Record>, FetchError>)
    requires Crawl(requested, result) == Scrape(fetch, join, base, start, maxPages)
    ensures NoEarlierStop(fetch, NoMatches, requested)
    ensures result.Success? && |requested| < maxPages ==> StreakStop(fetch, NoMatches, requested)
    ensures result.Success? ==> result.value == RecordsAfter(VisitsOf(fetch, Processed(fetch, requested)), join)
  {
    var run := CrawlFrom(fetch, NoMatches, PageUrls(join, base), start, maxPages, 0, []);
    CrawlStops(fetch, NoMatches, PageUrls(join, base), start, maxPages, []);
    if result.Success? {
      OutcomeRecords(fetch, join, run, result.value);
    }
  }

  /** A crawl that did not fail returns the records of the pages it processed. */
  lemma OutcomeRecords(fetch: Fetch, join: Join, run: Run, records: seq<Record>)
    requires run.stop != Exhausted ==> run.requested != []
    requires run.stop == Streak <==> run.requested != [] && StreakStop(fetch, NoMatches, run.requested)
    requires Outcome(fetch, join, run) == Success(records)
    ensures records == RecordsAfter(VisitsOf(fetch, Processed(fetch, run.requested)), join)
  {
  }

  /**
   * `scrape_kmt(start, max_pages)`. Besides the result it returns the URLs it
   * requested, in order; both are those of `Scrape`, so `ScrapeRequestCount`,
   * `ScrapeRequestUrls`, `ScrapeFailure` and `ScrapeSuccess` hold of them.
   */
  method ScrapeKmt(fetch: Fetch, join: Join, base: string, start: int, maxPages: int)
    returns (requested: seq<string>, result: Result<seq<Record>, FetchError>)
    ensures Crawl(requested, result) == Scrape(fetch, join, base, start, maxPages)
  {
    var stop, records;
    requested, stop, records := CrawlPages(fetch, join, PageUrls(join, base), start, maxPages);
    if stop == Failed {
      result := Failure(FetchError(Last(requested)));
    } else {
      result := Success(records);
    }
    ScrapeExits(fetch, join, base, start, maxPages, requested, stop, records);
  }

  /**
   * The `for` loop of `scrape_kmt`: the URLs it requested, why it ended (a
   * failed request raises out of it), and the records it built.
   */
  method CrawlPages(fetch: Fetch, join: Join, urlOf: int -> string, start: int, maxPages: int)
    returns (requested: seq<string>, stop: Stop, records: seq<Record>)
    ensures CrawlFrom(fetch, NoMatches, urlOf, start, maxPages, 0, []) == Run(requested, stop)
    ensures stop == Streak ==> records == RecordsAfter(VisitsOf(fetch, requested[..|requested| - 1]), join)
    ensures stop == Exhausted ==> records == RecordsAfter(VisitsOf(fetch, requested), join)
  {
    ghost var run := CrawlFrom(fetch, NoMatches, urlOf, start, maxPages, 0, []);
    records := [];
    var consecutiveEmpty: nat := 0;
    var index := start;
    requested := [];
    var i := 0;
    ghost var left := maxPages;
    while i < maxPages
      invariant left == maxPages - i
      invariant CrawlFrom(fetch, NoMatches, urlOf, index, left, consecutiveEmpty, requested) == run
      invariant records == RecordsAfter(VisitsOf(fetch, requested), join)
    {
      var ended: Option<Stop>;
      requested, consecutiveEmpty, ended, records :=
        VisitPage(fetch, join, urlOf, index, left, consecutiveEmpty, requested, records);
      if ended.Some? {
        return requested, ended.value, records;
      }
      index := index + 1;
      i := i + 1;
      left := left - 1;
    }
    stop := Exhausted;
  }

  /**
   * One pass of the `for` body: request page `index`; stop on a failed
   * request or on the second empty page in a row; otherwise process the page.
   */
  method VisitPage(fetch: Fetch, join: Join, urlOf: int -> string, index: int, ghost left: int, streak: nat,
                   requested: seq<string>, records: seq<Record>)
    returns (requested': seq<string>, streak': nat, ended: Option<Stop>, records': seq<Record>)
    requires left > 0
    requires records == RecordsAfter(VisitsOf(fetch, requested), join)
    ensures requested' == requested + [urlOf(index)]
    ensures ended != Some(Exhausted)
    ensures ended.Some? ==> CrawlFrom(fetch, NoMatches, urlOf, index, left, streak, requested) == Run(requested', ended.value)
    ensures ended == Some(Streak) ==> records' == RecordsAfter(VisitsOf(fetch, requested'[..|requested'| - 1]), join)
    ensures ended.None? ==> (CrawlFrom(fetch, NoMatches, urlOf, index, left, streak, requested)
                             == CrawlFrom(fetch, NoMatches, urlOf, index + 1, left - 1, streak', requested'))
    ensures ended.None? ==> records' == RecordsAfter(VisitsOf(fetch, requested'), join)
  {
    var pageUrl := urlOf(index);
    requested' := requested + [pageUrl];
    records' := records;
    var response := fetch(pageUrl);
    if response.None? {
      CrawlFailsAt(fetch, NoMatches, urlOf, index, left, streak, requested);
      return requested', streak, Some(Failed), records';
    }
    var page := response.value;
    var anchors := Matches(page.anchors);
    assert NoMatches(page) <==> anchors == [];
    if anchors == [] {
      streak' := streak + 1;
      if streak' >= 2 {
        CrawlStreakAt(fetch, NoMatches, urlOf, index, left, streak, requested);
        DropLast(requested, pageUrl);
        return requested', streak', Some(Streak), records';
      }
    } else {
      streak' := 0;
    }
    CrawlGoesOnAt(fetch, NoMatches, urlOf, index, left, streak, requested, streak');
    records' := ProcessPage(records, pageUrl, page, anchors, join);
    RecordsStepped(fetch, requested, pageUrl, join, records, records');
    ended := None;
  }

  /** How `Scrape` reads off a finished crawl: the failed URL, or the records of the pages processed. */
  lemma ScrapeExits(fetch: Fetch, join: Join, base: string, start: int, maxPages: int,
                    requested: seq<string>, stop: Stop, records: seq<Record>)
    requires CrawlFrom(fetch, NoMatches, PageUrls(join, base), start, maxPages, 0, []) == Run(requested, stop)
    requires stop == Streak ==> records == RecordsAfter(VisitsOf(fetch, requested[..|requested| - 1]), join)
    requires stop == Exhausted ==> records == RecordsAfter(VisitsOf(fetch, requested), join)
    ensures stop == Failed ==> Scrape(fetch, join, base, start, maxPages) == Crawl(requested, Failure(FetchError(Last(requested))))
    ensures stop != Failed ==> Scrape(fetch, join, base, start, maxPages) == Crawl(requested, Success(records))
  {
  }

  /** A site whose every page has neither anchors nor text. */
  function BlankSite(url: string): Option<Page>
  {
    Some(Page([], ""))
  }

  /** A blank page gives no records: it has no anchors, and its text no part. */
  lemma BlankPageNoRecords(url: string, join: Join)
    ensures RecordsAfter([Visit(url, Page([], ""))], join) == []
  {
    assert SplitDetails(NormalizeSpace("")) == [""];
    assert StrippedParts([""]) == [];
  }

  /** On a site of blank pages the crawl requests two pages and stops on the streak. */
  lemma BlankSiteCrawl(urlOf: int -> string, start: int, maxPages: int)
    requires maxPages >= 2
    ensures CrawlFrom(BlankSite, NoMatches, urlOf, start, maxPages, 0, []) == Run([urlOf(start), urlOf(start + 1)], Streak)
  {
    assert NoMatches(Page([], ""));
    assert CrawlFrom(BlankSite, NoMatches, urlOf, start + 1, maxPages - 1, 1, [urlOf(start)])
        == Run([urlOf(start), urlOf(start + 1)], Streak);
  }

  /**
   * On a site of blank pages, two empty pages in a row end the crawl after
   * exactly two requests, and the fallback finds no text, so no records.
   */
  lemma BlankSiteStopsAfterTwo(join: Join, base: string, start: int, maxPages: int)
    requires maxPages >= 2
    ensures Scrape(BlankSite, join, base, start, maxPages).requested
         == [PageUrl(join, base, start), PageUrl(join, base, start + 1)]
    ensures Scrape(BlankSite, join, base, start, maxPages).result == Success([])
  {
    var urlOf := PageUrls(join, base);
    var u0, u1 := urlOf(start), urlOf(start + 1);
    BlankSiteCrawl(urlOf, start, maxPages);
    assert [u0, u1][..1] == [u0];
    assert VisitsOf(BlankSite, [u0]) == [Visit(u0, Page([], ""))];
    BlankPageNoRecords(u0, join);
  }
}
