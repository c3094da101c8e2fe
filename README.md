# scrape.py in Dafny

A model of the two scrapers in `scrape.py` and the string helpers they share.

**The paginated reaction listing (`scrape_kmt`).** It requests page after page
`urljoin(base, str(start))`, with `start` counting up. On each page it keeps the
anchors whose caption, lower-cased, is `details`, and turns each into a record
with these fields:
- `text`: the whitespace-normalised text of the anchor's row;
- `details_url`: the anchor's link, or else the first link in its row;
- `page_url`: the page's URL.

While no record has been found yet, it also splits the page's whole text on the
word `Details`. Each non-blank piece becomes a record holding the piece's last
200 characters. The crawl stops in three ways:
- after `max_pages` requests;
- on the second page in a row without a matching anchor, which is then not processed;
- on a failed request, which ends the run with an error.

**The Open Reaction Database home page (`scrape_ord`).** It fetches one page and
returns a snapshot with three parts:
- the links whose `href`, lower-cased, contains one of `search`, `dataset`,
  `data`, `doi` or `record`, each with its text and its URL resolved against the
  base;
- the `<meta>` name/content pairs whose name and content are both non-empty;
- the title text, or `""` when there is no title.

Files:

- `wrappers.dfy`: `Option` and `Result`.
- `web.dfy` (module `Web`): what both scrapers share about the web, the failed
  request `FetchError` and the type `Join` of `urljoin`.
- `text.dfy` (module `Text`). The string helpers:
  - `normalize_space`, built from `re.sub(r"\s+", " ", s)` and `str.strip` over
    Python's whitespace set;
  - lower-casing;
  - `str(int)` and its inverse;
  - `re.split(r"\bDetails\b", s)`.
- `kmt.dfy` (module `Kmt`). `scrape_kmt` has three parts here:
  - `ScrapeKmt` and `CrawlPages`, the crawl loop as imperative methods, with
    `VisitPage` one pass of the loop body;
  - `Scrape`, the pure function they are proved equal to, built on the crawl
    `CrawlFrom` and the record list `RecordsAfter`;
  - lemmas about what `Scrape` promises.

  The two inner `for` loops are the methods `AppendAnchorRecords` and
  `SnippetLoop`, each proved equal to a function.
- `ord.dfy` (module `Ord`): `scrape_ord` as pure functions, with lemmas about the
  filters.

Fetching is an input in both scrapers. A fetch is a function from URL to an
optional parsed page, and `None` stands for a request that raised. `urljoin` is
an arbitrary total function `join` (see "Left out"). Each parsed page is given as the parts of the tree
the scraper reads:
- the anchors, each with its caption, `href` and row;
- the page text;
- the metas;
- the title's text nodes.

## Model

Functions that only compute carry no contract of their own: `Text.Words`,
`Text.Lower`, `Text.DecimalString`, `Text.CutAt`, `Kmt.PageRecords`,
`Kmt.SnippetRecords`, `Kmt.FallbackRecords`, `Kmt.PageUrl`,
`Kmt.AfterAnchors`, `Kmt.RecordsAfter`, `Kmt.Scrape`, `Kmt.Outcome`,
`Kmt.BlankSite`, `Ord.LinkOf`, `Ord.KeepMeta`, `Ord.GetText` and
`Ord.HasKeyword`. The rows name the lemmas that state their properties.

| member | source | states |
|---|---|---|
| Text.NormalizeSpace | scrape.py:20-21 | the result is `" ".join(s.split())`: the words of `s`, in order, separated by single plain spaces. So it has no whitespace at either end, only single plain spaces, and the input's non-whitespace characters in order |
| Text.NormalizeKeepsWords | scrape.py:20-21 | normalising keeps the words of `s`, in order |
| Text.WordsAreWords | scrape.py:21 | every word of `s.split()` (`Words`) is non-empty and holds no whitespace |
| Text.WordsOfJoin | scrape.py:21 | splitting words joined by single spaces gives the same words back |
| Text.JoinWith | scrape.py:65 | `sep.join(parts)` begins with the first part and ends with the last, and is "" for no parts |
| Text.NormalizeIdempotent | scrape.py:20-21 | normalising an already normalised string changes nothing: normalising twice is normalising once |
| Text.NormalizedFixpoint | scrape.py:20-21 | a string without edge whitespace and with only single plain spaces is its own normal form |
| Text.NormalizeBlank | scrape.py:20-21 | the normal form is empty exactly when the input is all whitespace |
| Text.CollapseSpaces | scrape.py:21 | `re.sub(r"\s+", " ", s)` leaves only single plain spaces, starts with whitespace exactly when the input does, and keeps the non-whitespace characters |
| Text.CollapseJoinsWords | scrape.py:21 | `re.sub(r"\s+", " ", s)` is the words of `s` joined by single spaces, with one space in front when `s` starts with whitespace and one at the end when `s` has a word and ends with whitespace |
| Text.StripCollapseJoinsWords | scrape.py:21 | stripping the substitution's result leaves exactly the words joined by single spaces |
| Text.CollapseFixpoint | scrape.py:21 | the substitution leaves a single-spaced string unchanged |
| Text.TrimLeft | scrape.py:21 | `lstrip` removes exactly a whitespace prefix and leaves no leading whitespace |
| Text.TrimRight | scrape.py:21 | `rstrip` removes exactly a whitespace suffix and leaves no trailing whitespace |
| Text.Strip | scrape.py:21 | `strip` leaves no whitespace at either end, is no longer than its input and keeps the non-whitespace characters |
| Text.StripSlice | scrape.py:21 | what `strip` keeps is one contiguous slice of the input |
| Text.StripSingleSpaced | scrape.py:21 | stripping a single-spaced string keeps it single-spaced |
| Text.StrippedParts | scrape.py:50 | every part of `[p.strip() for p in pieces if p.strip()]` is non-empty with no edge whitespace, and there are at most as many parts as pieces |
| Text.StrippedPartsSound | scrape.py:50 | every part is the stripped form of some piece |
| Text.StrippedPartsComplete | scrape.py:50 | every piece that is not blank contributes its stripped form |
| Text.StrippedPartsAppend | scrape.py:50 | the kept parts of two runs of pieces are the kept parts of each, in turn: order is kept |
| Text.LowerEqualsIff | scrape.py:31 | `s.lower() == t` holds exactly when the two have equal length and each character of `s` lower-cases to the matching character of `t` |
| Text.LowerOfDetails | scrape.py:31 | `"Details".lower() == "details"` |
| Text.LowerOfCapitalDetails | scrape.py:31 | `"DETAILS".lower() == "details"` |
| Text.Digits | scrape.py:28 | `str(n)` of a natural number is a non-empty digit string without a leading zero |
| Text.DecimalRoundTrip | scrape.py:28 | `int(str(n)) == n` for every integer, negative ones included |
| Text.DecimalInjective | scrape.py:28 | distinct page indices give distinct path segments |
| Text.SplitDetails | scrape.py:50 | `re.split` yields at least one piece |
| Text.SplitDetailsCount | scrape.py:50 | `re.split(r"\bDetails\b", s)` yields one piece more than there are matches of `\bDetails\b` |
| Text.SplitDetailsCuts | scrape.py:50 | every cut between two pieces lies at a match of `\bDetails\b`, and each cut starts at least one "Details" past the one before. The cuts are therefore distinct matches, and by `SplitDetailsCount` there are as many cuts as matches, so every match is a cut |
| Text.SplitFromCuts | scrape.py:50 | the scan that `SplitDetails` starts cuts only at matches of `\bDetails\b`, at advancing positions, from any point of the text on |
| Text.CutsCons | scrape.py:50 | both properties of the cuts carry over when the piece ending at a match is put in front of the later pieces |
| Text.SplitFromAtMatch | scrape.py:50 | at a match the split closes the current piece and starts the next one right after "Details" |
| Text.CutsConsMatch | scrape.py:50 | putting the piece that ends at a match in front of the later pieces keeps every cut on a match |
| Text.CutsConsAdvance | scrape.py:50 | putting a piece in front of the later pieces keeps the cuts advancing |
| Text.CutCons | scrape.py:50 | the first cut lies right after the first piece, and each later cut is the later pieces' cut moved past the first piece and one "Details" |
| Text.SplitFromJoin | scrape.py:50 | joining the pieces of a suffix scan with "Details" gives that suffix back |
| Text.SplitDetailsJoin | scrape.py:50 | `"Details".join(re.split(r"\bDetails\b", s)) == s`: the split loses only the separators |
| Kmt.DetailsLabelIff | scrape.py:31 | an anchor matches exactly when its caption has 7 characters that lower-case, one by one, to `details` |
| Kmt.Matches | scrape.py:31 | at most one match per anchor |
| Kmt.MatchesMembers | scrape.py:31 | the matched anchors are exactly the page's anchors whose caption lower-cases to `details` |
| Kmt.MatchesAppend | scrape.py:31 | matching keeps document order: the matches of two runs of anchors are the matches of each, in turn |
| Kmt.TwoDetailsRows | scrape.py:31 | of anchors captioned "Details", "Help" and "DETAILS", the first and the third match, in that order |
| Kmt.LinkFor | scrape.py:39-46 | the link is the anchor's `href` resolved against the page when that is non-empty. It is the row's first `href` when the anchor has no `href`, or when its resolved link is empty. Otherwise it is "". It is always one of these three |
| Kmt.RecordFor | scrape.py:38-47 | each anchor's record carries the page's URL and the link `LinkFor` chooses |
| Kmt.RecordText | scrape.py:40-41 | a record's text is its row's text in normal form: exactly `" ".join(text.split())` of the row, so the same words in the same order, with the same non-whitespace characters; it is "" for an anchor without a row |
| Kmt.Snippet | scrape.py:52 | `p[-200:]` is the last `min(len(p), 200)` characters of `p` |
| Kmt.FallbackParts | scrape.py:49-50 | every part is non-empty with no whitespace at either end, and there is at most one part more than there are matches of `\bDetails\b` in the normalised page text |
| Kmt.SnippetRecordsShape | scrape.py:51-53 | one record per part, in order, each with an empty `details_url`, the page's URL and a text of 1 to 200 characters that ends its part |
| Kmt.FallbackShape | scrape.py:48-53 | the fallback records number the non-blank pieces of the page text split on "Details", at most one per piece. Each part is non-empty with no edge whitespace, and its record is its snippet |
| Kmt.AfterPage | scrape.py:38-53 | processing a page only appends, and every appended record carries the page's URL. With a match or earlier records it appends one record per match; otherwise the fallback records are the whole list |
| Kmt.RecordsGrow | scrape.py:38-53 | the record list after any earlier page is a prefix of the list after a later one |
| Kmt.RecordsOfPage | scrape.py:38-53 | the records page k adds come after those of all earlier pages and all carry page k's URL |
| Kmt.RecordsAfterSnoc | scrape.py:27-54 | one more page extends the records as `AfterPage` says |
| Kmt.NoFallbackOnceFound | scrape.py:48-53 | once there is a record, later pages add exactly the records of their matched anchors: the fallback never runs again |
| Kmt.MatchedPageFound | scrape.py:38-48 | after a page with a matched anchor there is at least one record |
| Kmt.NoEarlierStopSnoc | scrape.py:32-35 | a request after a run without two empty pages in a row keeps the earlier pages free of such a pair |
| Kmt.StreakStep | scrape.py:32-37 | after one more fetched page, the empty streak reaches 2 exactly when that page and the one before it are both empty. Otherwise the streak is 1 after an empty page and 0 after a page with a match |
| Kmt.CrawlFrom | scrape.py:27-37 | the requests only grow, and a crawl makes at most as many requests as it has left. It makes exactly that many when it runs out, and at least one more when it ends on a failure or the streak |
| Kmt.CrawlFailsAt | scrape.py:29 | a crawl whose next request fails stops there, with that URL as its last request |
| Kmt.CrawlStreakAt | scrape.py:32-35 | a crawl whose next page is its second empty page in a row stops there on the streak |
| Kmt.CrawlGoesOnAt | scrape.py:27-37 | otherwise the crawl goes on from the next index, with one request fewer left and the streak updated |
| Kmt.CrawlIndices | scrape.py:27-54 | each further request of a crawl is for the next page index |
| Kmt.CrawlIndicesFromStart | scrape.py:27-54 | the k-th request of a crawl from index `start` is for index `start + k` |
| Kmt.CrawlFetches | scrape.py:29 | only the last request of a crawl can fail, and the crawl ends on a failure exactly when its last request failed |
| Kmt.CrawlStops | scrape.py:32-37 | a crawl ends on the streak exactly when its last two pages are empty, and no two consecutive empty pages occur before that |
| Kmt.VisitsOfFetched | scrape.py:29-30 | when every request succeeded there is one fetched page per URL, in order |
| Kmt.RecordsStep | scrape.py:38-53 | processing one more fetched page extends the records of the pages so far as `AfterAnchors` says |
| Kmt.AppendAnchorRecords | scrape.py:38-47 | the loop appends one record per matched anchor, in order, to the existing list |
| Kmt.SnippetLoop | scrape.py:51-53 | the loop yields one snippet record per part, in order |
| Kmt.ProcessPage | scrape.py:38-53 | the loop body after the streak test produces exactly the records `AfterAnchors` specifies |
| Kmt.ScrapeRequestCount | scrape.py:27 | at most `max_pages` requests, and none, with an empty result, when `max_pages` is not positive |
| Kmt.ScrapeRequestUrls | scrape.py:27-54 | the k-th request is for `urljoin(base, str(start + k))` |
| Kmt.ScrapeFailure | scrape.py:29 | only the last request can fail; the run fails exactly when its last request failed, with an error naming that URL |
| Kmt.ScrapeSuccess | scrape.py:24-56 | no two empty pages in a row occur before the last request. A successful run that stops before `max_pages` requests ended on the streak. Its records are those of the processed pages, the streak's last page excluded |
| Kmt.OutcomeRecords | scrape.py:48-56 | a crawl that did not fail returns the records of the pages it processed: all its pages, or all but the last when it ended on the streak |
| Kmt.VisitPage | scrape.py:28-53 | one pass of the loop body requests page `index`. It ends the crawl on a failed request or on a second empty page in a row, exactly as `CrawlFrom` does, keeping the records of the pages before. Otherwise the crawl goes on from the next index, and the records are those `RecordsAfter` gives for one more page |
| Kmt.CrawlPages | scrape.py:25-54 | the loop makes exactly the requests of `CrawlFrom` and stops as it does. After the streak its records are those of every page but the last; after `max_pages` requests, those of every page |
| Kmt.ScrapeExits | scrape.py:29-56 | a finished crawl gives `Scrape`'s result: the error naming the failed URL, or the records the loop gathered |
| Kmt.ScrapeKmt | scrape.py:24-56 | the method, through `CrawlPages`, requests exactly the URLs and returns exactly the result that `Scrape` specifies |
| Kmt.BlankPageNoRecords | scrape.py:48-53 | a page with no anchors and no text yields no record, even through the fallback |
| Kmt.BlankSiteCrawl | scrape.py:32-35 | on a site of blank pages the crawl makes two requests and stops on the streak |
| Kmt.BlankSiteStopsAfterTwo | scrape.py:24-56 | on a site of blank pages with `max_pages >= 2`, the run requests pages `start` and `start + 1` and returns no records |
| Ord.GetTextTrimmed | scrape.py:65 | text extracted with `strip=True` has no whitespace at either end, whatever the separator |
| Ord.GetTextEmpty | scrape.py:65 | extracted text is empty exactly when every text node is blank |
| Ord.KeywordsWithoutDataset | scrape.py:67 | the keyword test is the same with "dataset" removed from the list, since any `href` containing "dataset" also contains "data" |
| Ord.EmptyHrefSkipped | scrape.py:64-67 | an anchor without an `href`, or with an empty one, never yields a link |
| Ord.Links | scrape.py:62-68 | at most one link per anchor |
| Ord.LinksMembers | scrape.py:63-68 | the links are exactly the text/URL pairs of the anchors whose lower-cased `href` contains a keyword, each with URL `urljoin(base, href)` |
| Ord.LinksAppend | scrape.py:63-68 | links keep document order |
| Ord.MetaName | scrape.py:71 | the name is the `name` attribute when that is non-empty, else the `property` attribute, and "" exactly when neither is non-empty |
| Ord.MetaPairs | scrape.py:69-74 | every kept pair has a non-empty name and a non-empty content |
| Ord.MetaPairsMembers | scrape.py:69-74 | the pairs are exactly those of the metas with a non-empty name and a non-empty content |
| Ord.MetaPairsAppend | scrape.py:69-74 | pairs keep document order |
| Ord.TitleOf | scrape.py:75 | a present title is its text nodes, each stripped, the blank ones dropped and the rest concatenated in order; the title is "" exactly when there is no title element or every text node is blank, and it never has whitespace at either end |
| Ord.ScrapeOrd | scrape.py:59-76 | the snapshot fails exactly when the fetch of the base URL fails, with an error naming it |
| Ord.ScrapeOrdFacts | scrape.py:59-76 | a successful snapshot holds the filtered links, the filtered metas and a title without edge whitespace. A present title is its stripped, non-blank text nodes concatenated in order. The title is "" exactly when the page has no title element or its title's text nodes are all blank |

## Left out

- HTTP (`fetch`: headers, timeout, `raise_for_status`) is a parameter of both scrapers. Any exception it raises is `None`, which ends the run with an error naming the URL; the records gathered so far are lost, as they are when the exception propagates.
- HTML parsing (BeautifulSoup) is an input. For each page the model is given:
  - the anchors' captions (`get_text(strip=True)`);
  - each anchor's row: the element `find_parent([...]) or a.parent` gives, with its `get_text(" ", strip=True)` and the `href` of its first anchor that has one;
  - the page text (`soup.get_text(" ", strip=True)`);
  - the `<meta>` attributes and the title's text nodes.

  How the tree is searched is not modelled.
- `urljoin` is a function `join` that is assumed total and nothing else: no property depends on how URLs are resolved. Python's `urljoin` raises `ValueError` on some malformed URLs, for example an `href` of `"//["`, whose host has an unbalanced bracket. The model leaves that error path out, so:
- Ord.ScrapeOrd: "fails exactly when the fetch fails" leaves out a `ValueError` from `urljoin(base, href)` at scrape.py:66, which runs for every anchor, kept or not.
- Kmt.ScrapeFailure: "fails exactly when the last request failed" leaves out a `ValueError` from the `urljoin` calls at scrape.py:28, :42 and :46.
- Kmt.Scrape: ends only on a failed request, the streak or `max_pages`, never on a `ValueError` from `urljoin` at scrape.py:28, :42 or :46.
- Kmt.ScrapeKmt: like `Scrape`, it never raises from `urljoin`.
- `time.sleep(delay)`, the unused `delay` parameter of `scrape_ord`, the default `base` URLs, `main`, argument parsing, JSON output and `print` are not modelled.
- Text.IsWordChar: `\b` is modelled with ASCII word characters `[A-Za-z0-9_]`. Python's `\b` in a str pattern also counts Unicode letters and digits as word characters.
- Text.Lower models `str.lower` only as far as it can produce ASCII letters: A-Z, U+0130 (which lower-cases to "i" plus a combining dot) and the Kelvin sign U+212A. Every other character is left as it is. That is exact for the comparisons the scrapers make, against the ASCII strings `details` and the keywords, and not otherwise.
- Parallelism, the network and clocks do not occur in the model.
