// A snapshot of the Open Reaction Database home page: `scrape_ord` in scrape.py.
//
// The page is fetched once and parsed; the parse is an input here (a
// `Document` listing the page's `<a>` and `<meta>` elements in document order
// and the text nodes of its first `<title>`), so HTML parsing itself is not
// modelled. What is modelled is everything `scrape_ord` does with the parse:
// the keyword filter on links, the name/content filter on metas, the text
// extraction and the title default.

module Ord {
  import opened Wrappers
  import opened Text
  import opened Web

  /** An `<a>` element: its `href` attribute, if present, and its text nodes in document order. */
  datatype AnchorElem = AnchorElem(href: Option<string>, strings: seq<string>)

  /** A `<meta>` element's `name`, `property` and `content` attributes, each possibly absent. */
  datatype MetaElem = MetaElem(name: Option<string>, property: Option<string>, content: Option<string>)

  /** The parsed page: its anchors, its metas, and the text nodes of `soup.title` if there is one. */
  datatype Document = Document(anchors: seq<AnchorElem>, metas: seq<MetaElem>, title: Option<seq<string>>)

  /** `{"text": txt, "url": full}`. */
  datatype Link = Link(text: string, url: string)

  /** `{"name": name, "content": content}`. */
  datatype MetaPair = MetaPair(name: string, content: string)

  /** `{"title": title, "links": links, "metas": metas}`. */
  datatype Snapshot = Snapshot(title: string, links: seq<Link>, metas: seq<MetaPair>)

  /** `fetch` followed by `BeautifulSoup(html, "html.parser")`; `None` when `fetch` raises. */
  type Fetch = string -> Option<Document>

  /** `x or ""` for an attribute that may be absent. */
  function OrEmpty(x: Option<string>): string
  {
    match x
    case None => ""
    case Some(v) => v
  }

  // ---------------------------------------------------------------------------
  // Text extraction

  /** `el.get_text(sep, strip=True)`: the stripped, non-blank text nodes joined by `sep`. */
  function GetText(sep: string, strings: seq<string>): string
  {
    JoinWith(sep, StrippedParts(strings))
  }

  /** Extracted text never starts or ends with whitespace, whatever the separator. */
  lemma GetTextTrimmed(sep: string, strings: seq<string>)
    ensures NoEdgeSpace(GetText(sep, strings))
  {
    var parts := StrippedParts(strings);
    if parts != [] {
      assert parts[0] in parts && parts[|parts| - 1] in parts;
      var r := JoinWith(sep, parts);
      assert r[0] == r[..|parts[0]|][0];
      assert r[|r| - 1] == r[|r| - |parts[|parts| - 1]|..][|parts[|parts| - 1]| - 1];
    }
  }

  /** Extracted text is empty exactly when every text node is blank. */
  lemma GetTextEmpty(sep: string, strings: seq<string>)
    ensures GetText(sep, strings) == "" <==> forall q :: q in strings ==> Strip(q) == ""
  {
    var parts := StrippedParts(strings);
    StrippedPartsSound(strings);
    StrippedPartsComplete(strings);
    if parts != [] {
      assert parts[0] in parts;
      var q :| q in strings && Strip(q) != "" && parts[0] == Strip(q);
      assert JoinWith(sep, parts) != "";
    } else {
      forall q | q in strings
        ensures Strip(q) == ""
      {
        assert Strip(q) !in parts;
      }
    }
  }

  // ---------------------------------------------------------------------------
  // Links

  /** The substrings that make an `href` interesting, as listed in `scrape_ord`. */
  const Keywords: seq<string> := ["search", "dataset", "data", "doi", "record"]

  /** `any(x in href.lower() for x in [...])`. */
  predicate HasKeyword(href: string) {
    exists k :: k in Keywords && Contains(Lower(href), k)
  }

  /** A string that contains `t` contains every prefix of `t`. */
  lemma ContainsPrefix(s: string, t: string, u: string)
    requires Contains(s, t) && u <= t
    ensures Contains(s, u)
  {
    var i :| 0 <= i <= |s| && t <= s[i..];
    assert u <= s[i..];
  }

  /**
   * "dataset" adds nothing to the keyword list: every `href` that contains it
   * also contains "data".
   */
  lemma KeywordsWithoutDataset(href: string)
    ensures HasKeyword(href) <==>
      Contains(Lower(href), "search") || Contains(Lower(href), "data") ||
      Contains(Lower(href), "doi") || Contains(Lower(href), "record")
  {
    if Contains(Lower(href), "dataset") {
      ContainsPrefix(Lower(href), "dataset", "data");
    }
    if Contains(Lower(href), "data") {
      assert "data" in Keywords;
    }
  }

  /** An anchor without an `href` (or with an empty one) is never kept. */
  lemma EmptyHrefSkipped()
    ensures !HasKeyword("")
  {
    forall k | k in Keywords
      ensures !Contains(Lower(""), k)
    {
      assert k != [];
    }
  }

  /** The link `scrape_ord` records for anchor `a`. */
  function LinkOf(base: string, join: Join, a: AnchorElem): Link
  {
    Link(GetText(" ", a.strings), join(base, OrEmpty(a.href)))
  }

  /** The links anchor `a` contributes: its link if its `href` carries a keyword, else none. */
  function LinkIfKept(base: string, join: Join, a: AnchorElem): seq<Link>
  {
    if HasKeyword(OrEmpty(a.href)) then [LinkOf(base, join, a)] else []
  }

  /** The `links` list: one link per anchor whose `href` carries a keyword, in document order. */
  function Links(base: string, join: Join, anchors: seq<AnchorElem>): (r: seq<Link>)
    ensures |r| <= |anchors|
  {
    if anchors == [] then []
    else LinkIfKept(base, join, anchors[0]) + Links(base, join, anchors[1..])
  }

  /** The links are exactly the link forms of the anchors with a keyword. */
  lemma {:induction false} LinksMembers(base: string, join: Join, anchors: seq<AnchorElem>)
    ensures forall l :: l in Links(base, join, anchors) <==>
      exists a :: a in anchors && HasKeyword(OrEmpty(a.href)) && l == LinkOf(base, join, a)
  {
    if anchors != [] {
      LinksMembers(base, join, anchors[1..]);
      assert forall a :: a in anchors <==> a == anchors[0] || a in anchors[1..];
    }
  }

  /** The links keep document order: those of a split page are those of each half, in turn. */
  lemma {:induction false} LinksAppend(base: string, join: Join, xs: seq<AnchorElem>, ys: seq<AnchorElem>)
    ensures Links(base, join, xs + ys) == Links(base, join, xs) + Links(base, join, ys)
  {
    if xs == [] {
      assert xs + ys == ys;
    } else {
      assert (xs + ys)[0] == xs[0] && (xs + ys)[1..] == xs[1..] + ys;
      LinksAppend(base, join, xs[1..], ys);
    }
  }

  // ---------------------------------------------------------------------------
  // Metas

  /** `m.get("name") or m.get("property") or ""`. */
  function MetaName(m: MetaElem): (r: string)
    ensures OrEmpty(m.name) != "" ==> r == OrEmpty(m.name)
    ensures OrEmpty(m.name) == "" ==> r == OrEmpty(m.property)
    ensures r == "" <==> OrEmpty(m.name) == "" && OrEmpty(m.property) == ""
  {
    if OrEmpty(m.name) != "" then OrEmpty(m.name) else OrEmpty(m.property)
  }

  /** `if name and content`: the meta is kept. */
  predicate KeepMeta(m: MetaElem) {
    MetaName(m) != "" && OrEmpty(m.content) != ""
  }

  /** The pair meta `m` contributes: its name and content if both are non-empty, else none. */
  function PairIfKept(m: MetaElem): seq<MetaPair>
  {
    if KeepMeta(m) then [MetaPair(MetaName(m), OrEmpty(m.content))] else []
  }

  /** The `metas` list: the kept metas' name/content pairs, in document order. */
  function MetaPairs(metas: seq<MetaElem>): (r: seq<MetaPair>)
    ensures |r| <= |metas|
    ensures forall p :: p in r ==> p.name != "" && p.content != ""
  {
    if metas == [] then []
    else PairIfKept(metas[0]) + MetaPairs(metas[1..])
  }

  /** The pairs are exactly those of the metas with a non-empty name and content. */
  lemma {:induction false} MetaPairsMembers(metas: seq<MetaElem>)
    ensures forall p :: p in MetaPairs(metas) <==>
      exists m :: m in metas && KeepMeta(m) && p == MetaPair(MetaName(m), OrEmpty(m.content))
  {
    if metas != [] {
      MetaPairsMembers(metas[1..]);
      assert forall m :: m in metas <==> m == metas[0] || m in metas[1..];
    }
  }

  /** The pairs keep document order. */
  lemma {:induction false} MetaPairsAppend(xs: seq<MetaElem>, ys: seq<MetaElem>)
    ensures MetaPairs(xs + ys) == MetaPairs(xs) + MetaPairs(ys)
  {
    if xs == [] {
      assert xs + ys == ys;
    } else {
      assert (xs + ys)[0] == xs[0] && (xs + ys)[1..] == xs[1..] + ys;
      MetaPairsAppend(xs[1..], ys);
    }
  }

  // ---------------------------------------------------------------------------
  // The snapshot

  /** `soup.title.get_text(strip=True) if soup.title else ""`. */
  function TitleOf(title: Option<seq<string>>): (r: string)
    ensures r == "" <==> title.None? || forall q :: q in title.value ==> Strip(q) == ""
    ensures title.Some? ==> r == JoinWith("", StrippedParts(title.value))
    ensures NoEdgeSpace(r)
  {
    match title
    case None => ""
    case Some(strings) =>
      GetTextTrimmed("", strings);
      GetTextEmpty("", strings);
      GetText("", strings)
  }

  /** `scrape_ord(base=base)`: one request, then the snapshot of its page. */
  function ScrapeOrd(fetch: Fetch, join: Join, base: string): (r: Result<Snapshot, FetchError>)
    ensures r.Failure? <==> fetch(base).None?
    ensures r.Failure? ==> r.error == FetchError(base)
  {
    match fetch(base)
    case None => Failure(FetchError(base))
    case Some(doc) => Success(Snapshot(TitleOf(doc.title), Links(base, join, doc.anchors), MetaPairs(doc.metas)))
  }

  /** What a successful snapshot holds, in terms of the fetched page. */
  lemma ScrapeOrdFacts(fetch: Fetch, join: Join, base: string, doc: Document)
    requires fetch(base) == Some(doc)
    ensures ScrapeOrd(fetch, join, base).Success?
    ensures ScrapeOrd(fetch, join, base).value.title == "" <==>
      doc.title.None? || forall q :: q in doc.title.value ==> Strip(q) == ""
    ensures doc.title.Some? ==> ScrapeOrd(fetch, join, base).value.title == JoinWith("", StrippedParts(doc.title.value))
    ensures NoEdgeSpace(ScrapeOrd(fetch, join, base).value.title)
    ensures forall l :: l in ScrapeOrd(fetch, join, base).value.links <==>
      exists a :: a in doc.anchors && HasKeyword(OrEmpty(a.href)) && l == LinkOf(base, join, a)
    ensures forall p :: p in ScrapeOrd(fetch, join, base).value.metas <==>
      exists m :: m in doc.metas && KeepMeta(m) && p == MetaPair(MetaName(m), OrEmpty(m.content))
  {
    LinksMembers(base, join, doc.anchors);
    MetaPairsMembers(doc.metas);
  }
}
