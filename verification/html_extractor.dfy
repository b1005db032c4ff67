/** `HTMLExtractor` (pturlparser/modules/url_extractor.py): a URL store fed
    through `add_url`, the scan of link-bearing attributes over the parsed
    page (`extract`) and the lexical scan of inline script and style text
    (`_extract_inline`). HTML parsing itself is outside the model: a page
    arrives as the sequence of elements the parser found, in document order. */
module HtmlExtractor {
  import opened Common
  import InlineScan

  /** One element of the parsed page: its tag name, its attributes, and its
      `.string` (None when the element has no single text child). */
  datatype Element = Element(tag: string, attrs: map<string, string>, text: Option<string>)

  type Document = seq<Element>

  /** `urllib.parse.urljoin(base, ref)`; None stands for the call raising. */
  type Resolver = (Url, Url) -> Option<Url>

  /** The `tag_attributes` table of `extract`, in its iteration order. */
  const LinkTable: seq<(string, string)> :=
    [("a", "href"), ("link", "href"), ("script", "src"), ("img", "src"), ("iframe", "src")]

  /** What `add_url` puts in the store for `url`: the join with the base when
      the base is set and non-empty, the candidate itself otherwise; None when
      the join raised (the error is printed and nothing is stored). */
  function Stored(resolve: Resolver, base: Option<Url>, url: Url): Option<Url> {
    if base.Some? && base.value != "" then resolve(base.value, url) else Some(url)
  }

  /** `add_url`. */
  function AddUrl(resolve: Resolver, base: Option<Url>, url: Url, urls: set<Url>): (r: set<Url>)
    // no base, or an empty one: the candidate is stored unchanged
    ensures base.None? || base.value == "" ==> r == urls + {url}
    // a base: the join is stored, or nothing when the join raised
    ensures base.Some? && base.value != "" && resolve(base.value, url).Some? ==>
              r == urls + {resolve(base.value, url).value}
    ensures base.Some? && base.value != "" && resolve(base.value, url).None? ==> r == urls
  {
    match Stored(resolve, base, url)
    case Some(u) => urls + {u}
    case None => urls
  }

  /** Re-adding a candidate leaves the store unchanged. */
  lemma AddUrlIdempotent(resolve: Resolver, base: Option<Url>, url: Url, urls: set<Url>)
    ensures AddUrl(resolve, base, url, AddUrl(resolve, base, url, urls)) == AddUrl(resolve, base, url, urls)
  {
  }

  /** The order in which candidates are added does not matter. */
  lemma AddUrlCommutes(resolve: Resolver, base: Option<Url>, x: Url, y: Url, urls: set<Url>)
    ensures AddUrl(resolve, base, y, AddUrl(resolve, base, x, urls))
         == AddUrl(resolve, base, x, AddUrl(resolve, base, y, urls))
  {
  }

  /** `add_url` applied to each candidate in turn. */
  function AddAll(resolve: Resolver, base: Option<Url>, cands: seq<Url>, urls: set<Url>): (r: set<Url>)
    ensures urls <= r
    ensures forall u :: u in r <==> u in urls || exists c :: c in cands && Stored(resolve, base, c) == Some(u)
    decreases |cands|
  {
    if cands == [] then urls
    else
      var r := AddAll(resolve, base, cands[1..], AddUrl(resolve, base, cands[0], urls));
      assert forall c :: c in cands <==> c == cands[0] || c in cands[1..];
      r
  }

  /** The element has the tag and carries the attribute (any value, even empty). */
  predicate Carries(e: Element, tag: string, attr: string) {
    e.tag == tag && attr in e.attrs
  }

  /** `element[attr] for element in soup.find_all(tag, attrs={attr: True})`. */
  function TagValues(doc: Document, tag: string, attr: string): (vs: seq<Url>)
    ensures forall v :: v in vs <==> exists k :: 0 <= k < |doc| && Carries(doc[k], tag, attr) && doc[k].attrs[attr] == v
  {
    if doc == [] then []
    else
      var rest := TagValues(doc[1..], tag, attr);
      assert forall k :: 0 <= k < |doc| - 1 ==> doc[1..][k] == doc[k + 1];
      var vs := if Carries(doc[0], tag, attr) then [doc[0].attrs[attr]] + rest else rest;
      assert forall v :: v in vs <==> (Carries(doc[0], tag, attr) && doc[0].attrs[attr] == v) || v in rest;
      vs
  }

  /** Element `e` stores `u` through the table entry `pair`. */
  predicate Yields(resolve: Resolver, base: Option<Url>, pair: (string, string), e: Element, u: Url) {
    Carries(e, pair.0, pair.1) && Stored(resolve, base, e.attrs[pair.1]) == Some(u)
  }

  /** The nested loop of `extract` over a tag/attribute table. */
  function ExtractAttributes(resolve: Resolver, base: Option<Url>, table: seq<(string, string)>,
                             doc: Document, urls: set<Url>): (r: set<Url>)
    ensures urls <= r
    ensures forall u :: u in r <==>
              || u in urls
              || exists k, t :: 0 <= k < |doc| && 0 <= t < |table| && Yields(resolve, base, table[t], doc[k], u)
    decreases |table|
  {
    if table == [] then urls
    else
      var added := AddAll(resolve, base, TagValues(doc, table[0].0, table[0].1), urls);
      var r := ExtractAttributes(resolve, base, table[1..], doc, added);
      forall u
        ensures u in added <==> u in urls || exists k :: 0 <= k < |doc| && Yields(resolve, base, table[0], doc[k], u)
      {
        if u in added && u !in urls {
          var c :| c in TagValues(doc, table[0].0, table[0].1) && Stored(resolve, base, c) == Some(u);
          var k :| 0 <= k < |doc| && Carries(doc[k], table[0].0, table[0].1) && doc[k].attrs[table[0].1] == c;
          assert Yields(resolve, base, table[0], doc[k], u);
        }
        if exists k :: 0 <= k < |doc| && Yields(resolve, base, table[0], doc[k], u) {
          var k :| 0 <= k < |doc| && Yields(resolve, base, table[0], doc[k], u);
          assert doc[k].attrs[table[0].1] in TagValues(doc, table[0].0, table[0].1);
        }
      }
      forall u, k, t | 0 <= k < |doc| && 0 <= t < |table| && Yields(resolve, base, table[t], doc[k], u)
        ensures u in r
      {
        if t > 0 {
          assert table[t] == table[1..][t - 1];
        }
      }
      forall u | u in r && u !in urls
        ensures exists k, t :: 0 <= k < |doc| && 0 <= t < |table| && Yields(resolve, base, table[t], doc[k], u)
      {
        if u !in added {
          var k, t :| 0 <= k < |doc| && 0 <= t < |table[1..]| && Yields(resolve, base, table[1..][t], doc[k], u);
          assert Yields(resolve, base, table[t + 1], doc[k], u);
        } else {
          var k :| 0 <= k < |doc| && Yields(resolve, base, table[0], doc[k], u);
          assert Yields(resolve, base, table[0], doc[k], u);
        }
      }
      r
  }

  /** Element `e` carries a link through some entry of `tag_attributes` and
      the store keeps `u` for it. */
  predicate AttributeLink(resolve: Resolver, base: Option<Url>, e: Element, u: Url) {
    exists t :: 0 <= t < |LinkTable| && Yields(resolve, base, LinkTable[t], e, u)
  }

  /** An element contributes through its attributes exactly when it is an
      `a` or `link` carrying `href`, or a `script`, `img` or `iframe`
      carrying `src`; every other element contributes nothing. */
  lemma AttributeLinkExactly(resolve: Resolver, base: Option<Url>, e: Element, u: Url)
    ensures AttributeLink(resolve, base, e, u) <==>
              || ((e.tag == "a" || e.tag == "link") && "href" in e.attrs
                  && Stored(resolve, base, e.attrs["href"]) == Some(u))
              || ((e.tag == "script" || e.tag == "img" || e.tag == "iframe") && "src" in e.attrs
                  && Stored(resolve, base, e.attrs["src"]) == Some(u))
  {
    if e.tag == "a" { assert LinkTable[0] == ("a", "href"); }
    if e.tag == "link" { assert LinkTable[1] == ("link", "href"); }
    if e.tag == "script" { assert LinkTable[2] == ("script", "src"); }
    if e.tag == "img" { assert LinkTable[3] == ("img", "src"); }
    if e.tag == "iframe" { assert LinkTable[4] == ("iframe", "src"); }
  }

  /** Element `e` is a `tag` element with non-empty text, and the lexical
      pattern finds in that text a candidate the store keeps as `u`. */
  predicate InlineYields(resolve: Resolver, base: Option<Url>, tag: string, pat: InlineScan.Pattern,
                         e: Element, u: Url) {
    && e.tag == tag && e.text.Some? && e.text.value != ""
    && exists c :: c in InlineScan.Candidates(pat, e.text.value) && Stored(resolve, base, c) == Some(u)
  }

  /** One loop of `_extract_inline`: every `tag` element whose text is
      non-empty has each findall match added. */
  function InlinePass(resolve: Resolver, base: Option<Url>, doc: Document, tag: string,
                      pat: InlineScan.Pattern, urls: set<Url>): (r: set<Url>)
    ensures urls <= r
    ensures forall u :: u in r <==>
              u in urls || exists k :: 0 <= k < |doc| && InlineYields(resolve, base, tag, pat, doc[k], u)
  {
    if doc == [] then urls
    else
      var e := doc[0];
      var next := if e.tag == tag && e.text.Some? && e.text.value != "" then
                    AddAll(resolve, base, InlineScan.Candidates(pat, e.text.value), urls)
                  else urls;
      var r := InlinePass(resolve, base, doc[1..], tag, pat, next);
      assert forall k :: 0 <= k < |doc| - 1 ==> doc[1..][k] == doc[k + 1];
      assert forall u :: u in next <==> u in urls || InlineYields(resolve, base, tag, pat, e, u);
      forall u | u in r && u !in urls
        ensures exists k :: 0 <= k < |doc| && InlineYields(resolve, base, tag, pat, doc[k], u)
      {
        if u !in next {
          var k :| 0 <= k < |doc[1..]| && InlineYields(resolve, base, tag, pat, doc[1..][k], u);
          assert InlineYields(resolve, base, tag, pat, doc[k + 1], u);
        } else {
          assert InlineYields(resolve, base, tag, pat, doc[0], u);
        }
      }
      r
  }

  /** Everything one element gives `extract`: an attribute link, a URL in
      script text, or a CSS `url(...)` in style text. */
  predicate Found(resolve: Resolver, base: Option<Url>, e: Element, u: Url) {
    || AttributeLink(resolve, base, e, u)
    || InlineYields(resolve, base, "script", InlineScan.HttpUrl, e, u)
    || InlineYields(resolve, base, "style", InlineScan.CssUrl, e, u)
  }

  /** `HTMLExtractor.extract` on a parsed page, starting from the store
      `urls`; it returns the cumulative store. */
  function Extract(resolve: Resolver, base: Option<Url>, doc: Document, urls: set<Url>): (r: set<Url>)
    // the store only grows
    ensures urls <= r
    // and gains exactly what some element gives
    ensures forall u :: u in r <==> u in urls || exists k :: 0 <= k < |doc| && Found(resolve, base, doc[k], u)
  {
    var linked := ExtractAttributes(resolve, base, LinkTable, doc, urls);
    var scripts := InlinePass(resolve, base, doc, "script", InlineScan.HttpUrl, linked);
    var r := InlinePass(resolve, base, doc, "style", InlineScan.CssUrl, scripts);
    ExtractGains(resolve, base, doc, urls, linked, scripts, r);
    ExtractKeeps(resolve, base, doc, urls, linked, scripts, r);
    r
  }

  /** What the three passes of `extract` add is found by some element. */
  lemma ExtractGains(resolve: Resolver, base: Option<Url>, doc: Document, urls: set<Url>,
                     linked: set<Url>, scripts: set<Url>, r: set<Url>)
    requires linked == ExtractAttributes(resolve, base, LinkTable, doc, urls)
    requires scripts == InlinePass(resolve, base, doc, "script", InlineScan.HttpUrl, linked)
    requires r == InlinePass(resolve, base, doc, "style", InlineScan.CssUrl, scripts)
    ensures forall u :: u in r && u !in urls ==> exists k :: 0 <= k < |doc| && Found(resolve, base, doc[k], u)
  {
    forall u | u in r && u !in urls ensures exists k :: 0 <= k < |doc| && Found(resolve, base, doc[k], u) {
      if u in linked {
        var k, t :| 0 <= k < |doc| && 0 <= t < |LinkTable| && Yields(resolve, base, LinkTable[t], doc[k], u);
        assert Found(resolve, base, doc[k], u);
      } else if u in scripts {
        var k :| 0 <= k < |doc| && InlineYields(resolve, base, "script", InlineScan.HttpUrl, doc[k], u);
        assert Found(resolve, base, doc[k], u);
      } else {
        var k :| 0 <= k < |doc| && InlineYields(resolve, base, "style", InlineScan.CssUrl, doc[k], u);
        assert Found(resolve, base, doc[k], u);
      }
    }
  }

  /** Whatever some element finds ends up in the store `extract` returns. */
  lemma ExtractKeeps(resolve: Resolver, base: Option<Url>, doc: Document, urls: set<Url>,
                     linked: set<Url>, scripts: set<Url>, r: set<Url>)
    requires linked == ExtractAttributes(resolve, base, LinkTable, doc, urls)
    requires scripts == InlinePass(resolve, base, doc, "script", InlineScan.HttpUrl, linked)
    requires r == InlinePass(resolve, base, doc, "style", InlineScan.CssUrl, scripts)
    ensures urls <= r
    ensures forall u, k :: 0 <= k < |doc| && Found(resolve, base, doc[k], u) ==> u in r
  {
    forall u, k | 0 <= k < |doc| && Found(resolve, base, doc[k], u) ensures u in r {
      if AttributeLink(resolve, base, doc[k], u) {
        var t :| 0 <= t < |LinkTable| && Yields(resolve, base, LinkTable[t], doc[k], u);
        assert u in linked;
      } else if InlineYields(resolve, base, "script", InlineScan.HttpUrl, doc[k], u) {
        assert u in scripts;
      }
    }
  }

  /** Running `extract` again over the same page changes nothing. */
  lemma ExtractIdempotent(resolve: Resolver, base: Option<Url>, doc: Document, urls: set<Url>)
    ensures Extract(resolve, base, doc, Extract(resolve, base, doc, urls)) == Extract(resolve, base, doc, urls)
  {
    var once := Extract(resolve, base, doc, urls);
    var twice := Extract(resolve, base, doc, once);
    forall u | u in twice ensures u in once {
    }
  }
}
