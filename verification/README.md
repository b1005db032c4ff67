# pturlparser URL extraction, modelled in Dafny

pturlparser collects the URLs a web page refers to. It fetches the page and
runs an HTML extractor over it. That extractor has two parts: a scan of
link-bearing attributes, and a lexical scan of inline `<script>` and `<style>`
text. Every script of the page goes to a JavaScript extractor. That is the
script fetched through its `src`, or the script's inline text when it has no
`src`. The JavaScript extractor walks the script's syntax tree and collects
string literals that mention `http://` or `https://`. The result is the union
of both extractors' sets.

This project models that engine as pure functions over immutable data:

- `Common`: option values, URL strings, and the character classes the patterns
  use. Whitespace is the set Python's `str.isspace` accepts, which is what `\s`
  means in a `re` pattern over `str`.
- `InlineScan`: the two `re.findall` calls of `_extract_inline`, written as
  explicit left-to-right scanners. The first is `https?://\S+` (`HttpMatchAt`).
  The second is `url\(["']?(.*?)["']?\)` (`CloseFrom`, `CssMatchAt`). Both run
  under one findall driver (`FindAll`). Its contract characterizes findall
  completely: every hit is the pattern's match at its own start, the hits run
  left to right without overlap, and no position outside the hits matches.
- `HtmlExtractor`: the URL store and `add_url`, the `tag_attributes` scan and
  the inline scan, over a parsed page given as a sequence of elements. Each
  element has a tag, an attribute map and an optional `.string`.
- `JsExtractor`: the syntax tree as a datatype (literal node, other node,
  list, plain value) and the recursive walk of `extract_from_node`. A
  reference definition gives the positions the walk can reach (`Descend`).
  Lemmas prove the walk sound and complete against it.
- `UrlParser`: `parse_target`, with the network, both parsers and `urljoin`
  passed in as functions (`Env`). Its contract states the merge: the result is
  everything the HTML extractor finds (joined with the target) united with
  every script's qualifying literals (verbatim).

The code has no normalisation gate, and the model follows the code:

- There is no scheme filter and no `mailto:` rejection. Every candidate goes
  into the store, joined with the base when one is set.
- JavaScript literals enter the result verbatim. They are never joined with
  the page URL.
- The JavaScript test is substring containment (`'http://' in s`), not a
  prefix test.
- Inline script text is scanned by the `https?://\S+` pattern in every case.
  It goes to the JavaScript extractor only when the script has no non-empty
  `src`.
- `\S+` is greedy. The pattern therefore takes a quoted URL in script text
  together with the punctuation after it (`InlineScan.HttpGreedyExample`).

## Model

| member | source | states |
|---|---|---|
| `InlineScan.HttpMatchAt` | pturlparser/modules/url_extractor.py:44 | A match at a position starts with `http://` or `https://` and has at least one character after `//`. It holds no whitespace and is maximal: whitespace or the end of the text follows it. With no match, each scheme prefix present is followed by whitespace or the end of the text. |
| `InlineScan.CloseFrom` | pturlparser/modules/url_extractor.py:51 | The lazy `(.*?)` stops at the first position where `)` or a quote followed by `)` can close the pattern. It crosses no newline to get there. When it fails, no `)` appears before the end of the line. |
| `InlineScan.CssMatchAt` | pturlparser/modules/url_extractor.py:51 | A match starts with `url(`. A leading quote is left out of the capture. The capture holds no `)` and no newline, and the closing tail cannot match inside it. The capture is closed by `)` or by a quote and `)`. With no match, either there is no `url(` here or there is no `)` before the end of the line. |
| `InlineScan.FindAll` | pturlparser/modules/url_extractor.py:44-52 | findall semantics. Each hit is the pattern's match at its own start. The hits are ordered and do not overlap. Every position outside the hits has no match. |
| `InlineScan.HttpCandidateShape` | pturlparser/modules/url_extractor.py:44 | Each script-text candidate starts with `http://` or `https://` and has a character after `//`. It contains no whitespace, and where it occurs in the text, whitespace or the end of the text follows it. |
| `InlineScan.CssCandidateShape` | pturlparser/modules/url_extractor.py:51 | Each style-text candidate contains no `)` and no newline. |
| `InlineScan.CssQuotedExample` | pturlparser/modules/url_extractor.py:51 | `body{background:url('/img/a.png')}` yields exactly `/img/a.png`, without its quotes. |
| `InlineScan.HttpGreedyExample` | pturlparser/modules/url_extractor.py:44 | `u="http://a/";` yields exactly `http://a/";`, so the greedy `\S+` keeps the closing quote and semicolon. |
| `HtmlExtractor.AddUrl` | pturlparser/modules/url_extractor.py:15-22 | With a non-empty base, the join of base and candidate is stored, or nothing when the join raises. With no base or an empty one, the candidate is stored unchanged. |
| `HtmlExtractor.AddUrlIdempotent` | pturlparser/modules/url_extractor.py:20 | Adding a candidate a second time leaves the store unchanged. |
| `HtmlExtractor.AddUrlCommutes` | pturlparser/modules/url_extractor.py:32-34 | The store does not depend on the order in which candidates are added, so the order of `find_all` does not matter. |
| `HtmlExtractor.AddAll` | pturlparser/modules/url_extractor.py:45-46 | Adding a list of candidates keeps the old store. It adds exactly what `add_url` keeps for some candidate of the list. |
| `HtmlExtractor.TagValues` | pturlparser/modules/url_extractor.py:33-34 | The values listed are exactly the attribute values of the elements that have the tag and carry the attribute, including empty values. |
| `HtmlExtractor.ExtractAttributes` | pturlparser/modules/url_extractor.py:29-34 | The nested loop over a tag/attribute table adds exactly what `add_url` keeps for the attribute value of an element matching some table entry. |
| `HtmlExtractor.AttributeLinkExactly` | pturlparser/modules/url_extractor.py:29-34 | An element contributes through its attributes if and only if it is an `a` or `link` with `href`, or a `script`, `img` or `iframe` with `src`. No other element contributes. |
| `HtmlExtractor.InlinePass` | pturlparser/modules/url_extractor.py:40-53 | Only elements of the given tag with non-empty text are scanned. The store gains exactly what `add_url` keeps for their findall matches. |
| `HtmlExtractor.Extract` | pturlparser/modules/url_extractor.py:25-37 | The store only grows. The returned cumulative store gains exactly the attribute links, script-text URLs and style `url(...)` values of the page's elements. |
| `HtmlExtractor.ExtractIdempotent` | pturlparser/modules/url_extractor.py:25-37 | Running `extract` again over the same page changes nothing. |
| `JsExtractor.Collect` | pturlparser/modules/url_extractor.py:64-73 | Everything the walk collects mentions `http://` or `https://`. |
| `JsExtractor.CollectAll` | pturlparser/modules/url_extractor.py:68-73 | Walking each child or list element collects only values that mention `http://` or `https://`. |
| `JsExtractor.CollectComplete` | pturlparser/modules/url_extractor.py:64-73 | A string literal that mentions `http://` or `https://` is collected at any depth, under any node child or list element the walk enters. |
| `JsExtractor.CollectSound` | pturlparser/modules/url_extractor.py:65-67 | A collected value is a string literal at some reachable position of the tree, taken verbatim, that mentions `http://` or `https://`. |
| `JsExtractor.CollectAllSound` | pturlparser/modules/url_extractor.py:68-73 | A value collected from a list or a node's children comes from one of its members. |
| `JsExtractor.Extract` | pturlparser/modules/url_extractor.py:77-83 | When parsing raises, the store is returned unchanged. Otherwise the cumulative store gains exactly the qualifying string literals of the tree. |
| `JsExtractor.LiteralExample` | pturlparser/modules/url_extractor.py:65-67 | In the tree of `var x = "https://cdn.example.com/lib.js";`, the walk collects exactly the URL literal. It skips type names, identifiers and the literal's raw text. |
| `UrlParser.ScriptCode` | pturlparser/pturlparser.py:60-74 | Only a script is scanned. A script with a non-empty `src` never has its inline text scanned. When the join of target and `src` succeeds and the fetch succeeds, the fetched body is scanned. When the fetch fails, nothing is scanned. A join that raises is signalled, and only then. A script without a `src` has its inline text scanned exactly when that text is non-empty. |
| `UrlParser.ScriptLoop` | pturlparser/pturlparser.py:54-74 | The loop raises if and only if some script's `src` cannot be joined. Otherwise it adds exactly every script's qualifying literals. A script whose fetch fails adds nothing, and later scripts are still processed. |
| `UrlParser.ParseTarget` | pturlparser/pturlparser.py:40-76 | A page that cannot be fetched yields the empty set. Otherwise the result is the HTML extractor's URLs united with every script's literals. It raises exactly when some script `src` cannot be joined. |
| `UrlParser.ScriptUrlsVerbatim` | pturlparser/pturlparser.py:69-76 | A result member that the HTML extractor did not produce is a verbatim string literal of one of the page's scripts, and it mentions `http://` or `https://`. |
| `UrlParser.ScriptLiteral` | pturlparser/pturlparser.py:63-74 | A value that one script adds is a string literal of that script's parsed code, either the fetched body or the inline text, found at some position of its tree. |
| `UrlParser.ScriptLoopGuarded` | pturlparser/pturlparser.py:60-74 | The corrected loop, which skips an unjoinable `src`, adds exactly every script's qualifying literals. |
| `UrlParser.ParseTargetGuarded` | pturlparser/pturlparser.py:40-76 | The corrected `parse_target` never aborts. Its result is exactly the HTML extractor's URLs united with every script's literals, or empty when the page fetch fails. |
| `UrlParser.GuardedAgrees` | pturlparser/pturlparser.py:63-74 | Whenever the code as written finishes, the corrected version returns the same set. |
| `UrlParser.UnjoinableSrcAbortsPage` | pturlparser/pturlparser.py:65 | On a page with a link and a script whose `src` cannot be joined, the code as written raises and loses the link. The corrected version keeps the link. |

## Left out

- HTML parsing (BeautifulSoup) is a foreign library. A page is the sequence of
  elements the parser returns, each with its `.string`. Tag and attribute name
  normalisation, and deciding when `.string` is None, are the parser's job.
  `parse_target` parses the body a second time. The model applies the same
  parser function again, so both parses agree.
- JavaScript parsing (esprima) is a foreign library. It is a function from
  source text to a tree, or to nothing when it raises. The model takes
  iterating over a node to yield the node's child values. What esprima's node
  objects actually yield is decided by that library and is not part of this
  model.
- `urllib.parse.urljoin` is left uninterpreted (`Resolver`). It returns a
  joined URL, or nothing when it raises. Reference resolution (section 5.2 of
  RFC 3986) is not modelled.
- `requests.get` is the `Fetch` function. It returns the body text whatever
  the HTTP status, or nothing for a `RequestException`. Timeouts, redirects and
  other exception types are not modelled.
- `display_urls`, `run`, `parse_args`, `get_help`, `main`, the banner and the
  printed error messages are console and file I/O. `setup.py` is packaging
  metadata.
- Python's recursion limit in `extract_from_node` is not modelled. A tree deep
  enough to raise `RecursionError` would leave a partly filled store.
- Document order and repeated entries from `find_all` are not modelled. The
  store is a set, and `HtmlExtractor.AddUrlCommutes` shows that the order of
  additions does not matter.

## Findings

| source | as written | input that shows it | evidently intended | confidence | as-written member | corrected member |
|---|---|---|---|---|---|---|
| pturlparser/pturlparser.py:65 | `urljoin(target, script_url)` runs outside the `try`, which guards only the fetch. An exception from the join escapes `parse_target`, and the links already found for the page are lost. | A page with `<a href="/x">` and `<script src="http://[">`: Python's `urljoin` raises `ValueError` for an unclosed IPv6 bracket. `add_url` catches the same error for this `src` at url_extractor.py:16-22. | Skip the script, as a failed fetch is skipped. | medium; not executed | `UrlParser.UnjoinableSrcAbortsPage` (on `UrlParser.ParseTarget`) | `UrlParser.ParseTargetGuarded`, with `UrlParser.GuardedAgrees` |
