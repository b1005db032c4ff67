/** `PTUrlParser.parse_target` (pturlparser/pturlparser.py): fetch the page,
    run the HTML extractor on it, then feed every script to one shared
    JavaScript extractor (fetched by `src`, or inline text), and unite the
    results. The network and both parsers are collaborators handed in. */
module UrlParser {
  import opened Common
  import HtmlExtractor
  import JsExtractor

  /** `requests.get(url).text`, whatever the HTTP status; None stands for a
      `RequestException`. */
  type Fetch = Url -> Option<string>

  /** The collaborators `parse_target` calls. */
  datatype Env = Env(
    fetch: Fetch,
    parseHtml: string -> HtmlExtractor.Document,
    parseJs: JsExtractor.JsParser,
    resolve: HtmlExtractor.Resolver)

  /** How a call of `parse_target` ends: with a set, or with an exception
      escaping it. */
  datatype Outcome = Finished(urls: set<Url>) | Raised

  /** What the script loop does with one element. */
  datatype ScriptInput =
    | NoCode          // not a script, a failed fetch, or nothing to scan
    | Code(js: string) // text handed to the JavaScript extractor
    | JoinRaised      // `urljoin(target, src)` raised, outside any `try`

  /** `script.get('src')` is truthy. */
  predicate HasSrc(e: HtmlExtractor.Element) {
    "src" in e.attrs && e.attrs["src"] != ""
  }

  /** `script.string` is truthy. */
  predicate HasText(e: HtmlExtractor.Element) {
    e.text.Some? && e.text.value != ""
  }

  /** The body of the script loop for one element: a non-empty `src` is
      joined with the target and fetched (a fetch that raises is skipped);
      only otherwise is non-empty inline text used. */
  function ScriptCode(env: Env, target: Url, e: HtmlExtractor.Element): (r: ScriptInput)
    ensures r.Code? ==> e.tag == "script"
    // the two branches are exclusive: an element with a `src` never has its text scanned
    ensures HasSrc(e) && r.Code? ==>
              exists full :: env.resolve(target, e.attrs["src"]) == Some(full) && env.fetch(full) == Some(r.js)
    ensures !HasSrc(e) && r.Code? ==> HasText(e) && r.js == e.text.value
    ensures r.JoinRaised? <==> e.tag == "script" && HasSrc(e) && env.resolve(target, e.attrs["src"]).None?
    // a `src` that joins and fetches has the fetched body scanned
    ensures e.tag == "script" && HasSrc(e) && env.resolve(target, e.attrs["src"]).Some?
            && env.fetch(env.resolve(target, e.attrs["src"]).value).Some? ==>
              r == Code(env.fetch(env.resolve(target, e.attrs["src"]).value).value)
    // no `src`, but non-empty inline text: the text is scanned
    ensures e.tag == "script" && !HasSrc(e) && HasText(e) ==> r == Code(e.text.value)
  {
    if e.tag != "script" then NoCode
    else if HasSrc(e) then
      match env.resolve(target, e.attrs["src"])
      case None => JoinRaised
      case Some(full) =>
        match env.fetch(full)
        case None => NoCode
        case Some(js) => Code(js)
    else if HasText(e) then Code(e.text.value)
    else NoCode
  }

  /** Element `e` is a script whose code, once parsed, holds a literal the
      walk collects as `u`. */
  predicate ScriptYields(env: Env, target: Url, e: HtmlExtractor.Element, u: Url) {
    var code := ScriptCode(env, target, e);
    code.Code? && env.parseJs(code.js).Some? && u in JsExtractor.Collect(env.parseJs(code.js).value)
  }

  /** The script loop of `parse_target` as written. `js` is the shared
      extractor's store (its `extract` returns it whole each time) and `acc`
      the result under construction. */
  function ScriptLoop(env: Env, target: Url, doc: HtmlExtractor.Document, js: set<Url>, acc: set<Url>): (r: Outcome)
    requires js <= acc
    // an unjoinable `src` anywhere aborts the whole call
    ensures r.Raised? <==> exists k :: 0 <= k < |doc| && ScriptCode(env, target, doc[k]).JoinRaised?
    // otherwise every script's literals are added, and nothing else
    ensures r.Finished? ==>
              forall u :: u in r.urls <==> u in acc || exists k :: 0 <= k < |doc| && ScriptYields(env, target, doc[k], u)
    decreases |doc|
  {
    if doc == [] then Finished(acc)
    else
      assert forall k :: 0 <= k < |doc| - 1 ==> doc[1..][k] == doc[k + 1];
      match ScriptCode(env, target, doc[0])
      case JoinRaised => Raised
      case NoCode => ScriptLoop(env, target, doc[1..], js, acc)
      case Code(code) =>
        var js' := JsExtractor.Extract(env.parseJs, code, js);
        var r := ScriptLoop(env, target, doc[1..], js', acc + js');
        assert forall u :: u in js' <==> u in js || ScriptYields(env, target, doc[0], u);
        r
  }

  /** Element `e` of the page contributes `u`: through the HTML extractor
      (joined with the target) or through the JavaScript extractor
      (verbatim). */
  predicate PageYields(env: Env, target: Url, e: HtmlExtractor.Element, u: Url) {
    HtmlExtractor.Found(env.resolve, Some(target), e, u) || ScriptYields(env, target, e, u)
  }

  /** `PTUrlParser.parse_target`. */
  function ParseTarget(env: Env, target: Url): (r: Outcome)
    // a page that cannot be fetched yields the empty set
    ensures env.fetch(target).None? ==> r == Finished({})
    // an exception escapes exactly when some script `src` cannot be joined
    ensures env.fetch(target).Some? ==>
              (r.Raised? <==>
                 exists k :: 0 <= k < |env.parseHtml(env.fetch(target).value)|
                   && ScriptCode(env, target, env.parseHtml(env.fetch(target).value)[k]).JoinRaised?)
    // otherwise: the HTML extractor's URLs united with every script's literals
    ensures env.fetch(target).Some? && r.Finished? ==>
              var doc := env.parseHtml(env.fetch(target).value);
              forall u :: u in r.urls <==> exists k :: 0 <= k < |doc| && PageYields(env, target, doc[k], u)
  {
    match env.fetch(target)
    case None => Finished({})
    case Some(body) =>
      var doc := env.parseHtml(body);
      var html := HtmlExtractor.Extract(env.resolve, Some(target), doc, {});
      var r := ScriptLoop(env, target, doc, {}, html);
      if r.Finished? then
        MergeYields(env, target, doc, html, r.urls);
        r
      else r
  }

  /** The HTML extractor's URLs united with the scripts' literals are what
      the page's elements yield. */
  lemma MergeYields(env: Env, target: Url, doc: HtmlExtractor.Document, html: set<Url>, urls: set<Url>)
    requires forall u :: u in html <==> exists k :: 0 <= k < |doc| && HtmlExtractor.Found(env.resolve, Some(target), doc[k], u)
    requires forall u :: u in urls <==> u in html || exists k :: 0 <= k < |doc| && ScriptYields(env, target, doc[k], u)
    ensures forall u :: u in urls <==> exists k :: 0 <= k < |doc| && PageYields(env, target, doc[k], u)
  {
    forall u | u in urls ensures exists k :: 0 <= k < |doc| && PageYields(env, target, doc[k], u) {
      if u in html {
        var k :| 0 <= k < |doc| && HtmlExtractor.Found(env.resolve, Some(target), doc[k], u);
        assert PageYields(env, target, doc[k], u);
      } else {
        var k :| 0 <= k < |doc| && ScriptYields(env, target, doc[k], u);
        assert PageYields(env, target, doc[k], u);
      }
    }
    forall u, k | 0 <= k < |doc| && PageYields(env, target, doc[k], u) ensures u in urls {
      if HtmlExtractor.Found(env.resolve, Some(target), doc[k], u) {
        assert u in html;
      }
    }
  }

  /** What enters the result without going through `urljoin` is a string
      literal of some script, taken verbatim, that mentions `http://` or
      `https://`. */
  lemma ScriptUrlsVerbatim(env: Env, target: Url, u: Url)
    ensures
      var r := ParseTarget(env, target);
      r.Finished? && u in r.urls && env.fetch(target).Some?
      && u !in HtmlExtractor.Extract(env.resolve, Some(target), env.parseHtml(env.fetch(target).value), {})
      ==>
      && JsExtractor.MentionsHttp(u)
      && exists k, code, ast, path ::
           var doc := env.parseHtml(env.fetch(target).value);
           && 0 <= k < |doc| && ScriptCode(env, target, doc[k]) == Code(code)
           && env.parseJs(code) == Some(ast) && JsExtractor.UrlLiteralAt(ast, path, u)
  {
    var r := ParseTarget(env, target);
    if r.Finished? && u in r.urls && env.fetch(target).Some?
       && u !in HtmlExtractor.Extract(env.resolve, Some(target), env.parseHtml(env.fetch(target).value), {}) {
      var doc := env.parseHtml(env.fetch(target).value);
      var k :| 0 <= k < |doc| && PageYields(env, target, doc[k], u);
      assert !HtmlExtractor.Found(env.resolve, Some(target), doc[k], u);
      var code, ast, path := ScriptLiteral(env, target, doc[k], u);
    }
  }

  /** A value one script yields is a string literal of its parsed code. */
  lemma ScriptLiteral(env: Env, target: Url, e: HtmlExtractor.Element, u: Url)
      returns (code: string, ast: JsExtractor.JsValue, path: seq<nat>)
    requires ScriptYields(env, target, e, u)
    ensures ScriptCode(env, target, e) == Code(code) && env.parseJs(code) == Some(ast)
    ensures JsExtractor.UrlLiteralAt(ast, path, u)
  {
    code := ScriptCode(env, target, e).js;
    ast := env.parseJs(code).value;
    JsExtractor.CollectSound(ast, u);
    path :| JsExtractor.UrlLiteralAt(ast, path, u);
  }

  /** The script loop with an unjoinable `src` skipped like a failed fetch. */
  function ScriptLoopGuarded(env: Env, target: Url, doc: HtmlExtractor.Document, js: set<Url>, acc: set<Url>): (r: set<Url>)
    requires js <= acc
    ensures forall u :: u in r <==> u in acc || exists k :: 0 <= k < |doc| && ScriptYields(env, target, doc[k], u)
    decreases |doc|
  {
    if doc == [] then acc
    else
      assert forall k :: 0 <= k < |doc| - 1 ==> doc[1..][k] == doc[k + 1];
      match ScriptCode(env, target, doc[0])
      case Code(code) =>
        var js' := JsExtractor.Extract(env.parseJs, code, js);
        var r := ScriptLoopGuarded(env, target, doc[1..], js', acc + js');
        assert forall u :: u in js' <==> u in js || ScriptYields(env, target, doc[0], u);
        r
      case _ => ScriptLoopGuarded(env, target, doc[1..], js, acc)
  }

  /** `parse_target` with the join of a script `src` inside the `try` that
      already guards its fetch: no element can abort the page. */
  function ParseTargetGuarded(env: Env, target: Url): (r: set<Url>)
    ensures env.fetch(target).None? ==> r == {}
    ensures env.fetch(target).Some? ==>
              var doc := env.parseHtml(env.fetch(target).value);
              forall u :: u in r <==> exists k :: 0 <= k < |doc| && PageYields(env, target, doc[k], u)
  {
    match env.fetch(target)
    case None => {}
    case Some(body) =>
      var doc := env.parseHtml(body);
      var html := HtmlExtractor.Extract(env.resolve, Some(target), doc, {});
      var r := ScriptLoopGuarded(env, target, doc, {}, html);
      MergeYields(env, target, doc, html, r);
      r
  }

  /** Whenever the code as written finishes, the guarded version returns the
      same set. */
  lemma GuardedAgrees(env: Env, target: Url)
    requires ParseTarget(env, target).Finished?
    ensures ParseTarget(env, target).urls == ParseTargetGuarded(env, target)
  {
    var a := ParseTarget(env, target).urls;
    var b := ParseTargetGuarded(env, target);
    assert forall u :: u in a <==> u in b;
  }

  /** A page with a link and a script whose `src` cannot be joined: the code
      as written raises out of `parse_target` and loses the link the HTML
      extractor had already found; the guarded version keeps it. */
  lemma UnjoinableSrcAbortsPage()
    ensures
      var page := [HtmlExtractor.Element("a", map["href" := "/x"], None),
                   HtmlExtractor.Element("script", map["src" := "http://["], None)];
      var env := Env(u => Some(""), body => page, js => None,
                     (b, r) => if r == "http://[" then None else Some(r));
      && ParseTarget(env, "http://h/") == Raised
      && "/x" in ParseTargetGuarded(env, "http://h/")
  {
    var page := [HtmlExtractor.Element("a", map["href" := "/x"], None),
                 HtmlExtractor.Element("script", map["src" := "http://["], None)];
    var env := Env(u => Some(""), body => page, js => None,
                   (b, r) => if r == "http://[" then None else Some(r));
    assert ScriptCode(env, "http://h/", page[1]).JoinRaised?;
    assert HtmlExtractor.LinkTable[0] == ("a", "href");
    assert HtmlExtractor.Found(env.resolve, Some("http://h/"), page[0], "/x");
  }
}
