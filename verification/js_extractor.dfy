/** `JavaScriptExtractor` (pturlparser/modules/url_extractor.py): a walk over
    the syntax tree of a script that collects string literals mentioning
    `http://` or `https://`. Parsing is outside the model: the parser is a
    function from source text to a tree, or to nothing when it raises. */
module JsExtractor {
  import opened Common

  /** A Python value that is neither a syntax node nor a list: a string or
      anything else (number, boolean, None, ...). */
  datatype Scalar = Str(s: string) | NonString

  /** What the walk can meet. A `Literal` node keeps its `value` and the
      values iterating over the node yields; any other node keeps the latter
      only. */
  datatype JsValue =
    | Literal(value: Scalar, fields: seq<JsValue>)
    | Node(children: seq<JsValue>)
    | List(items: seq<JsValue>)
    | Leaf(scalar: Scalar)

  /** `esprima.parseScript(js, tolerant=True, jsx=True)`; None stands for the
      call raising. */
  type JsParser = string -> Option<JsValue>

  /** `'http://' in s or 'https://' in s`: containment anywhere, not a prefix. */
  predicate MentionsHttp(s: string) {
    Contains(s, "http://") || Contains(s, "https://")
  }

  /** `extract_from_node`: a string literal is tested and never entered; a
      non-string literal falls through to the node branch (it is a node
      too); nodes and lists are walked child by child; anything else is
      ignored. */
  function Collect(v: JsValue): (found: set<Url>)
    ensures forall s :: s in found ==> MentionsHttp(s)
  {
    match v
    case Literal(Str(s), _) => if MentionsHttp(s) then {s} else {}
    case Literal(NonString, fields) => CollectAll(fields)
    case Node(children) => CollectAll(children)
    case List(items) => CollectAll(items)
    case Leaf(_) => {}
  }

  /** The walk over each value of a sequence, in order. */
  function CollectAll(vs: seq<JsValue>): (found: set<Url>)
    ensures forall s :: s in found ==> MentionsHttp(s)
  {
    if vs == [] then {} else Collect(vs[0]) + CollectAll(vs[1..])
  }

  /** The values the walk enters below `v`. */
  function Entered(v: JsValue): seq<JsValue> {
    match v
    case Literal(Str(_), _) => []
    case Literal(NonString, fields) => fields
    case Node(children) => children
    case List(items) => items
    case Leaf(_) => []
  }

  /** The value reached from `v` by following child positions along `path`,
      moving only where the walk itself enters. */
  function Descend(v: JsValue, path: seq<nat>): Option<JsValue>
    decreases |path|
  {
    if path == [] then Some(v)
    else if path[0] < |Entered(v)| then Descend(Entered(v)[path[0]], path[1..])
    else None
  }

  /** Following `path` from `v` reaches a string literal `s` that mentions
      `http://` or `https://`. */
  predicate UrlLiteralAt(v: JsValue, path: seq<nat>, s: string) {
    var w := Descend(v, path);
    w.Some? && w.value.Literal? && w.value.value == Str(s) && MentionsHttp(s)
  }

  /** The walk of a non-literal value is the walk of what it enters. */
  lemma CollectEntered(v: JsValue)
    requires !(v.Literal? && v.value.Str?)
    ensures Collect(v) == CollectAll(Entered(v))
  {
  }

  /** The walk of a sequence covers the walk of each of its members. */
  lemma {:induction false} CollectAllCovers(vs: seq<JsValue>, k: nat)
    requires k < |vs|
    ensures Collect(vs[k]) <= CollectAll(vs)
    decreases k
  {
    if k > 0 {
      CollectAllCovers(vs[1..], k - 1);
      assert vs[1..][k - 1] == vs[k];
    }
  }

  /** Completeness: a qualifying string literal at any depth, under any node
      child or list element, is collected. */
  lemma {:induction false} CollectComplete(v: JsValue, path: seq<nat>, s: string)
    requires UrlLiteralAt(v, path, s)
    ensures s in Collect(v)
    decreases |path|
  {
    if path != [] {
      var cs := Entered(v);
      assert path[0] < |cs|;
      CollectComplete(cs[path[0]], path[1..], s);
      CollectAllCovers(cs, path[0]);
      CollectEntered(v);
    }
  }

  /** Soundness: a collected value is a qualifying string literal found at
      some position of the tree, taken verbatim. */
  lemma {:induction false} CollectSound(v: JsValue, s: string)
    requires s in Collect(v)
    ensures exists path :: UrlLiteralAt(v, path, s)
    decreases v, 1
  {
    if v.Literal? && v.value.Str? {
      assert UrlLiteralAt(v, [], s);
    } else {
      CollectEntered(v);
      var k := CollectAllSound(Entered(v), s);
      var path :| UrlLiteralAt(Entered(v)[k], path, s);
      assert ([k] + path)[1..] == path;
      assert UrlLiteralAt(v, [k] + path, s);
    }
  }

  /** Soundness over a sequence: the value comes from one of its members. */
  lemma {:induction false} CollectAllSound(vs: seq<JsValue>, s: string) returns (k: nat)
    requires s in CollectAll(vs)
    ensures k < |vs| && exists path :: UrlLiteralAt(vs[k], path, s)
    decreases vs, 0
  {
    if s in Collect(vs[0]) {
      CollectSound(vs[0], s);
      k := 0;
    } else {
      var j := CollectAllSound(vs[1..], s);
      assert vs[1..][j] == vs[j + 1];
      k := j + 1;
    }
  }

  /** `JavaScriptExtractor.extract`: parse and walk, adding to the store
      `urls`; a parse that raises adds nothing. It returns the cumulative
      store. */
  function Extract(parse: JsParser, js: string, urls: set<Url>): (r: set<Url>)
    ensures urls <= r
    ensures parse(js).None? ==> r == urls
    // what is added is exactly the qualifying string literals of the tree
    ensures parse(js).Some? ==>
              forall s :: s in r && s !in urls ==> exists path :: UrlLiteralAt(parse(js).value, path, s)
    ensures parse(js).Some? ==>
              forall path, s :: UrlLiteralAt(parse(js).value, path, s) ==> s in r
  {
    match parse(js)
    case None => urls
    case Some(ast) =>
      assert forall s :: s in Collect(ast) ==> exists path :: UrlLiteralAt(ast, path, s) by {
        forall s | s in Collect(ast) ensures exists path :: UrlLiteralAt(ast, path, s) {
          CollectSound(ast, s);
        }
      }
      assert forall path, s :: UrlLiteralAt(ast, path, s) ==> s in Collect(ast) by {
        forall path, s | UrlLiteralAt(ast, path, s) ensures s in Collect(ast) {
          CollectComplete(ast, path, s);
        }
      }
      urls + Collect(ast)
  }

  /** A simplified tree of `var x = "https://cdn.example.com/lib.js";` in the shape
      the walk sees it (node types and the literal's raw text are plain
      strings): the absolute URL comes out unchanged, the plain strings do
      not. */
  lemma LiteralExample()
    ensures Collect(Node([Leaf(Str("Program")), List([
              Node([Leaf(Str("VariableDeclaration")), List([
                Node([Node([Leaf(Str("x"))]),
                      Literal(Str("https://cdn.example.com/lib.js"), [Leaf(Str("\"https://cdn.example.com/lib.js\""))])])])])])]))
            == {"https://cdn.example.com/lib.js"}
  {
    var u := "https://cdn.example.com/lib.js";
    assert PrefixAt(u, 0, "https://");
    var lit := Literal(Str(u), [Leaf(Str("\"https://cdn.example.com/lib.js\""))]);
    var ident := Node([Leaf(Str("x"))]);
    assert Collect(ident) == {} by { assert CollectAll([Leaf(Str("x"))]) == {}; }
    var decl := Node([ident, lit]);
    assert Collect(decl) == {u} by {
      assert CollectAll([lit]) == {u};
      assert CollectAll([ident, lit]) == Collect(ident) + CollectAll([lit]);
    }
    var decls := Node([Leaf(Str("VariableDeclaration")), List([decl])]);
    assert Collect(decls) == {u} by {
      assert CollectAll([decl]) == {u};
      assert Collect(List([decl])) == {u};
      assert CollectAll([List([decl])]) == {u};
      var vs := [Leaf(Str("VariableDeclaration")), List([decl])];
      assert vs[1..] == [List([decl])];
      assert CollectAll(vs) == Collect(vs[0]) + CollectAll(vs[1..]);
    }
    assert CollectAll([decls]) == {u};
    assert Collect(List([decls])) == {u};
    assert CollectAll([List([decls])]) == {u};
    var top := [Leaf(Str("Program")), List([decls])];
    assert top[1..] == [List([decls])];
    assert CollectAll(top) == Collect(top[0]) + CollectAll(top[1..]);
  }
}
