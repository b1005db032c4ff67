/** The two lexical patterns `HTMLExtractor._extract_inline` hands to
    `re.findall`, written out as explicit left-to-right scanners:
      - `https?://\S+` over the text of `<script>` elements, and
      - `url\(["']?(.*?)["']?\)` over the text of `<style>` elements.
    A scanner is a matcher that tries one start position (`MatchAt`) and a
    driver that produces findall's leftmost, non-overlapping matches
    (`FindAll`). */
module InlineScan {
  import opened Common

  datatype Pattern =
    | HttpUrl  // https?://\S+            findall yields the whole match
    | CssUrl   // url\(["']?(.*?)["']?\)  findall yields group 1

  /** One match: the pattern consumed `text[start..end]`, and findall
      yields `text[capStart..capEnd]`. */
  datatype Hit = Hit(start: nat, end: nat, capStart: nat, capEnd: nat)

  /** `h` is a non-empty match starting at `i` that lies inside `text`. */
  predicate HitIn(text: string, i: nat, h: Hit) {
    h.start == i && i <= h.capStart <= h.capEnd <= h.end <= |text| && i < h.end
  }

  /** Python's `https?://\S+` tried at index `i`. The greedy `s?` is undone
      only when `https://` is followed by whitespace, and then `http://`
      cannot match either, so the choice is made once. */
  function HttpMatchAt(text: string, i: nat): (r: Option<Hit>)
    requires i <= |text|
    ensures r.Some? ==> HitIn(text, i, r.value)
    // findall yields the whole match
    ensures r.Some? ==> r.value.capStart == i && r.value.capEnd == r.value.end
    // the scheme prefix, then at least one character after "//"
    ensures r.Some? ==>
              || (PrefixAt(text, i, "http://") && i + 7 < r.value.end)
              || (PrefixAt(text, i, "https://") && i + 8 < r.value.end)
    // no whitespace inside, and maximal: whitespace or the end of text follows
    ensures r.Some? ==> forall k :: i <= k < r.value.end ==> !IsSpace(text[k])
    ensures r.Some? ==> r.value.end == |text| || IsSpace(text[r.value.end])
    // no match: neither scheme prefix is followed by a non-space character
    ensures r.None? ==> PrefixAt(text, i, "http://") ==> i + 7 == |text| || IsSpace(text[i + 7])
    ensures r.None? ==> PrefixAt(text, i, "https://") ==> i + 8 == |text| || IsSpace(text[i + 8])
  {
    assert PrefixAt(text, i, "https://") ==> text[i + 4] == text[i..i + 8][4] == 's';
    assert PrefixAt(text, i, "http://") ==> text[i + 4] == text[i..i + 7][4] == ':';
    var n := if PrefixAt(text, i, "https://") then 8 else if PrefixAt(text, i, "http://") then 7 else 0;
    if n > 0 && i + n < |text| && !IsSpace(text[i + n]) then
      assert forall k :: i <= k < i + n ==> text[k] == text[i..i + n][k - i];
      var e := SpanEnd(text, i + n);
      Some(Hit(i, e, i, e))
    else
      None
  }

  /** Can the tail `["']?\)` of the CSS pattern match at `p`: a `)`, or a
      quote followed by `)`. */
  predicate ClosesAt(text: string, p: nat) {
    p < |text| && (text[p] == ')' || (IsQuote(text[p]) && p + 1 < |text| && text[p + 1] == ')'))
  }

  /** The lazy group `(.*?)` started at `p`: the first position at which the
      tail can match, provided `.` (anything but a newline) can reach it. */
  function CloseFrom(text: string, p: nat): (r: Option<nat>)
    requires p <= |text|
    ensures r.Some? ==> p <= r.value && ClosesAt(text, r.value)
    ensures r.Some? ==> forall q :: p <= q < r.value ==> text[q] != '\n' && text[q] != ')'
    ensures r.Some? ==> forall q {:trigger ClosesAt(text, q)} :: p <= q < r.value ==> !ClosesAt(text, q)
    ensures r.None? ==> forall q :: p <= q < LineEnd(text, p) ==> text[q] != ')'
    decreases |text| - p
  {
    if p == |text| || text[p] == '\n' then None
    else if ClosesAt(text, p) then Some(p)
    else CloseFrom(text, p + 1)
  }

  /** Python's `url\(["']?(.*?)["']?\)` tried at index `i`. The optional
      leading quote is taken when present: giving it back never lets the
      rest match where it failed, because the quote is neither a newline
      nor a `)`. */
  function CssMatchAt(text: string, i: nat): (r: Option<Hit>)
    requires i <= |text|
    ensures r.Some? ==> HitIn(text, i, r.value) && PrefixAt(text, i, "url(")
    // a leading quote is not part of the capture
    ensures r.Some? ==>
              r.value.capStart == if i + 4 < |text| && IsQuote(text[i + 4]) then i + 5 else i + 4
    // the capture holds no newline and no `)`, and the tail cannot match inside it
    ensures r.Some? ==>
              forall q :: r.value.capStart <= q < r.value.capEnd ==> text[q] != '\n' && text[q] != ')'
    ensures r.Some? ==>
              forall q {:trigger ClosesAt(text, q)} :: r.value.capStart <= q < r.value.capEnd ==> !ClosesAt(text, q)
    // it is closed by `)` or by a quote and `)`
    ensures r.Some? ==>
              r.value.capEnd < |text|
              && ((text[r.value.capEnd] == ')' && r.value.end == r.value.capEnd + 1)
                  || (IsQuote(text[r.value.capEnd]) && r.value.capEnd + 1 < |text|
                      && text[r.value.capEnd + 1] == ')' && r.value.end == r.value.capEnd + 2))
    // no match: no `url(` here, or no `)` before the end of its line
    ensures r.None? ==>
              !PrefixAt(text, i, "url(") || forall q :: i + 4 <= q < LineEnd(text, i + 4) ==> text[q] != ')'
  {
    if !PrefixAt(text, i, "url(") then None
    else
      var c := if i + 4 < |text| && IsQuote(text[i + 4]) then i + 5 else i + 4;
      match CloseFrom(text, c)
      case None =>
        assert c == i + 5 ==> LineEnd(text, i + 4) == LineEnd(text, i + 5);
        None
      case Some(ce) =>
        var e := if text[ce] == ')' then ce + 1 else ce + 2;
        Some(Hit(i, e, c, ce))
  }

  /** The matcher of `pat` tried at index `i`. */
  function MatchAt(pat: Pattern, text: string, i: nat): (r: Option<Hit>)
    requires i <= |text|
    ensures r.Some? ==> HitIn(text, i, r.value)
  {
    match pat
    case HttpUrl => HttpMatchAt(text, i)
    case CssUrl => CssMatchAt(text, i)
  }

  /** Index `j` lies inside one of the hits. */
  predicate Covered(hs: seq<Hit>, j: nat) {
    exists k :: 0 <= k < |hs| && hs[k].start <= j < hs[k].end
  }

  /** `re.findall` from index `i`: try each position in turn; after a match,
      resume at its end. */
  function FindAll(pat: Pattern, text: string, i: nat): (hs: seq<Hit>)
    requires i <= |text|
    // every hit is the pattern's match at its own start, at or after `i`
    ensures forall k :: 0 <= k < |hs| ==> i <= hs[k].start <= |text| && MatchAt(pat, text, hs[k].start) == Some(hs[k])
    // left to right, without overlap
    ensures forall k :: 0 <= k < |hs| - 1 ==> hs[k].end <= hs[k + 1].start
    // nothing skipped: every position outside the hits has no match
    ensures forall j {:trigger Covered(hs, j)} :: i <= j <= |text| && !Covered(hs, j) ==> MatchAt(pat, text, j).None?
    decreases |text| - i
  {
    if i == |text| then []
    else
      match MatchAt(pat, text, i)
      case None =>
        FindAll(pat, text, i + 1)
      case Some(h) =>
        var rest := FindAll(pat, text, h.end);
        var hs := [h] + rest;
        forall k | 0 <= k < |hs|
          ensures i <= hs[k].start <= |text| && MatchAt(pat, text, hs[k].start) == Some(hs[k])
        {
          if k > 0 { assert hs[k] == rest[k - 1]; }
        }
        forall j: nat | Covered(rest, j) ensures Covered(hs, j) {
          var k :| 0 <= k < |rest| && rest[k].start <= j < rest[k].end;
          assert hs[k + 1] == rest[k];
        }
        forall j: nat | i <= j < h.end ensures Covered(hs, j) {
          assert hs[0] == h;
        }
        hs
  }

  /** What findall returns: the captured text of each hit, in order. */
  function Captures(text: string, hs: seq<Hit>): (cs: seq<Url>)
    requires forall k :: 0 <= k < |hs| ==> hs[k].capStart <= hs[k].capEnd <= |text|
    ensures |cs| == |hs|
    ensures forall k :: 0 <= k < |hs| ==> cs[k] == text[hs[k].capStart..hs[k].capEnd]
  {
    seq(|hs|, k requires 0 <= k < |hs| => text[hs[k].capStart..hs[k].capEnd])
  }

  /** `re.findall(pattern, text)`. */
  function Candidates(pat: Pattern, text: string): seq<Url> {
    var hs := FindAll(pat, text, 0);
    Captures(text, hs)
  }

  /** A hit of one pattern, found by findall over `text`. */
  lemma FoundHit(pat: Pattern, text: string, u: Url) returns (h: Hit)
    requires u in Candidates(pat, text)
    ensures h.start <= |text| && MatchAt(pat, text, h.start) == Some(h)
    ensures u == text[h.capStart..h.capEnd]
  {
    var hs := FindAll(pat, text, 0);
    var k :| 0 <= k < |hs| && Captures(text, hs)[k] == u;
    h := hs[k];
  }

  /** Every candidate the `https?://\S+` scan yields starts with `http://` or
      `https://`, has a character after `//` and holds no whitespace; where
      it occurs in the text, whitespace or the end of the text follows it. */
  lemma HttpCandidateShape(text: string, u: Url)
    requires u in Candidates(HttpUrl, text)
    ensures || (PrefixAt(u, 0, "http://") && |u| > 7)
            || (PrefixAt(u, 0, "https://") && |u| > 8)
    ensures forall k :: 0 <= k < |u| ==> !IsSpace(u[k])
    ensures exists j: nat :: PrefixAt(text, j, u) && (j + |u| == |text| || IsSpace(text[j + |u|]))
  {
    var h := FoundHit(HttpUrl, text, u);
    HttpHitShape(text, h, u);
    var j: nat := h.start;
    assert PrefixAt(text, j, u) && (j + |u| == |text| || IsSpace(text[j + |u|]));
  }

  /** The text `u` of one `https?://\S+` match. */
  lemma HttpHitShape(text: string, h: Hit, u: Url)
    requires h.start <= |text| && MatchAt(HttpUrl, text, h.start) == Some(h)
    requires u == text[h.capStart..h.capEnd]
    ensures (PrefixAt(u, 0, "http://") && |u| > 7) || (PrefixAt(u, 0, "https://") && |u| > 8)
    ensures forall k :: 0 <= k < |u| ==> !IsSpace(u[k])
    ensures PrefixAt(text, h.start, u) && (h.start + |u| == |text| || IsSpace(text[h.start + |u|]))
  {
    assert HttpMatchAt(text, h.start) == Some(h);
    assert forall m :: 0 <= m < |u| ==> u[m] == text[h.start + m];
    if PrefixAt(text, h.start, "http://") {
      assert u[..7] == text[h.start..h.start + 7];
    } else {
      assert u[..8] == text[h.start..h.start + 8];
    }
  }

  /** Every candidate the CSS `url(...)` scan yields holds no `)` and no newline. */
  lemma CssCandidateShape(text: string, u: Url)
    requires u in Candidates(CssUrl, text)
    ensures forall m :: 0 <= m < |u| ==> u[m] != ')' && u[m] != '\n'
  {
    var h := FoundHit(CssUrl, text, u);
    assert CssMatchAt(text, h.start) == Some(h);
    assert forall m :: 0 <= m < |u| ==> u[m] == text[h.capStart + m];
  }

  /** A position where the pattern does not match is stepped over. */
  lemma SkipOne(pat: Pattern, text: string, i: nat)
    requires i < |text| && MatchAt(pat, text, i).None?
    ensures FindAll(pat, text, i) == FindAll(pat, text, i + 1)
  {
  }

  /** A stretch of positions where the pattern does not match is stepped over. */
  lemma {:induction false} SkipUnmatched(pat: Pattern, text: string, i: nat, j: nat)
    requires i <= j <= |text|
    requires forall k: nat :: i <= k < j ==> FindAll(pat, text, k) == FindAll(pat, text, k + 1)
    ensures FindAll(pat, text, i) == FindAll(pat, text, j)
    decreases j - i
  {
    if i < j {
      SkipUnmatched(pat, text, i + 1, j);
    }
  }

  /** A quoted `url('...')` in a style block yields the path without its
      quotes. */
  lemma CssQuotedExample()
    ensures Candidates(CssUrl, "body{background:url('/img/a.png')}") == ["/img/a.png"]
  {
    var t := "body{background:url('/img/a.png')}";
    CssExampleSkip();
    CssExampleHit();
    SkipOne(CssUrl, t, 33);
    assert FindAll(CssUrl, t, 16) == [Hit(16, 33, 21, 31)];
    CssExampleCapture();
  }

  lemma CssExampleCapture()
    ensures "body{background:url('/img/a.png')}"[21..31] == "/img/a.png"
  {
    var t := "body{background:url('/img/a.png')}";
    assert t == "body{background:url('" + "/img/a.png" + "')}";
  }

  lemma CssExampleSkip()
    ensures FindAll(CssUrl, "body{background:url('/img/a.png')}", 0)
         == FindAll(CssUrl, "body{background:url('/img/a.png')}", 16)
  {
    var t := "body{background:url('/img/a.png')}";
    forall k: nat | k < 16 ensures FindAll(CssUrl, t, k) == FindAll(CssUrl, t, k + 1) {
      CssExampleNoUrl(k);
      SkipOne(CssUrl, t, k);
    }
    SkipUnmatched(CssUrl, t, 0, 16);
  }

  lemma CssExampleNoUrl(k: nat)
    requires k < 16
    ensures !PrefixAt("body{background:url('/img/a.png')}", k, "url(")
  {
    var t := "body{background:url('/img/a.png')}";
    if k == 12 { assert t[k + 1] == 'n'; } else { assert t[k] != 'u'; }
  }

  lemma CssExampleHit()
    ensures CssMatchAt("body{background:url('/img/a.png')}", 16) == Some(Hit(16, 33, 21, 31))
  {
    var t := "body{background:url('/img/a.png')}";
    assert t[16..20] == "url(";
    assert IsQuote(t[20]) && t[31] == '\'';
    assert CloseFrom(t, 31) == Some(31);
    assert CloseFrom(t, 30) == Some(31);
    assert CloseFrom(t, 29) == Some(31);
    assert CloseFrom(t, 28) == Some(31);
    assert CloseFrom(t, 27) == Some(31);
    assert CloseFrom(t, 26) == Some(31);
    assert CloseFrom(t, 25) == Some(31);
    assert CloseFrom(t, 24) == Some(31);
    assert CloseFrom(t, 23) == Some(31);
    assert CloseFrom(t, 22) == Some(31);
    assert CloseFrom(t, 21) == Some(31);
  }

  /** `\S+` is greedy: a URL written as a quoted script string is taken
      together with the closing quote and semicolon that follow it. */
  lemma HttpGreedyExample()
    ensures Candidates(HttpUrl, "u=\"http://a/\";") == ["http://a/\";"]
  {
    var t := "u=\"http://a/\";";
    HttpExampleSkip();
    HttpExampleHit();
    assert FindAll(HttpUrl, t, 3) == [Hit(3, 14, 3, 14)];
    assert t[3..14] == "http://a/\";";
  }

  lemma HttpExampleSkip()
    ensures FindAll(HttpUrl, "u=\"http://a/\";", 0) == FindAll(HttpUrl, "u=\"http://a/\";", 3)
  {
    var t := "u=\"http://a/\";";
    forall k: nat | k < 3 ensures FindAll(HttpUrl, t, k) == FindAll(HttpUrl, t, k + 1) {
      HttpExampleNoUrl(k);
      SkipOne(HttpUrl, t, k);
    }
    SkipUnmatched(HttpUrl, t, 0, 3);
  }

  lemma HttpExampleNoUrl(k: nat)
    requires k < 3
    ensures !PrefixAt("u=\"http://a/\";", k, "http://")
    ensures !PrefixAt("u=\"http://a/\";", k, "https://")
  {
    var t := "u=\"http://a/\";";
    assert t[k] != 'h';
    assert t[k..k + 7][0] == t[k] && t[k..k + 8][0] == t[k];
  }

  lemma HttpExampleHit()
    ensures HttpMatchAt("u=\"http://a/\";", 3) == Some(Hit(3, 14, 3, 14))
  {
    var t := "u=\"http://a/\";";
    assert t[3..10] == "http://";
    assert t[3..11][4] == t[7] == ':';
    assert Until(t, 14, IsSpace) == 14;
    assert Until(t, 13, IsSpace) == 14;
    assert Until(t, 12, IsSpace) == 14;
    assert Until(t, 11, IsSpace) == 14;
    assert Until(t, 10, IsSpace) == 14;
  }
}
