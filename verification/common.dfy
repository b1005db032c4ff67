/** Shared vocabulary of the URL extractor: optional values, URL strings and
    the character classes the extraction patterns are written in. */
module Common {

  /** A value that may be missing; also used for "the foreign call raised". */
  datatype Option<+T> = None | Some(value: T)

  /** A URL or URL candidate, kept exactly as text. */
  type Url = string

  /** Python's `str.isspace`, which is also the class `\s` denotes in a `re`
      pattern over `str` (so `\S` is its complement). */
  predicate IsSpace(c: char) {
    var n := c as int;
    || (9 <= n <= 13) || (28 <= n <= 32) || n == 0x85 || n == 0xA0 || n == 0x1680
    || (0x2000 <= n <= 0x200A) || n == 0x2028 || n == 0x2029 || n == 0x202F
    || n == 0x205F || n == 0x3000
  }

  /** The two quote characters of the class `["']`. */
  predicate IsQuote(c: char) {
    c == '"' || c == '\''
  }

  /** `p` occurs in `text` starting at index `i`. */
  predicate PrefixAt(text: string, i: nat, p: string) {
    i + |p| <= |text| && text[i..i + |p|] == p
  }

  /** Python's `sub in s`: substring containment anywhere in `s`. */
  predicate Contains(s: string, sub: string) {
    exists i: nat | i <= |s| :: PrefixAt(s, i, sub)
  }

  /** The first index at or after `i` whose character satisfies `stop`,
      or `|text|` when there is none. */
  function Until(text: string, i: nat, stop: char -> bool): (e: nat)
    requires i <= |text|
    ensures i <= e <= |text|
    ensures forall k :: i <= k < e ==> !stop(text[k])
    ensures e == |text| || stop(text[e])
    decreases |text| - i
  {
    if i == |text| || stop(text[i]) then i else Until(text, i + 1, stop)
  }

  /** End of the longest whitespace-free run starting at `i`. */
  function SpanEnd(text: string, i: nat): nat
    requires i <= |text|
  {
    Until(text, i, IsSpace)
  }

  /** End of the line `i` lies on: the next newline at or after `i`, or `|text|`. */
  function LineEnd(text: string, i: nat): nat
    requires i <= |text|
  {
    Until(text, i, c => c == '\n')
  }
}
