/**
 * What the directive regular expressions need from Go's RE2 engine. Both
 * expressions are compiled with the flags `(?mi)`: `^` and `$` match at line
 * boundaries, so a match is a whole line of the input, and the first line
 * that matches is the leftmost match; case folding widens `\w` by the two
 * non-ASCII runes that fold to `s` and `k`.
 */
module Patterns {
  import opened Wrappers
  import opened Strings

  /** `\w` under `(?i)`: [0-9A-Za-z_] plus U+017F (folds to s) and U+212A (folds to k). */
  predicate IsWordChar(c: char)
  {
    ('a' <= c <= 'z') || ('A' <= c <= 'Z') || ('0' <= c <= '9') || c == '_'
    || c == '\U{17F}' || c == '\U{212A}'
  }

  predicate AllWord(s: string)
  {
    forall i :: 0 <= i < |s| ==> IsWordChar(s[i])
  }

  /** `[\w.]+` without the length requirement. */
  predicate AllWordOrDot(s: string)
  {
    forall i :: 0 <= i < |s| ==> IsWordChar(s[i]) || s[i] == '.'
  }

  /** `[\w.,]+` without the length requirement. */
  predicate AllArgChars(s: string)
  {
    forall i :: 0 <= i < |s| ==> IsWordChar(s[i]) || s[i] == '.' || s[i] == ','
  }

  /** The result of matching the first line, in order, on which `m` succeeds. */
  function FirstMatch<T>(lines: seq<string>, m: string -> Option<T>): (r: Option<T>)
    ensures r.None? <==> forall i :: 0 <= i < |lines| ==> m(lines[i]).None?
    ensures r.Some? ==> exists i :: 0 <= i < |lines| && m(lines[i]) == r && forall j :: 0 <= j < i ==> m(lines[j]).None?
  {
    if lines == [] then None
    else if m(lines[0]).Some? then m(lines[0])
    else
      var r := FirstMatch(lines[1..], m);
      assert forall i :: 1 <= i < |lines| ==> lines[i] == lines[1..][i - 1];
      r
  }

  /** Leftmost match of a `(?m)^...$` pattern that cannot span a newline. */
  function FindLine<T>(s: string, m: string -> Option<T>): Option<T>
  {
    FirstMatch(Split(s, '\n'), m)
  }

  /** On single-line input the search is one whole-string match. */
  lemma FindSingleLine<T>(s: string, m: string -> Option<T>)
    requires '\n' !in s
    ensures FindLine(s, m) == m(s)
  {
    SplitNoSep(s, '\n');
  }
}
