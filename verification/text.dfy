/**
 * The JavaScript string operations the extractor relies on:
 * `String.prototype.trim`, `startsWith` and `split` on a single character.
 */
module Text {

  /** The characters JavaScript's `trim` removes: white space and line terminators. */
  predicate IsWhite(c: char) {
    || c == ' ' || c == '\t' || c == '\n' || c == '\r'
    || c == '\U{000B}' || c == '\U{000C}' || c == '\U{00A0}' || c == '\U{FEFF}'
    || c == '\U{1680}' || ('\U{2000}' <= c <= '\U{200A}')
    || c == '\U{2028}' || c == '\U{2029}' || c == '\U{202F}'
    || c == '\U{205F}' || c == '\U{3000}'
  }

  /** The index of the first character at or after `i` that is not white space, or `|s|`. */
  function SkipWhite(s: string, i: nat): (k: nat)
    requires i <= |s|
    ensures i <= k <= |s|
    ensures k < |s| ==> !IsWhite(s[k])
    decreases |s| - i
  {
    if i < |s| && IsWhite(s[i]) then SkipWhite(s, i + 1) else i
  }

  /** The end of `s[lo..j]` once its trailing white space is dropped. */
  function SkipWhiteBack(s: string, lo: nat, j: nat): (k: nat)
    requires lo <= j <= |s|
    ensures lo <= k <= j
    ensures k > lo ==> !IsWhite(s[k - 1])
    decreases j
  {
    if j > lo && IsWhite(s[j - 1]) then SkipWhiteBack(s, lo, j - 1) else j
  }

  /** Where the trimmed text starts in `s`. */
  function TrimFrom(s: string): nat {
    SkipWhite(s, 0)
  }

  /** Where the trimmed text ends in `s`. */
  function TrimTo(s: string): (k: nat)
    ensures TrimFrom(s) <= k <= |s|
  {
    SkipWhiteBack(s, TrimFrom(s), |s|)
  }

  /** `s.trim()`: `s` without its leading and trailing white space. */
  function Trim(s: string): (r: string)
    ensures |r| > 0 ==> !IsWhite(r[0]) && !IsWhite(r[|r| - 1])
  {
    s[TrimFrom(s)..TrimTo(s)]
  }

  lemma {:induction false} SkipWhiteSkipsOnlyWhite(s: string, i: nat)
    requires i <= |s|
    ensures forall k :: i <= k < SkipWhite(s, i) ==> IsWhite(s[k])
    decreases |s| - i
  {
    if i < |s| && IsWhite(s[i]) {
      SkipWhiteSkipsOnlyWhite(s, i + 1);
    }
  }

  lemma {:induction false} SkipWhiteBackSkipsOnlyWhite(s: string, lo: nat, j: nat)
    requires lo <= j <= |s|
    ensures forall k :: SkipWhiteBack(s, lo, j) <= k < j ==> IsWhite(s[k])
    decreases j
  {
    if j > lo && IsWhite(s[j - 1]) {
      SkipWhiteBackSkipsOnlyWhite(s, lo, j - 1);
    }
  }

  /**
   * `Trim` keeps one contiguous piece of its input and drops only white
   * space around it; together with `Trim`'s own contract (the piece neither
   * starts nor ends with white space) this pins the result down.
   */
  lemma TrimKeepsInfix(s: string)
    ensures Trim(s) == s[TrimFrom(s)..TrimTo(s)]
    ensures forall k :: 0 <= k < TrimFrom(s) ==> IsWhite(s[k])
    ensures forall k :: TrimTo(s) <= k < |s| ==> IsWhite(s[k])
    ensures forall c :: c in Trim(s) ==> c in s
  {
    SkipWhiteSkipsOnlyWhite(s, 0);
    SkipWhiteBackSkipsOnlyWhite(s, TrimFrom(s), |s|);
  }

  /** Trimming is idempotent: a trimmed string is a fixed point of `Trim`. */
  lemma TrimIdempotent(s: string)
    ensures Trim(Trim(s)) == Trim(s)
  {
    var r := Trim(s);
    assert TrimFrom(r) == 0;
    assert TrimTo(r) == |r|;
  }

  /** The regular-expression class `\d`: an ASCII digit. */
  predicate IsDigit(c: char) {
    '0' <= c <= '9'
  }

  predicate StartsWith(s: string, prefix: string) {
    |prefix| <= |s| && s[..|prefix|] == prefix
  }

  /** Concatenates `parts` with `sep` between neighbours; the inverse of `Split`. */
  function Join(parts: seq<string>, sep: char): string {
    if |parts| == 0 then ""
    else if |parts| == 1 then parts[0]
    else parts[0] + [sep] + Join(parts[1..], sep)
  }

  /**
   * `s.split(sep)` for a one-character separator: the pieces between
   * separators, so there is always at least one piece (`"".split("\n")` is `[""]`).
   */
  function Split(s: string, sep: char): (r: seq<string>)
    ensures |r| >= 1
    ensures forall k :: 0 <= k < |r| ==> sep !in r[k]
    ensures Join(r, sep) == s
  {
    if |s| == 0 then [""]
    else
      var rest := Split(s[1..], sep);
      assert s == [s[0]] + s[1..];
      if s[0] == sep then [""] + rest
      else [[s[0]] + rest[0]] + rest[1..]
  }

  /** `split` yields one more piece than the text has separators. */
  lemma {:induction false} SplitCount(s: string, sep: char)
    ensures |Split(s, sep)| == 1 + multiset(s)[sep]
  {
    if |s| > 0 {
      SplitCount(s[1..], sep);
      assert s == [s[0]] + s[1..];
      assert multiset(s) == multiset{s[0]} + multiset(s[1..]);
    }
  }
}
