/**
  Whitespace trimming as the validators use it (Go's `strings.TrimSpace`).

  Strings are sequences of code points. The whitespace set is the Latin-1
  part of Unicode's White_Space property, which is what `unicode.IsSpace`
  accepts below U+0100.
 */
module Text {

  /** Horizontal tab, line feed, vertical tab, form feed, carriage return,
      space, next line (U+0085) and no-break space (U+00A0). */
  predicate IsSpace(c: char) {
    c == '\t' || c == '\n' || c == '\U{000B}' || c == '\U{000C}' || c == '\r'
    || c == ' ' || c == '\U{0085}' || c == '\U{00A0}'
  }

  /** A blank string holds nothing but whitespace (the empty string is blank). */
  predicate IsBlank(s: string) {
    forall i :: 0 <= i < |s| ==> IsSpace(s[i])
  }

  /** The first index at or after `i` that holds no whitespace, or `|s|`. */
  function SkipLeading(s: string, i: nat): (j: nat)
    requires i <= |s|
    ensures i <= j <= |s|
    ensures forall k :: i <= k < j ==> IsSpace(s[k])
    ensures j < |s| ==> !IsSpace(s[j])
    decreases |s| - i
  {
    if i == |s| || !IsSpace(s[i]) then i else SkipLeading(s, i + 1)
  }

  /** The end of `s[lo..j]` once its trailing whitespace is dropped. */
  function SkipTrailing(s: string, lo: nat, j: nat): (k: nat)
    requires lo <= j <= |s|
    ensures lo <= k <= j
    ensures forall m :: k <= m < j ==> IsSpace(s[m])
    ensures lo < k ==> !IsSpace(s[k - 1])
    decreases j
  {
    if j == lo || !IsSpace(s[j - 1]) then j else SkipTrailing(s, lo, j - 1)
  }

  /** `s` is `r` with nothing but whitespace before and after it. */
  predicate Padded(s: string, before: string, r: string, after: string) {
    IsBlank(before) && IsBlank(after) && s == before + r + after
  }

  /** Go's `strings.TrimSpace`: `s` without its leading and trailing whitespace. */
  function TrimSpace(s: string): (r: string)
    ensures exists before, after :: Padded(s, before, r, after)
    ensures |r| > 0 ==> !IsSpace(r[0]) && !IsSpace(r[|r| - 1])
    ensures r == [] <==> IsBlank(s)
  {
    var lo := SkipLeading(s, 0);
    var hi := SkipTrailing(s, lo, |s|);
    SplitInThree(s, lo, hi);
    CutsAreBlank(s, lo, hi);
    CutsMeetIffBlank(s, lo, hi);
    assert Padded(s, s[..lo], s[lo..hi], s[hi..]);
    s[lo..hi]
  }

  lemma SplitInThree(s: string, lo: nat, hi: nat)
    requires lo <= hi <= |s|
    ensures s == s[..lo] + s[lo..hi] + s[hi..]
  {
  }

  /** What `TrimSpace` cuts off is whitespace. */
  lemma CutsAreBlank(s: string, lo: nat, hi: nat)
    requires lo == SkipLeading(s, 0)
    requires hi == SkipTrailing(s, lo, |s|)
    ensures IsBlank(s[..lo]) && IsBlank(s[hi..])
  {
  }

  /** `TrimSpace` cuts everything away exactly when `s` is blank. */
  lemma CutsMeetIffBlank(s: string, lo: nat, hi: nat)
    requires lo == SkipLeading(s, 0)
    requires hi == SkipTrailing(s, lo, |s|)
    ensures lo == hi <==> IsBlank(s)
  {
  }
}
