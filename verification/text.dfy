/**
 Character classes and trimming, as the lookup page's JavaScript sees them.

 Strings are `seq<char>` (Unicode scalar values). The whitespace class is the
 one shared by the regular-expression escape `\s` and `String.prototype.trim`:
 the WhiteSpace and LineTerminator code points of ECMAScript.
 */
module Text {

  /** ECMAScript WhiteSpace (TAB, VT, FF, ZWNBSP, the Unicode space separators)
      and LineTerminator (LF, CR, LS, PS). */
  predicate IsSpace(c: char) {
    || c == '\t' || c == '\n' || c == '\U{000B}' || c == '\U{000C}' || c == '\r'
    || c == ' ' || c == '\U{00A0}' || c == '\U{1680}'
    || ('\U{2000}' <= c <= '\U{200A}')
    || c == '\U{2028}' || c == '\U{2029}' || c == '\U{202F}' || c == '\U{205F}'
    || c == '\U{3000}' || c == '\U{FEFF}'
  }

  /** `\d` and `[0-9]`: ASCII digits only. */
  predicate IsDigit(c: char) {
    '0' <= c <= '9'
  }

  /** `[a-zA-Z]` */
  predicate IsLetter(c: char) {
    ('a' <= c <= 'z') || ('A' <= c <= 'Z')
  }

  /** `[0-9a-zA-Z]` */
  predicate IsAlnum(c: char) {
    IsDigit(c) || IsLetter(c)
  }

  predicate AllSpace(s: string) {
    forall k :: 0 <= k < |s| ==> IsSpace(s[k])
  }

  /** Neither end of `s` is whitespace. */
  predicate IsTrimmed(s: string) {
    |s| > 0 ==> !IsSpace(s[0]) && !IsSpace(s[|s| - 1])
  }

  /** Index of the first non-whitespace character of `s[i..]`, or `|s|`. */
  function SkipSpaces(s: string, i: nat): (j: nat)
    requires i <= |s|
    ensures i <= j <= |s|
    ensures AllSpace(s[i..j])
    ensures j < |s| ==> !IsSpace(s[j])
    decreases |s| - i
  {
    if i == |s| || !IsSpace(s[i]) then i else SkipSpaces(s, i + 1)
  }

  /** One past the last non-whitespace character of `s[..j]` at or after `lo`, or `lo`. */
  function BackSpaces(s: string, lo: nat, j: nat): (k: nat)
    requires lo <= j <= |s|
    ensures lo <= k <= j
    ensures AllSpace(s[k..j])
    ensures k > lo ==> !IsSpace(s[k - 1])
    decreases j
  {
    if j == lo || !IsSpace(s[j - 1]) then j
    else
      var k := BackSpaces(s, lo, j - 1);
      assert s[k..j] == s[k..j - 1] + [s[j - 1]];
      k
  }

  /** `String.prototype.trim`: `s` without its leading and trailing whitespace. */
  function Trim(s: string): (r: string)
    ensures IsTrimmed(r)
    ensures r == [] <==> AllSpace(s)
    ensures exists a :: 0 <= a <= |s| - |r| && s[a..a + |r|] == r
                         && AllSpace(s[..a]) && AllSpace(s[a + |r|..])
  {
    var a := SkipSpaces(s, 0);
    var b := BackSpaces(s, a, |s|);
    TrimEnds(s, a, b);
    TrimEmpty(s, a, b);
    assert s[..a] == s[0..a] && s[b..] == s[b..|s|];
    assert a + |s[a..b]| == b;
    s[a..b]
  }

  /** The part between the skipped spaces starts and ends with non-whitespace. */
  lemma TrimEnds(s: string, a: nat, b: nat)
    requires a == SkipSpaces(s, 0) && b == BackSpaces(s, a, |s|)
    ensures IsTrimmed(s[a..b])
  {
    if a < b {
      assert s[a..b][0] == s[a];
      assert s[a..b][b - a - 1] == s[b - 1];
      if b - 1 == a {
        assert !IsSpace(s[a]);
      }
    }
  }

  /** Trimming leaves nothing exactly when the whole string is whitespace. */
  lemma TrimEmpty(s: string, a: nat, b: nat)
    requires a == SkipSpaces(s, 0) && b == BackSpaces(s, a, |s|)
    ensures a == b <==> AllSpace(s)
  {
    assert a < |s| ==> !IsSpace(s[a]);
    assert a < |s| ==> a < b;
    if a == b {
      forall k | 0 <= k < |s| ensures IsSpace(s[k]) {
        assert s[k] == s[0..a][k];
      }
    }
    if a < b {
      assert !IsSpace(s[a]);
    }
  }

  /** Trimming removes nothing from a string that has no whitespace at its ends. */
  lemma TrimTrimmed(s: string)
    requires IsTrimmed(s)
    ensures Trim(s) == s
  {
    if |s| > 0 {
      assert SkipSpaces(s, 0) == 0;
      assert BackSpaces(s, 0, |s|) == |s|;
    }
  }

  /** Trimming is idempotent. */
  lemma TrimIdempotent(s: string)
    ensures Trim(Trim(s)) == Trim(s)
  {
    TrimTrimmed(Trim(s));
  }

  /** Every character of `s[i..j]` satisfies `p`. */
  predicate AllIn(s: string, i: nat, j: nat, p: char -> bool)
    requires i <= j <= |s|
  {
    forall k :: i <= k < j ==> p(s[k])
  }

  /** First index at or after `i` whose character does not satisfy `p`. */
  function Span(s: string, i: nat, p: char -> bool): (j: nat)
    requires i <= |s|
    ensures i <= j <= |s|
    ensures AllIn(s, i, j, p)
    ensures j < |s| ==> !p(s[j])
    decreases |s| - i
  {
    if i == |s| || !p(s[i]) then i else Span(s, i + 1, p)
  }

  /** A span that stops at the end or at a character outside `p` is the one `Span` finds. */
  lemma SpanUnique(s: string, i: nat, j: nat, p: char -> bool)
    requires i <= j <= |s|
    requires AllIn(s, i, j, p) && (j < |s| ==> !p(s[j]))
    ensures Span(s, i, p) == j
  {
    var j0 := Span(s, i, p);
    if j0 < j { assert false; }
    if j0 > j { assert false; }
  }

  /** `Span` covers at least every run of `p` it starts on. */
  lemma SpanCovers(s: string, i: nat, j: nat, p: char -> bool)
    requires i <= j <= |s| && AllIn(s, i, j, p)
    ensures j <= Span(s, i, p)
  {
    var j0 := Span(s, i, p);
    if j > j0 { assert false; }
  }
}
