/**
 Display cleaning of equipment names (`cleanEquip`).

 The page strips a leading structural code such as "1.3 ", "4a.1.2 " or "2b. "
 from an equipment name before showing it, using the anchored pattern

     ^ \s* [0-9]+ [a-zA-Z]? ( \. [0-9a-zA-Z]+ )* \.? \s+

 and leaves the raw name as the identity used for filtering. This module states
 the pattern declaratively (`CodePrefix`), implements it as a deterministic
 left-to-right scanner (`Parse`), and proves that the two agree: the scanner
 finds the structural part every match shares, and the longest match, which is
 the one the regular-expression engine's greedy `\s+` selects.
 */
module Equip {
  import opened Text
  import opened Wrappers

  /** The language `( \. [0-9a-zA-Z]+ )*`: empty, or starting with a dot, ending
      in an alphanumeric, made of dots and alphanumerics with no two dots adjacent. */
  predicate DotSegments(t: string) {
    |t| == 0 ||
    (&& t[0] == '.'
     && t[|t| - 1] != '.'
     && (forall k :: 0 <= k < |t| ==> t[k] == '.' || IsAlnum(t[k]))
     && (forall k :: 0 <= k < |t| - 1 ==> t[k] == '.' ==> t[k + 1] != '.'))
  }

  /** `s[..n]` splits at `a <= b <= c <= d <= e` into the pattern's six parts:
      `\s*`, `[0-9]+`, `[a-zA-Z]?`, `(\.[0-9a-zA-Z]+)*`, `\.?`, `\s+`. */
  predicate PrefixParse(s: string, a: nat, b: nat, c: nat, d: nat, e: nat, n: nat) {
    && a < b <= c <= d <= e < n <= |s|
    && AllIn(s, 0, a, IsSpace)
    && AllIn(s, a, b, IsDigit)
    && (c == b || (c == b + 1 && IsLetter(s[b])))
    && DotSegments(s[c..d])
    && (e == d || (e == d + 1 && s[d] == '.'))
    && AllIn(s, e, n, IsSpace)
  }

  /** `s[..n]` is matched by the anchored pattern. */
  ghost predicate CodePrefix(s: string, n: nat) {
    exists a, b, c, d, e :: PrefixParse(s, a, b, c, d, e, n)
  }

  /** `n` is the length of the longest prefix of `s` the pattern matches. */
  ghost predicate LongestCodePrefix(s: string, n: nat) {
    CodePrefix(s, n) && forall m: nat :: CodePrefix(s, m) ==> m <= n
  }

  /** No prefix of `s` is matched by the pattern. */
  ghost predicate NoCodePrefix(s: string) {
    forall m: nat :: !CodePrefix(s, m)
  }

  /** The cut points the scanner found; `n` is the length of the matched prefix. */
  datatype Cut = Cut(a: nat, b: nat, c: nat, d: nat, e: nat, n: nat)

  /** A dot-segment starts at `i`: a dot followed by an alphanumeric. */
  predicate SegmentAt(s: string, i: nat) {
    i + 1 < |s| && s[i] == '.' && IsAlnum(s[i + 1])
  }

  /** Greedy `( \. [0-9a-zA-Z]+ )*` from `i`. */
  function Segments(s: string, i: nat): (j: nat)
    requires i <= |s|
    ensures i <= j <= |s|
    ensures DotSegments(s[i..j])
    ensures !SegmentAt(s, j)
    ensures j > i ==> j == |s| || !IsAlnum(s[j])
    decreases |s| - i
  {
    if SegmentAt(s, i) then
      var k := Span(s, i + 1, IsAlnum);
      var j := Segments(s, k);
      DotSegmentsCons(s, i, k, j);
      j
    else i
  }

  /** One more segment in front of a run of segments is still a run of segments. */
  lemma DotSegmentsCons(s: string, i: nat, k: nat, j: nat)
    requires i + 1 < k <= j <= |s|
    requires s[i] == '.' && AllIn(s, i + 1, k, IsAlnum)
    requires k < |s| ==> !IsAlnum(s[k])
    requires DotSegments(s[k..j])
    ensures DotSegments(s[i..j])
  {
    var t := s[i..j];
    assert forall q :: 0 <= q < |t| ==> t[q] == s[i + q];
    if k < j {
      assert s[k..j][0] == s[k];
      assert s[k..j][j - k - 1] == s[j - 1];
      forall q | 0 <= q < |t|
        ensures t[q] == '.' || IsAlnum(t[q])
      {
        if i + q >= k { assert s[k..j][i + q - k] == s[i + q]; }
      }
      forall q | 0 <= q < |t| - 1 && t[q] == '.'
        ensures t[q + 1] != '.'
      {
        if i + q >= k { assert s[k..j][i + q - k] == s[i + q]; assert s[k..j][i + q + 1 - k] == s[i + q + 1]; }
      }
    }
  }

  /** The deterministic scanner for the pattern. */
  function Parse(s: string): (r: Option<Cut>)
  {
    var a := Span(s, 0, IsSpace);
    var b := Span(s, a, IsDigit);
    if b == a then None
    else
      var c := if b < |s| && IsLetter(s[b]) then b + 1 else b;
      var d := Segments(s, c);
      var e := if d < |s| && s[d] == '.' then d + 1 else d;
      var n := Span(s, e, IsSpace);
      if n == e then None else Some(Cut(a, b, c, d, e, n))
  }

  /** Whatever the scanner reports is a parse of the pattern. */
  lemma ParseSound(s: string)
    requires Parse(s).Some?
    ensures var t := Parse(s).value; PrefixParse(s, t.a, t.b, t.c, t.d, t.e, t.n)
  {
    var t := Parse(s).value;
  }

  /** `j` ends a run of segments: no alphanumeric and no further segment starts there. */
  predicate SegmentsEnd(s: string, j: nat) {
    j < |s| && !IsAlnum(s[j]) && !SegmentAt(s, j)
  }

  /** A non-empty run of segments begins with a segment. */
  lemma DotSegmentsHead(s: string, c: nat, d: nat)
    requires c <= d <= |s|
    requires DotSegments(s[c..d])
    ensures d > c ==> SegmentAt(s, c)
  {
    if d > c {
      assert s[c..d][0] == s[c] && s[c..d][1] == s[c + 1];
    }
  }

  /** A run of segments that reaches an end point is exactly what `Segments` scans. */
  lemma {:induction false} SegmentsUnique(s: string, c: nat, d: nat)
    requires c <= d <= |s|
    requires DotSegments(s[c..d])
    requires SegmentsEnd(s, d)
    ensures Segments(s, c) == d
    decreases |s| - c
  {
    var t := s[c..d];
    if SegmentAt(s, c) {
      if d == c {
        assert false;
      }
      assert t[0] == s[c] && t[1] == s[c + 1];
      var k := Span(s, c + 1, IsAlnum);
      if k > d {
        assert false;
      }
      if k < d {
        assert t[k - c] == s[k];
        assert s[k] == '.';
        var u := s[k..d];
        assert forall q :: 0 <= q < |u| ==> u[q] == t[q + k - c];
        assert DotSegments(u);
      }
      SegmentsUnique(s, k, d);
    } else {
      DotSegmentsHead(s, c, d);
    }
  }

  /** Every parse of the pattern is the scanner's, up to the length of the final
      whitespace run, which the scanner takes in full. */
  lemma ParseComplete(s: string, a: nat, b: nat, c: nat, d: nat, e: nat, m: nat)
    requires PrefixParse(s, a, b, c, d, e, m)
    ensures Parse(s).Some?
    ensures var t := Parse(s).value; t.a == a && t.b == b && t.c == c && t.d == d && t.e == e
    ensures m <= Parse(s).value.n
  {
    assert IsDigit(s[a]);
    SpanUnique(s, 0, a, IsSpace);
    // the character after the digits is a letter, a dot or whitespace
    DotSegmentsHead(s, c, d);
    assert IsSpace(s[e]);
    assert !IsDigit(s[b]);
    SpanUnique(s, a, b, IsDigit);
    // the segment run ends at a dot followed by whitespace, or at whitespace
    assert SegmentsEnd(s, d);
    SegmentsUnique(s, c, d);
    SpanCovers(s, e, m, IsSpace);
  }

  /** The matches of the pattern on `s` are exactly the prefixes that end inside
      the whitespace run the scanner found. */
  lemma CodePrefixIff(s: string, m: nat)
    ensures CodePrefix(s, m) <==>
            Parse(s).Some? && Parse(s).value.e < m <= Parse(s).value.n
  {
    if CodePrefix(s, m) {
      var a, b, c, d, e :| PrefixParse(s, a, b, c, d, e, m);
      ParseComplete(s, a, b, c, d, e, m);
    }
    if Parse(s).Some? && Parse(s).value.e < m <= Parse(s).value.n {
      var t := Parse(s).value;
      ParseSound(s);
      assert PrefixParse(s, t.a, t.b, t.c, t.d, t.e, m);
    }
  }

  /** The scanner's prefix is the longest match of the pattern, and there is no
      match at all when the scanner reports none. */
  lemma ParseLongest(s: string)
    ensures Parse(s).Some? ==> LongestCodePrefix(s, Parse(s).value.n)
    ensures Parse(s).None? ==> NoCodePrefix(s)
  {
    forall m: nat ensures CodePrefix(s, m) <==>
            Parse(s).Some? && Parse(s).value.e < m <= Parse(s).value.n {
      CodePrefixIff(s, m);
    }
  }

  /** `cleanEquip`: the equipment name with its leading structural code removed.
      An empty name, or a name the pattern does not match, is returned as is.
      What is removed is characterised by `CleanEquipLongest`. */
  function CleanEquip(name: string): (r: string)
    ensures |r| <= |name| && r == name[|name| - |r|..]
  {
    var o := Parse(name);
    if name == [] || o.None? then
      assert name[|name| - |name|..] == name;
      name
    else
      var r := name[o.value.n..];
      assert name[|name| - |r|..] == r;
      r
  }

  /** `cleanEquip` changes a name exactly when the pattern matches a prefix of it. */
  lemma CleanEquipUnchanged(name: string)
    ensures CleanEquip(name) == name <==> NoCodePrefix(name)
  {
    var o := Parse(name);
    ParseFacts(name, o);
    if o.Some? {
      var n := o.value.n;
      assert CleanEquip(name) == name[n..];
      assert |CleanEquip(name)| < |name|;
    } else {
      assert CleanEquip(name) == name;
    }
  }

  /** When `cleanEquip` changes a name it removes the longest prefix the pattern
      matches, the one the greedy `\s+` produces. */
  lemma CleanEquipLongest(name: string)
    ensures CleanEquip(name) != name ==> LongestCodePrefix(name, |name| - |CleanEquip(name)|)
  {
    var o := Parse(name);
    ParseFacts(name, o);
    if o.Some? {
      var n := o.value.n;
      assert CleanEquip(name) == name[n..];
      assert |name| - |CleanEquip(name)| == n;
    } else {
      assert CleanEquip(name) == name;
    }
  }

  /** What `cleanEquip` needs of the scanner: it finds no code in the empty
      name, it reports none exactly when there is none, and otherwise it reports
      a non-empty longest code. */
  lemma ParseFacts(name: string, o: Option<Cut>)
    requires o == Parse(name)
    ensures name == [] ==> o.None?
    ensures o.None? <==> NoCodePrefix(name)
    ensures o.Some? ==> 0 < o.value.n <= |name| && LongestCodePrefix(name, o.value.n)
  {
    ParseLongest(name);
    if o.Some? {
      assert CodePrefix(name, o.value.n);
    }
  }

  /** A prefix split by the pattern whose whitespace run is maximal is exactly
      what `cleanEquip` removes. */
  lemma CleanEquipStrips(s: string, a: nat, b: nat, c: nat, d: nat, e: nat, n: nat)
    requires PrefixParse(s, a, b, c, d, e, n)
    requires n < |s| ==> !IsSpace(s[n])
    ensures CleanEquip(s) == s[n..]
  {
    ParseComplete(s, a, b, c, d, e, n);
    SpanUnique(s, e, n, IsSpace);
  }

  /** Worked example: the code "1.3" and its space are stripped. */
  lemma CleanEquipDottedCode()
    ensures CleanEquip("1.3 Router A") == "Router A"
  {
    var s := "1.3 Router A";
    DottedCodeParse();
    CleanEquipStrips(s, 0, 1, 1, 3, 3, 4);
    assert s[4..] == "Router A";
  }

  lemma DottedCodeParse()
    ensures PrefixParse("1.3 Router A", 0, 1, 1, 3, 3, 4)
  {
    var s := "1.3 Router A";
    assert s[1..3] == ".3";
    assert DotSegments(".3");
    assert IsSpace(s[3]);
  }

  /** Worked example: a letter after the leading number and several segments. */
  lemma CleanEquipLetteredCode()
    ensures CleanEquip("4a.1.2 Switch") == "Switch"
  {
    var s := "4a.1.2 Switch";
    LetteredCodeParse();
    CleanEquipStrips(s, 0, 1, 2, 6, 6, 7);
    assert s[7..] == "Switch";
  }

  lemma LetteredCodeParse()
    ensures PrefixParse("4a.1.2 Switch", 0, 1, 2, 6, 6, 7)
  {
    var s := "4a.1.2 Switch";
    assert s[2..6] == ".1.2";
    assert DotSegments(".1.2");
    assert IsLetter(s[1]) && IsSpace(s[6]);
  }

  /** Worked example: a trailing dot before the space. */
  lemma CleanEquipTrailingDot()
    ensures CleanEquip("2b. Firewall") == "Firewall"
  {
    var s := "2b. Firewall";
    TrailingDotParse();
    CleanEquipStrips(s, 0, 1, 2, 2, 3, 4);
    assert s[4..] == "Firewall";
  }

  lemma TrailingDotParse()
    ensures PrefixParse("2b. Firewall", 0, 1, 2, 2, 3, 4)
  {
    var s := "2b. Firewall";
    assert IsLetter(s[1]) && s[2] == '.' && IsSpace(s[3]);
  }

  /** Worked example: names without a code, and the empty name, are kept. */
  lemma CleanEquipKeeps()
    ensures CleanEquip("NoPrefix") == "NoPrefix"
    ensures CleanEquip("") == ""
  {
    CleanEquipNoDigit("NoPrefix", 0);
    CleanEquipNoDigit("", 0);
  }

  /** A name whose first character after the leading whitespace `s[..a]` is not
      a digit (or that is whitespace only) has no code and is kept. */
  lemma CleanEquipNoDigit(s: string, a: nat)
    requires a <= |s| && AllIn(s, 0, a, IsSpace)
    requires a < |s| ==> !IsSpace(s[a]) && !IsDigit(s[a])
    ensures CleanEquip(s) == s
  {
    SpanUnique(s, 0, a, IsSpace);
    SpanUnique(s, a, a, IsDigit);
    assert Parse(s).None?;
  }

  /** A number and a space left at the front after one cleaning is a code too. */
  lemma CleanEquipBareNumber()
    ensures CleanEquip("2 Router") == "Router"
  {
    var t := "2 Router";
    BareNumberParse();
    CleanEquipStrips(t, 0, 1, 1, 1, 1, 2);
    assert t[2..] == "Router";
  }

  lemma BareNumberParse()
    ensures PrefixParse("2 Router", 0, 1, 1, 1, 1, 2)
  {
    var s := "2 Router";
    assert IsDigit(s[0]) && IsSpace(s[1]);
  }

  /** Cleaning is not idempotent: a name whose remainder starts with another
      number and a space loses that too on a second application. */
  lemma CleanEquipNotIdempotent()
    ensures exists name :: CleanEquip(CleanEquip(name)) != CleanEquip(name)
  {
    CleanEquipTwoCodes();
    CleanEquipBareNumber();
    assert "Router" != "2 Router";
    assert CleanEquip(CleanEquip("1.3 2 Router")) != CleanEquip("1.3 2 Router");
  }

  /** Only the first of two codes is stripped. */
  lemma CleanEquipTwoCodes()
    ensures CleanEquip("1.3 2 Router") == "2 Router"
  {
    var s := "1.3 2 Router";
    TwoCodesParse();
    CleanEquipStrips(s, 0, 1, 1, 3, 3, 4);
    assert s[4..] == "2 Router";
  }

  lemma TwoCodesParse()
    ensures PrefixParse("1.3 2 Router", 0, 1, 1, 3, 3, 4)
  {
    var s := "1.3 2 Router";
    assert s[1..3] == ".3";
    assert DotSegments(".3");
    assert IsSpace(s[3]);
  }
}
