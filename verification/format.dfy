/**
 Display formatting of record fields: `dateOnly`, `remarkFormat` and `kv`.

 The HTML the page builds is abstracted to `Line` values: one `kv` line, a bare
 remark text, or a remark block with one line per fragment.
 */
module Format {
  import opened Text
  import opened Wrappers
  import opened Seqs

  /** What `kv` (and `remarkFormat` through it) contributes to a card. */
  datatype Line =
    | Field(caption: string, value: string, emph: bool)  // a caption in bold, a colon, then the value
    | Plain(text: string)                                // `remarkFormat`'s bare trimmed text
    | Block(fragments: seq<string>)                      // the "Remark :" block, one line per fragment

  // ---------------------------------------------------------------------------
  // dateOnly

  /** `[\/\-]` */
  predicate IsSep(c: char) {
    c == '/' || c == '-'
  }

  /** `t` starts with `(\d{4})[\/\-](\d{1,2})[\/\-](\d{1,2})`, with a month of
      `ml` digits and a day of `dl` digits. */
  predicate DateShape(t: string, ml: nat, dl: nat) {
    && 1 <= ml <= 2 && 1 <= dl <= 2
    && 6 + ml + dl <= |t|
    && AllIn(t, 0, 4, IsDigit) && IsSep(t[4])
    && AllIn(t, 5, 5 + ml, IsDigit) && IsSep(t[5 + ml])
    && AllIn(t, 6 + ml, 6 + ml + dl, IsDigit)
  }

  /** The capture widths the regular-expression engine settles on: the month
      width is forced by the separator after it, and the greedy day takes two
      digits when there are two. */
  function DateCut(t: string): (r: Option<(nat, nat)>)
    ensures r.None? <==> forall ml: nat, dl: nat :: !DateShape(t, ml, dl)
    ensures r.Some? ==> DateShape(t, r.value.0, r.value.1)
    ensures r.Some? ==> forall ml: nat, dl: nat :: DateShape(t, ml, dl) ==>
                          ml == r.value.0 && dl <= r.value.1
  {
    if |t| < 7 || !AllIn(t, 0, 4, IsDigit) || !IsSep(t[4]) || !IsDigit(t[5]) then
      assert forall ml: nat, dl: nat :: DateShape(t, ml, dl) ==> IsDigit(t[5]);
      None
    else
      var ml := if IsDigit(t[6]) then 2 else 1;
      if 6 + ml < |t| && IsSep(t[5 + ml]) && IsDigit(t[6 + ml]) then
        var dl := if 7 + ml < |t| && IsDigit(t[7 + ml]) then 2 else 1;
        assert DateShape(t, ml, dl);
        assert forall ml': nat, dl': nat :: DateShape(t, ml', dl') ==> ml' == ml && dl' <= dl by {
          forall ml': nat, dl': nat | DateShape(t, ml', dl') ensures ml' == ml && dl' <= dl {
            if ml' == 1 { assert IsSep(t[6]); }
            if ml' == 2 { assert IsDigit(t[6]); }
            if dl' == 2 { assert IsDigit(t[7 + ml']); }
          }
        }
        Some((ml, dl))
      else
        assert forall ml': nat, dl': nat :: DateShape(t, ml', dl') ==> ml' == ml by {
          forall ml': nat, dl': nat | DateShape(t, ml', dl') ensures ml' == ml {
            if ml' == 1 { assert IsSep(t[6]); }
            if ml' == 2 { assert IsDigit(t[6]); }
          }
        }
        None
  }

  /** Numeric value of a digit (0 for any other character). */
  function DigitValue(c: char): nat {
    if IsDigit(c) then (c as int) - ('0' as int) else 0
  }

  /** Numeric value of a string of decimal digits. */
  function Value(s: string): nat {
    if |s| == 0 then 0 else 10 * Value(s[..|s| - 1]) + DigitValue(s[|s| - 1])
  }

  /** The last two characters of `d` with a zero put in front. */
  function Pad2(d: string): (r: string)
    ensures 1 <= |d| <= 2 && AllIn(d, 0, |d|, IsDigit) ==>
              |r| == 2 && AllIn(r, 0, 2, IsDigit) && Value(r) == Value(d)
  {
    var s := "0" + d;
    var r := if |s| >= 2 then s[|s| - 2..] else s;
    if 1 <= |d| <= 2 && AllIn(d, 0, |d|, IsDigit) then
      if |d| == 1 then
        assert r[..1] == "0";
        assert r[1..] == d;
        r
      else
        assert r == d;
        r
    else r
  }

  /** `YYYY-MM-DD` shape: ten characters, dashes at 4 and 7, digits elsewhere. */
  predicate IsIsoDate(r: string) {
    && |r| == 10 && r[4] == '-' && r[7] == '-'
    && AllIn(r, 0, 4, IsDigit) && AllIn(r, 5, 7, IsDigit) && AllIn(r, 8, 10, IsDigit)
  }

  /** A slice of digits is a string of digits. */
  lemma DigitSlice(t: string, i: nat, j: nat)
    requires i <= j <= |t| && AllIn(t, i, j, IsDigit)
    ensures AllIn(t[i..j], 0, j - i, IsDigit)
  {
    forall k | 0 <= k < j - i ensures IsDigit(t[i..j][k]) { assert t[i..j][k] == t[i + k]; }
  }

  /** The captured year, padded month and padded day joined by dashes. */
  function IsoDate(y: string, m: string, d: string): string {
    y + "-" + Pad2(m) + "-" + Pad2(d)
  }

  /** Built from a four-digit year and one- or two-digit month and day, the
      result has the `YYYY-MM-DD` shape and keeps each field's value. */
  lemma IsoDateShape(y: string, m: string, d: string)
    requires |y| == 4 && AllIn(y, 0, 4, IsDigit)
    requires 1 <= |m| <= 2 && AllIn(m, 0, |m|, IsDigit)
    requires 1 <= |d| <= 2 && AllIn(d, 0, |d|, IsDigit)
    ensures var r := IsoDate(y, m, d);
            && IsIsoDate(r) && r[..4] == y
            && Value(r[5..7]) == Value(m) && Value(r[8..10]) == Value(d)
  {
    IsoParts(y, Pad2(m), Pad2(d));
  }

  /** Four year digits, two month digits and two day digits joined by dashes. */
  lemma IsoParts(y: string, mm: string, dd: string)
    requires |y| == 4 && AllIn(y, 0, 4, IsDigit)
    requires |mm| == 2 && AllIn(mm, 0, 2, IsDigit)
    requires |dd| == 2 && AllIn(dd, 0, 2, IsDigit)
    ensures var r := y + "-" + mm + "-" + dd;
            IsIsoDate(r) && r[..4] == y && r[5..7] == mm && r[8..10] == dd
  {
    var r := y + "-" + mm + "-" + dd;
    assert r[..4] == y && r[5..7] == mm && r[8..10] == dd;
    assert forall k :: 0 <= k < 4 ==> r[k] == y[k];
    assert forall k :: 5 <= k < 7 ==> r[k] == mm[k - 5];
    assert forall k :: 8 <= k < 10 ==> r[k] == dd[k - 8];
  }

  /** The branches of `dateOnly` after the host's date parser gave up on the
      trimmed text `t` (app.js:61-67): a leading year-month-day becomes
      `YYYY-MM-DD` with the month and day zero-padded and no range check;
      otherwise the text before the first space; otherwise `t` itself. */
  function FallbackDate(t: string): (r: string)
    ensures DateCut(t).Some? ==>
              var (ml, dl) := DateCut(t).value;
              && IsIsoDate(r) && r[..4] == t[..4]
              && Value(r[5..7]) == Value(t[5..5 + ml])
              && Value(r[8..10]) == Value(t[6 + ml..6 + ml + dl])
    ensures DateCut(t).None? && ' ' in t ==>
              |r| < |t| && r == t[..|r|] && t[|r|] == ' ' && ' ' !in r
    ensures DateCut(t).None? && ' ' !in t ==> r == t
  {
    var c := DateCut(t);
    if c.Some? then
      var ml, dl := c.value.0, c.value.1;
      FieldsShape(t, ml, dl);
      IsoDate(t[..4], t[5..5 + ml], t[6 + ml..6 + ml + dl])
    else if ' ' in t then
      var i := IndexOf(t, ' ');
      assert |t[..i]| == i;
      t[..i]
    else t
  }

  /** The captured fields of a leading date make an ISO date with their values. */
  lemma FieldsShape(t: string, ml: nat, dl: nat)
    requires DateShape(t, ml, dl)
    ensures var r := IsoDate(t[..4], t[5..5 + ml], t[6 + ml..6 + ml + dl]);
            && IsIsoDate(r) && r[..4] == t[..4]
            && Value(r[5..7]) == Value(t[5..5 + ml])
            && Value(r[8..10]) == Value(t[6 + ml..6 + ml + dl])
  {
    DigitSlice(t, 0, 4);
    DigitSlice(t, 5, 5 + ml);
    DigitSlice(t, 6 + ml, 6 + ml + dl);
    assert t[..4] == t[0..4];
    IsoDateShape(t[..4], t[5..5 + ml], t[6 + ml..6 + ml + dl]);
  }

  /** The fallback result is its own fallback: an ISO date re-reads as itself,
      and the text before the first space has no space and no leading date. */
  lemma FallbackIdempotent(t: string)
    ensures FallbackDate(FallbackDate(t)) == FallbackDate(t)
  {
    var r := FallbackDate(t);
    if DateCut(t).Some? {
      IsoDateFixed(r);
    } else if ' ' in t {
      forall ml: nat, dl: nat ensures !DateShape(r, ml, dl) {
        if DateShape(r, ml, dl) {
          PrefixShape(t, r, ml, dl);
        }
      }
    }
  }

  /** A date shape at the front of a prefix is one at the front of the whole text. */
  lemma PrefixShape(t: string, r: string, ml: nat, dl: nat)
    requires |r| <= |t| && r == t[..|r|]
    requires DateShape(r, ml, dl)
    ensures DateShape(t, ml, dl)
  {
    assert forall k :: 0 <= k < |r| ==> r[k] == t[k];
  }

  /** A text that already has the `YYYY-MM-DD` shape falls back to itself. */
  lemma IsoDateFixed(r: string)
    requires IsIsoDate(r)
    ensures FallbackDate(r) == r
  {
    assert DateShape(r, 2, 2);
    assert DateCut(r) == Some((2, 2));
    PadTwoDigits(r[5..7]);
    PadTwoDigits(r[8..10]);
    calc {
      FallbackDate(r);
      IsoDate(r[..4], r[5..7], r[8..10]);
      r[..4] + "-" + r[5..7] + "-" + r[8..10];
      { assert r[4] == '-' && r[7] == '-'; }
      r;
    }
  }

  /** Two digits are already padded. */
  lemma PadTwoDigits(d: string)
    requires |d| == 2
    ensures Pad2(d) == d
  {
  }

  /** `dateOnly` (app.js:56-68). `host` is the browser's date parser followed by
      the first ten characters of the UTC ISO form: `None` when the date is invalid. */
  function DateOnly(val: string, host: string -> Option<string>): (r: string)
    ensures val == "" ==> r == ""
    ensures val != "" && host(Trim(val)).Some? ==> r == host(Trim(val)).value
    ensures val != "" && host(Trim(val)).None? ==> r == FallbackDate(Trim(val))
  {
    if val == "" then ""
    else
      var t := Trim(val);
      match host(t)
      case Some(d) => d
      case None => FallbackDate(t)
  }

  /** A host whose date parser accepts nothing, leaving every value to the fallback. */
  function NoHostDate(t: string): Option<string> {
    None
  }

  /** On a trimmed, non-empty text the host rejects, `dateOnly` is the fallback. */
  lemma NoHostFallback(t: string)
    requires t != [] && IsTrimmed(t)
    ensures DateOnly(t, NoHostDate) == FallbackDate(t)
  {
    TrimTrimmed(t);
  }

  /** The fallback of a text with a leading date is built from the captured fields. */
  lemma FallbackOfCut(t: string, ml: nat, dl: nat)
    requires DateCut(t) == Some((ml, dl))
    ensures FallbackDate(t) == IsoDate(t[..4], t[5..5 + ml], t[6 + ml..6 + ml + dl])
  {
    var c := DateCut(t);
    assert c.Some? && c.value.0 == ml && c.value.1 == dl;
  }

  /** Worked example: slashes and one-digit fields are normalised. */
  lemma DateOnlyShortFields()
    ensures DateOnly("2023/5/1", NoHostDate) == "2023-05-01"
  {
    var t := "2023/5/1";
    NoHostFallback(t);
    ShortFieldsCut();
    FallbackOfCut(t, 1, 1);
    ShortFieldsSlices();
    ShortFieldsIso();
  }

  lemma ShortFieldsSlices()
    ensures "2023/5/1"[..4] == "2023" && "2023/5/1"[5..6] == "5" && "2023/5/1"[7..8] == "1"
  {
  }

  lemma ShortFieldsIso()
    ensures IsoDate("2023", "5", "1") == "2023-05-01"
  {
    PadOneDigit("5");
    PadOneDigit("1");
  }

  lemma ShortFieldsCut()
    ensures DateCut("2023/5/1") == Some((1, 1))
  {
    var t := "2023/5/1";
    assert AllIn(t, 0, 4, IsDigit);
    assert IsSep(t[4]) && IsDigit(t[5]) && !IsDigit(t[6]) && IsSep(t[6]) && IsDigit(t[7]);
  }

  /** One digit is padded with a leading zero. */
  lemma PadOneDigit(d: string)
    requires |d| == 1
    ensures Pad2(d) == ['0', d[0]]
  {
    assert ("0" + d)[0..] == ['0', d[0]];
  }

  /** Worked example: text after the date is dropped. */
  lemma DateOnlyTrailingText()
    ensures DateOnly("2023-05-01 extra", NoHostDate) == "2023-05-01"
  {
    var t := "2023-05-01 extra";
    NoHostFallback(t);
    TrailingTextCut();
    FallbackOfCut(t, 2, 2);
    TrailingTextSlices();
    TrailingTextIso();
  }

  lemma TrailingTextSlices()
    ensures var t := "2023-05-01 extra";
            t[..4] == "2023" && t[5..7] == "05" && t[8..10] == "01"
  {
  }

  lemma TrailingTextIso()
    ensures IsoDate("2023", "05", "01") == "2023-05-01"
  {
    PadTwoDigits("05");
    PadTwoDigits("01");
  }

  lemma TrailingTextCut()
    ensures DateCut("2023-05-01 extra") == Some((2, 2))
  {
    var t := "2023-05-01 extra";
    assert AllIn(t, 0, 4, IsDigit);
    assert IsSep(t[4]) && IsDigit(t[5]) && IsDigit(t[6]) && IsSep(t[7]) && IsDigit(t[8]) && IsDigit(t[9]);
  }

  /** Worked example: free text is cut at its first space. */
  lemma DateOnlyFreeText()
    ensures DateOnly("May 2023", NoHostDate) == "May"
  {
    var t := "May 2023";
    NoHostFallback(t);
    assert DateCut(t).None? by { assert !IsDigit(t[0]); }
    FreeTextSpace();
    FallbackOfNoCut(t);
  }

  lemma FreeTextSpace()
    ensures ' ' in "May 2023" && IndexOf("May 2023", ' ') == 3 && "May 2023"[..3] == "May"
  {
    assert "May 2023"[3] == ' ';
  }

  /** Without a leading date, the fallback of a text with a space is the text
      before the first space. */
  lemma FallbackOfNoCut(t: string)
    requires DateCut(t).None? && ' ' in t
    ensures FallbackDate(t) == t[..IndexOf(t, ' ')]
  {
  }

  // ---------------------------------------------------------------------------
  // remarkFormat

  /** `[;，/。]`: semicolon, full-width comma, slash, ideographic full stop. */
  predicate IsDelim(c: char) {
    c == ';' || c == '\U{FF0C}' || c == '/' || c == '\U{3002}'
  }

  predicate NotDelim(c: char) {
    !IsDelim(c)
  }

  predicate NoDelim(s: string) {
    forall k :: 0 <= k < |s| ==> !IsDelim(s[k])
  }

  /** Splitting at the pattern `[;，/。]+`: the pieces between maximal runs of delimiters,
      including an empty first or last piece when `t` starts or ends with one. */
  function SplitRuns(t: string): (ps: seq<string>)
    ensures |ps| >= 1
    ensures forall i :: 0 <= i < |ps| ==> NoDelim(ps[i])
    ensures forall i :: 0 < i < |ps| - 1 ==> ps[i] != ""
    ensures |t| > 0 && NotDelim(t[0]) ==> ps[0] != ""
    decreases |t|
  {
    var i := Span(t, 0, NotDelim);
    if i == |t| then
      [t]
    else
      var j := Span(t, i, IsDelim);
      var rest := SplitRuns(t[j..]);
      assert NoDelim(t[..i]);
      assert j < |t| ==> t[j..][0] == t[j];
      [t[..i]] + rest
  }

  /** The delimiter runs `SplitRuns` splits at, in order. */
  function DelimRuns(t: string): (ds: seq<string>)
    ensures |ds| == |SplitRuns(t)| - 1
    ensures forall i :: 0 <= i < |ds| ==> |ds[i]| > 0 && AllIn(ds[i], 0, |ds[i]|, IsDelim)
    decreases |t|
  {
    var i := Span(t, 0, NotDelim);
    if i == |t| then []
    else
      var j := Span(t, i, IsDelim);
      assert AllIn(t[i..j], 0, j - i, IsDelim) by {
        forall k | 0 <= k < j - i ensures IsDelim(t[i..j][k]) { assert t[i..j][k] == t[i + k]; }
      }
      [t[i..j]] + DelimRuns(t[j..])
  }

  /** One step of the split: the piece before the first delimiter run, the run,
      and the split of the rest. */
  lemma SplitStep(t: string, i: nat, j: nat)
    requires i == Span(t, 0, NotDelim) < |t| && j == Span(t, i, IsDelim)
    ensures SplitRuns(t) == [t[..i]] + SplitRuns(t[j..])
    ensures DelimRuns(t) == [t[i..j]] + DelimRuns(t[j..])
  {
  }

  /** Pieces joined by separators: `ps[0] + seps[0] + ps[1] + ...`. */
  function JoinRuns(ps: seq<string>, seps: seq<string>): string
    requires |ps| == |seps| + 1
  {
    if |seps| == 0 then ps[0] else ps[0] + seps[0] + JoinRuns(ps[1..], seps[1..])
  }

  /** Splitting loses nothing: the pieces joined by the delimiter runs give back `t`. */
  lemma {:induction false} JoinSplit(t: string)
    ensures JoinRuns(SplitRuns(t), DelimRuns(t)) == t
    decreases |t|
  {
    var i := Span(t, 0, NotDelim);
    if i < |t| {
      var j := Span(t, i, IsDelim);
      var p, d, rest := t[..i], t[i..j], t[j..];
      SplitStep(t, i, j);
      JoinSplit(rest);
      JoinCons(p, d, SplitRuns(rest), DelimRuns(rest));
      calc {
        JoinRuns(SplitRuns(t), DelimRuns(t));
        JoinRuns([p] + SplitRuns(rest), [d] + DelimRuns(rest));
        p + d + JoinRuns(SplitRuns(rest), DelimRuns(rest));
        p + d + rest;
        { Reassemble(t, i, j); }
        t;
      }
    } else {
      assert SplitRuns(t) == [t] && DelimRuns(t) == [];
    }
  }

  /** A string is the concatenation of three consecutive slices. */
  lemma Reassemble(t: string, i: nat, j: nat)
    requires i <= j <= |t|
    ensures t[..i] + t[i..j] + t[j..] == t
  {
  }

  /** Joining a piece and a separator in front of a join. */
  lemma JoinCons(p: string, d: string, ps: seq<string>, ds: seq<string>)
    requires |ps| == |ds| + 1
    ensures JoinRuns([p] + ps, [d] + ds) == p + d + JoinRuns(ps, ds)
  {
    assert ([p] + ps)[1..] == ps && ([d] + ds)[1..] == ds;
  }

  /** Splitting undoes joining by non-empty delimiter runs, for pieces without
      delimiters whose inner members are non-empty. */
  lemma {:induction false} SplitJoin(ps: seq<string>, seps: seq<string>)
    requires |ps| == |seps| + 1
    requires forall i :: 0 <= i < |ps| ==> NoDelim(ps[i])
    requires forall i :: 0 < i < |ps| - 1 ==> ps[i] != ""
    requires forall i :: 0 <= i < |seps| ==> |seps[i]| > 0 && AllIn(seps[i], 0, |seps[i]|, IsDelim)
    ensures SplitRuns(JoinRuns(ps, seps)) == ps
    decreases |seps|
  {
    var t := JoinRuns(ps, seps);
    if |seps| == 0 {
      SpanUnique(t, 0, |t|, NotDelim);
    } else {
      var tail := JoinRuns(ps[1..], seps[1..]);
      assert t == ps[0] + seps[0] + tail;
      if |seps| > 1 {
        assert tail == ps[1] + seps[1] + JoinRuns(ps[2..], seps[2..]);
        assert tail[0] == ps[1][0];
      }
      SplitFront(ps[0], seps[0], tail);
      SplitJoin(ps[1..], seps[1..]);
    }
  }

  /** A delimiter-free piece, a delimiter run, and a rest that does not start
      with a delimiter split as the piece followed by the split of the rest. */
  lemma SplitFront(p: string, d: string, tail: string)
    requires NoDelim(p)
    requires |d| > 0 && AllIn(d, 0, |d|, IsDelim)
    requires tail == "" || NotDelim(tail[0])
    ensures SplitRuns(p + d + tail) == [p] + SplitRuns(tail)
  {
    var t := p + d + tail;
    var i, j := |p|, |p| + |d|;
    assert forall k :: 0 <= k < i ==> t[k] == p[k];
    assert forall k :: i <= k < j ==> t[k] == d[k - i];
    assert j < |t| ==> t[j] == tail[0];
    SpanUnique(t, 0, i, NotDelim);
    SpanUnique(t, i, j, IsDelim);
    SplitStep(t, i, j);
    assert t[..i] == p;
    assert t[j..] == tail;
  }

  /** Each piece trimmed, in place. */
  function TrimAll(ps: seq<string>): (r: seq<string>)
    ensures |r| == |ps|
    ensures forall i :: 0 <= i < |r| ==> r[i] == Trim(ps[i])
  {
    if |ps| == 0 then [] else [Trim(ps[0])] + TrimAll(ps[1..])
  }

  predicate NonEmpty(s: string) {
    s != ""
  }

  /** The remark's fragments: the pieces between delimiter runs, trimmed, with
      the empty ones dropped. */
  function Fragments(txt: string): seq<string> {
    Filter(TrimAll(SplitRuns(txt)), NonEmpty)
  }

  /** Every fragment is non-empty, trimmed and free of delimiters. */
  lemma FragmentsWellFormed(txt: string)
    ensures forall f :: f in Fragments(txt) ==> f != "" && IsTrimmed(f) && NoDelim(f)
  {
    var ps := SplitRuns(txt);
    var ts := TrimAll(ps);
    forall f | f in Fragments(txt) ensures f != "" && IsTrimmed(f) && NoDelim(f) {
      FilterMember(ts, NonEmpty, f);
      var i :| 0 <= i < |ts| && ts[i] == f;
      TrimNoDelim(ps[i]);
    }
  }

  /** Trimming keeps a text free of delimiters. */
  lemma TrimNoDelim(s: string)
    requires NoDelim(s)
    ensures NoDelim(Trim(s))
  {
    var r := Trim(s);
    var a :| 0 <= a <= |s| - |r| && s[a..a + |r|] == r && AllSpace(s[..a]) && AllSpace(s[a + |r|..]);
    forall k | 0 <= k < |r| ensures !IsDelim(r[k]) { assert r[k] == s[a + k]; }
  }

  /** Whitespace-only pieces leave no fragment; any other piece leaves one. */
  lemma {:induction false} NoFragmentsIffBlankPieces(ps: seq<string>)
    ensures |Filter(TrimAll(ps), NonEmpty)| == 0 <==> BlankPieces(ps)
    decreases |ps|
  {
    if |ps| > 0 {
      NoFragmentsIffBlankPieces(ps[1..]);
      assert TrimAll(ps) == [Trim(ps[0])] + TrimAll(ps[1..]);
      FilterAppend([Trim(ps[0])], TrimAll(ps[1..]), NonEmpty);
      assert (forall i :: 0 <= i < |ps| ==> AllSpace(ps[i])) <==>
             AllSpace(ps[0]) && forall i :: 0 <= i < |ps[1..]| ==> AllSpace(ps[1..][i]);
    }
  }

  /** Only delimiters and whitespace. */
  predicate Blank(t: string) {
    forall k :: 0 <= k < |t| ==> IsDelim(t[k]) || IsSpace(t[k])
  }

  /** Every piece is whitespace only. */
  predicate BlankPieces(ps: seq<string>) {
    forall i :: 0 <= i < |ps| ==> AllSpace(ps[i])
  }

  /** The pieces are all whitespace exactly when `t` holds nothing but
      delimiters and whitespace. */
  lemma {:induction false} BlankPiecesIffBlank(t: string)
    ensures BlankPieces(SplitRuns(t)) <==> Blank(t)
    decreases |t|
  {
    var ps := SplitRuns(t);
    var n := Span(t, 0, NotDelim);
    if n == |t| {
      assert ps == [t];
      BlankNoDelim(t);
    } else {
      var j := Span(t, n, IsDelim);
      BlankPiecesIffBlank(t[j..]);
      assert ps == [t[..n]] + SplitRuns(t[j..]);
      BlankPiecesCons(t[..n], SplitRuns(t[j..]));
      BlankAround(t, n, j);
    }
  }

  /** Without delimiters, blank means whitespace only. */
  lemma BlankNoDelim(t: string)
    requires AllIn(t, 0, |t|, NotDelim)
    ensures BlankPieces([t]) <==> Blank(t)
  {
    assert [t][0] == t;
    if Blank(t) {
      forall k | 0 <= k < |t| ensures IsSpace(t[k]) { assert NotDelim(t[k]); }
    }
  }

  lemma BlankPiecesCons(p: string, rest: seq<string>)
    ensures BlankPieces([p] + rest) <==> AllSpace(p) && BlankPieces(rest)
  {
    var ps := [p] + rest;
    if BlankPieces(ps) {
      assert AllSpace(ps[0]);
      forall q | 0 <= q < |rest| ensures AllSpace(rest[q]) { assert rest[q] == ps[q + 1]; }
    }
    if AllSpace(p) && BlankPieces(rest) {
      forall q | 0 <= q < |ps| ensures AllSpace(ps[q]) {
        if q > 0 { assert ps[q] == rest[q - 1]; }
      }
    }
  }

  /** A delimiter run after a delimiter-free piece does not affect blankness. */
  lemma BlankAround(t: string, n: nat, j: nat)
    requires n <= j <= |t| && AllIn(t, 0, n, NotDelim) && AllIn(t, n, j, IsDelim)
    ensures Blank(t) <==> AllSpace(t[..n]) && Blank(t[j..])
  {
    if Blank(t) {
      forall k | 0 <= k < n ensures IsSpace(t[..n][k]) { assert NotDelim(t[k]); }
    }
    assert forall k :: 0 <= k < n ==> t[..n][k] == t[k];
    assert forall k :: j <= k < |t| ==> t[j..][k - j] == t[k];
    assert forall k :: n <= k < j ==> IsDelim(t[k]);
    if AllSpace(t[..n]) && Blank(t[j..]) {
      forall k | 0 <= k < |t| ensures IsDelim(t[k]) || IsSpace(t[k]) {
        if k < n { assert IsSpace(t[..n][k]); }
        else if k >= j { assert IsDelim(t[j..][k - j]) || IsSpace(t[j..][k - j]); }
      }
    }
  }

  /** `remarkFormat` finds no fragment exactly when the text is blank. */
  lemma NoFragmentsIffBlank(txt: string)
    ensures Fragments(txt) == [] <==> Blank(txt)
  {
    NoFragmentsIffBlankPieces(SplitRuns(txt));
    BlankPiecesIffBlank(txt);
  }

  /** `remarkFormat` (app.js:70-76): nothing for an empty value; the trimmed text
      itself when it is blank; otherwise one block line per fragment, even a single one. */
  function RemarkFormat(val: string): (r: Option<Line>)
    ensures r.None? <==> val == ""
    ensures r.Some? ==> (r.value.Plain? <==> Blank(Trim(val)))
    ensures r.Some? && r.value.Plain? ==> r.value.text == Trim(val)
    ensures r.Some? && r.value.Block? ==>
              && r.value.fragments == Fragments(Trim(val))
              && |r.value.fragments| > 0
              && forall f :: f in r.value.fragments ==> f != "" && IsTrimmed(f) && NoDelim(f)
    ensures r.Some? ==> !r.value.Field?
  {
    if val == "" then None
    else
      var txt := Trim(val);
      var parts := Fragments(txt);
      NoFragmentsIffBlank(txt);
      FragmentsWellFormed(txt);
      if |parts| == 0 then Some(Plain(txt)) else Some(Block(parts))
  }

  /** Joining trimmed, delimiter-free fragments with delimiter runs and formatting
      the result gives the fragments back as one block. */
  lemma RemarkRoundTrip(ps: seq<string>, seps: seq<string>)
    requires |ps| == |seps| + 1
    requires forall i :: 0 <= i < |ps| ==> ps[i] != "" && IsTrimmed(ps[i]) && NoDelim(ps[i])
    requires forall i :: 0 <= i < |seps| ==> |seps[i]| > 0 && AllIn(seps[i], 0, |seps[i]|, IsDelim)
    ensures RemarkFormat(JoinRuns(ps, seps)) == Some(Block(ps))
  {
    var t := JoinRuns(ps, seps);
    JoinRunsEnds(ps, seps);
    JoinRunsNonEmpty(ps, seps);
    SplitJoin(ps, seps);
    FragmentsOfPieces(t, ps);
    TrimmedBlock(t);
  }

  /** When the pieces are already non-empty and trimmed, they are the fragments. */
  lemma FragmentsOfPieces(t: string, ps: seq<string>)
    requires SplitRuns(t) == ps
    requires forall i :: 0 <= i < |ps| ==> ps[i] != "" && IsTrimmed(ps[i])
    ensures Fragments(t) == ps
  {
    forall i | 0 <= i < |ps| ensures TrimAll(ps)[i] == ps[i] {
      TrimTrimmed(ps[i]);
    }
    assert TrimAll(ps) == ps;
    FilterAll(ps, NonEmpty);
  }

  /** A trimmed text with fragments formats as the block of its fragments. */
  lemma TrimmedBlock(t: string)
    requires t != [] && IsTrimmed(t) && Fragments(t) != []
    ensures RemarkFormat(t) == Some(Block(Fragments(t)))
  {
    TrimTrimmed(t);
  }

  /** The joined text starts with the first piece and ends with the last. */
  lemma {:induction false} JoinRunsEnds(ps: seq<string>, seps: seq<string>)
    requires |ps| == |seps| + 1
    requires forall i :: 0 <= i < |ps| ==> ps[i] != "" && IsTrimmed(ps[i])
    ensures IsTrimmed(JoinRuns(ps, seps))
    decreases |seps|
  {
    if |seps| > 0 {
      JoinRunsEnds(ps[1..], seps[1..]);
      var t := JoinRuns(ps, seps);
      var tail := JoinRuns(ps[1..], seps[1..]);
      assert t == ps[0] + seps[0] + tail;
      assert |tail| > 0 by { JoinRunsNonEmpty(ps[1..], seps[1..]); }
      assert t[0] == ps[0][0];
      assert t[|t| - 1] == tail[|tail| - 1];
    }
  }

  lemma {:induction false} JoinRunsNonEmpty(ps: seq<string>, seps: seq<string>)
    requires |ps| == |seps| + 1 && ps[0] != ""
    ensures |JoinRuns(ps, seps)| >= |ps[0]|
  {
    if |seps| > 0 {
      assert JoinRuns(ps, seps) == ps[0] + seps[0] + JoinRuns(ps[1..], seps[1..]);
    }
  }

  /** Worked example: three fragments. */
  lemma RemarkThreeFragments()
    ensures RemarkFormat("a;b/c") == Some(Block(["a", "b", "c"]))
  {
    var ps, seps := ["a", "b", "c"], [";", "/"];
    calc {
      JoinRuns(ps, seps);
      { assert ps == ["a"] + ["b", "c"] && seps == [";"] + ["/"]; JoinCons("a", ";", ["b", "c"], ["/"]); }
      "a" + ";" + JoinRuns(["b", "c"], ["/"]);
      { assert ["b", "c"] == ["b"] + ["c"] && ["/"] == ["/"] + []; JoinCons("b", "/", ["c"], []); }
      "a" + ";" + ("b" + "/" + "c");
      "a;b/c";
    }
    assert forall i :: 0 <= i < 3 ==> |ps[i]| == 1 && !IsSpace(ps[i][0]) && !IsDelim(ps[i][0]);
    assert forall i :: 0 <= i < 2 ==> |seps[i]| == 1 && IsDelim(seps[i][0]);
    RemarkRoundTrip(ps, seps);
  }

  /** Worked example: a single fragment is still a block. */
  lemma RemarkSingleFragment()
    ensures RemarkFormat("single") == Some(Block(["single"]))
  {
    RemarkRoundTrip(["single"], []);
  }

  // ---------------------------------------------------------------------------
  // kv

  /** `kv(caption, value, emph)` (app.js:78-82): nothing for a blank value (one
      that is empty or trims to the empty string), the
      remark formatting for the "Remark" caption (see `KvRemark`), else one line
      showing the value as given. */
  function Kv(caption: string, value: string, emph: bool): (r: Option<Line>)
    ensures r.None? <==> AllSpace(value)
    ensures caption != "Remark" && r.Some? ==> r.value == Field(caption, value, emph)
    ensures caption == "Remark" && r.Some? ==> !r.value.Field?
  {
    if value == "" || AllSpace(value) then None
    else if caption == "Remark" then RemarkFormat(value)
    else Some(Field(caption, value, emph))
  }

  /** The "Remark" caption hands a value that is not blank to `remarkFormat`. */
  lemma KvRemark(value: string, emph: bool)
    ensures !AllSpace(value) ==> Kv("Remark", value, emph) == RemarkFormat(value)
  {
  }
}
