/**
 What the "Show" button puts in the result area (`render`, app.js:84-132).

 The DOM is abstracted to a `View`: the "No matching entry." message, or a
 header followed by one numbered card per matching record.
 */
module ResultArea {
  import opened Text
  import opened Wrappers
  import opened Seqs
  import opened Equip
  import opened Dataset
  import opened Format

  /** One credential card: the `#n` badge and the lines of its slot. */
  datatype Card = Card(badge: nat, lines: seq<Line>)

  /** Contents of the result area. `Untouched` is whatever the page holds before
      the first render. */
  datatype View =
    | Untouched
    | NoMatch
    | Results(header: seq<Line>, cards: seq<Card>)

  /** One `kv` result as it appears among a card's lines: its line, or nothing. */
  function Opt(o: Option<Line>): (r: seq<Line>)
    ensures forall l :: l in r <==> o == Some(l)
    ensures |r| <= 1
  {
    if o.Some? then [o.value] else []
  }

  /** The four field captions of a card are pairwise different. */
  lemma CaptionsDistinct()
    ensures "Login ID" != "Password" && "Login ID" != "Password Effective Date"
    ensures "Password" != "Password Effective Date"
    ensures "Login ID" != "Remark" && "Password" != "Remark" && "Password Effective Date" != "Remark"
    ensures "Category" != "Equipment"
  {
    assert "Login ID"[0] != "Password"[0];
    assert "Login ID"[0] != "Remark"[0] && "Password"[0] != "Remark"[0];
    assert "Category"[0] != "Equipment"[0];
  }

  /** The header block (app.js:103-110) for the category `catVal` and the
      equipment text `eqText` (the cleaned equipment name): each line only when
      its value is not blank, the category first. */
  function Header(catVal: string, eqText: string): (h: seq<Line>)
    ensures |h| <= 2
    ensures Field("Category", catVal, false) in h <==> !AllSpace(catVal)
    ensures Field("Equipment", eqText, false) in h <==> !AllSpace(eqText)
    ensures forall l :: l in h ==> l == Field("Category", catVal, false) || l == Field("Equipment", eqText, false)
    ensures !AllSpace(catVal) ==> h[0] == Field("Category", catVal, false)
    ensures h == (if AllSpace(catVal) then [] else [Field("Category", catVal, false)])
                 + (if AllSpace(eqText) then [] else [Field("Equipment", eqText, false)])
  {
    CaptionsDistinct();
    var c := if catVal != "" then Kv("Category", catVal, false) else None;
    var e := if eqText != "" then Kv("Equipment", eqText, false) else None;
    Opt(c) + Opt(e)
  }

  /** The slot of one card (app.js:120-126) for the record `row` whose date
      `dateOnly` rendered as `d`: the login, password, remark and date lines, in
      that order, each only when present. */
  function CardLines(row: Row, d: string): (ls: seq<Line>)
    ensures |ls| <= 4
    ensures ls == (if AllSpace(row.login) then [] else [Field("Login ID", row.login, true)])
                  + (if AllSpace(row.password) then [] else [Field("Password", row.password, true)])
                  + (if AllSpace(row.remark) then [] else [RemarkFormat(row.remark).value])
                  + (if AllSpace(d) then [] else [Field("Password Effective Date", d, false)])
  {
    KvRemark(row.remark, false);
    Opt(Kv("Login ID", row.login, true))
      + Opt(Kv("Password", row.password, true))
      + Opt(Kv("Remark", row.remark, false))
      + Opt(DateLine(d))
  }

  /** The effective-date line for a rendered date `d`; none when `d` is empty. */
  function DateLine(d: string): Option<Line> {
    if d != "" then Kv("Password Effective Date", d, false) else None
  }

  /** Apart from the remark's, every line of a card is a field line named by
      its caption. */
  lemma CardFields(row: Row, d: string)
    ensures forall l :: l in Opt(Kv("Login ID", row.login, true)) ==> l == Field("Login ID", row.login, true)
    ensures forall l :: l in Opt(Kv("Password", row.password, true)) ==> l == Field("Password", row.password, true)
    ensures forall l :: l in Opt(DateLine(d)) ==> l == Field("Password Effective Date", d, false)
    ensures forall l :: l in Opt(Kv("Remark", row.remark, false)) ==> !l.Field?
  {
  }

  /** The login line is shown, emphasised and verbatim, exactly when the login is
      not blank, and then it comes first. */
  lemma CardLogin(row: Row, d: string)
    ensures Field("Login ID", row.login, true) in CardLines(row, d) <==> !AllSpace(row.login)
    ensures !AllSpace(row.login) ==> CardLines(row, d)[0] == Field("Login ID", row.login, true)
  {
    var f := Field("Login ID", row.login, true);
    var l, p, r, t := CardParts(row, d);
    var ls := CardLines(row, d);
    if AllSpace(row.login) {
      CaptionsDistinct();
      assert f !in p;
      assert f !in r;
      assert f !in t;
    } else {
      assert ls[0] == l[0] == f;
    }
  }

  /** The password line is shown, emphasised and verbatim, exactly when the
      password is not blank. */
  lemma CardPassword(row: Row, d: string)
    ensures Field("Password", row.password, true) in CardLines(row, d) <==> !AllSpace(row.password)
  {
    var f := Field("Password", row.password, true);
    var l, p, r, t := CardParts(row, d);
    assert f !in l && f !in r && f !in t by { CaptionsDistinct(); }
  }

  /** The remark contributes one line exactly when it is not blank, and that line
      is what `remarkFormat` makes of it. */
  lemma CardRemark(row: Row, d: string)
    ensures (exists l :: l in CardLines(row, d) && !l.Field?) <==> !AllSpace(row.remark)
    ensures forall l :: l in CardLines(row, d) && !l.Field? ==> RemarkFormat(row.remark) == Some(l)
  {
    var l, p, r, t := CardParts(row, d);
    assert forall x :: x in CardLines(row, d) && !x.Field? ==> x in r;
    if !AllSpace(row.remark) {
      assert r[0] in CardLines(row, d);
    }
  }

  /** The effective-date line is shown exactly when the rendered date is not blank. */
  lemma CardDate(row: Row, d: string)
    ensures Field("Password Effective Date", d, false) in CardLines(row, d) <==> !AllSpace(d)
  {
    var f := Field("Password Effective Date", d, false);
    var l, p, r, t := CardParts(row, d);
    assert f !in l && f !in p && f !in r by { CaptionsDistinct(); }
  }

  /** The four parts of a card: each holds its line when the field is not blank,
      and the remark's line is `remarkFormat`'s, never a field line. */
  lemma CardParts(row: Row, d: string) returns (l: seq<Line>, p: seq<Line>, r: seq<Line>, t: seq<Line>)
    ensures l == (if AllSpace(row.login) then [] else [Field("Login ID", row.login, true)])
    ensures p == (if AllSpace(row.password) then [] else [Field("Password", row.password, true)])
    ensures !AllSpace(row.remark) ==> RemarkFormat(row.remark).Some? && !RemarkFormat(row.remark).value.Field?
    ensures r == (if AllSpace(row.remark) then [] else [RemarkFormat(row.remark).value])
    ensures forall x :: x in r ==> !x.Field?
    ensures t == (if AllSpace(d) then [] else [Field("Password Effective Date", d, false)])
    ensures CardLines(row, d) == l + p + r + t
  {
    l := if AllSpace(row.login) then [] else [Field("Login ID", row.login, true)];
    p := if AllSpace(row.password) then [] else [Field("Password", row.password, true)];
    r := if AllSpace(row.remark) then [] else [RemarkFormat(row.remark).value];
    t := if AllSpace(d) then [] else [Field("Password Effective Date", d, false)];
  }

  /** The category and equipment the header names: the selection, or for an
      "All" selector the value of the first record shown (app.js:103-105). */
  function HeaderFor(q: Selection, first: Row): seq<Line> {
    var catVal := if q.cat != "" then q.cat else first.category;
    var eqVal := if q.eq != "" then q.eq else first.equipment;
    Header(catVal, CleanEquip(eqVal))
  }

  /** The numbered cards of the records shown (app.js:112-129). */
  function Cards(shown: seq<Row>, host: string -> Option<string>): (cs: seq<Card>)
    ensures |cs| == |shown|
    ensures forall i :: 0 <= i < |cs| ==> cs[i].badge == i + 1
  {
    seq(|shown|, i requires 0 <= i < |shown| => Card(i + 1, CardLines(shown[i], DateOnly(shown[i].date, host))))
  }

  /** `render` (app.js:84-132) for the dataset `rows` and the selection `q`;
      `host` is the browser's date parser used by `dateOnly`. */
  function Render(rows: seq<Row>, q: Selection, host: string -> Option<string>): (v: View)
    ensures !v.Untouched?
    ensures v.NoMatch? <==> forall row :: row in rows ==> !Matches(row, q)
  {
    var shown := Query(rows, q);
    if |shown| == 0 then
      assert forall row :: row in rows ==> !Matches(row, q) by {
        forall row | row in rows ensures !Matches(row, q) { assert row !in shown; }
      }
      NoMatch
    else
      assert shown[0] in rows && Matches(shown[0], q) by { assert shown[0] in shown; }
      Results(HeaderFor(q, shown[0]), Cards(shown, host))
  }

  /** Card `i` shows the `i`-th matching record, in dataset order, under the badge `#i+1`. */
  lemma RenderCards(rows: seq<Row>, q: Selection, host: string -> Option<string>)
    ensures var v := Render(rows, q, host);
            v.Results? ==>
              var shown := Query(rows, q);
              && |v.cards| == |shown|
              && forall i :: 0 <= i < |shown| ==>
                   v.cards[i] == Card(i + 1, CardLines(shown[i], DateOnly(shown[i].date, host)))
  {
  }

  /** The first record shown is the first record of the dataset that matches. */
  lemma QueryHead(rows: seq<Row>, q: Selection)
    requires |Query(rows, q)| > 0
    ensures exists k :: && 0 <= k < |rows| && Matches(rows[k], q)
                        && (forall j :: 0 <= j < k ==> !Matches(rows[j], q))
                        && Query(rows, q)[0] == rows[k]
  {
    QueryIsFilter(rows, q);
    FilterHead(rows, MatchTest(q));
  }

  /** The header names the selected category and equipment, or for an "All"
      selector the value of the first record of the dataset that matches. */
  lemma RenderHeader(rows: seq<Row>, q: Selection, host: string -> Option<string>)
    ensures var v := Render(rows, q, host);
            v.Results? ==>
              exists k :: && 0 <= k < |rows| && Matches(rows[k], q)
                          && (forall j :: 0 <= j < k ==> !Matches(rows[j], q))
                          && v.header == HeaderFor(q, rows[k])
  {
    var v := Render(rows, q, host);
    if v.Results? {
      var shown := Query(rows, q);
      assert v.header == HeaderFor(q, shown[0]);
      QueryHead(rows, q);
    }
  }

  /** With every dropdown on "All", a non-empty dataset shows one card per record,
      in dataset order. */
  lemma RenderAllSelected(rows: seq<Row>, host: string -> Option<string>)
    requires |rows| > 0
    ensures var v := Render(rows, AllSelected, host);
            && v.Results?
            && |v.cards| == |rows|
            && forall i :: 0 <= i < |rows| ==> v.cards[i].lines == CardLines(rows[i], DateOnly(rows[i].date, host))
  {
    var v := Render(rows, AllSelected, host);
    var shown := Query(rows, AllSelected);
    assert shown == rows;
    MatchResults(rows, AllSelected, host, rows[0]);
    RenderCards(rows, AllSelected, host);
    assert |v.cards| == |shown|;
    forall i | 0 <= i < |rows|
      ensures v.cards[i].lines == CardLines(rows[i], DateOnly(rows[i].date, host))
    {
      assert v.cards[i] == Card(i + 1, CardLines(shown[i], DateOnly(shown[i].date, host)));
    }
  }

  /** A record that matches makes `render` list results. */
  lemma MatchResults(rows: seq<Row>, q: Selection, host: string -> Option<string>, row: Row)
    requires row in rows && Matches(row, q)
    ensures Render(rows, q, host).Results?
  {
  }

  /** Three records for the worked example: two of system "A" under the
      equipment "1.3 Router A", one of system "B". */
  const ExampleRows := [
    Row("A", "Net", "1.3 Router A", "u1", "p1", "", ""),
    Row("A", "Net", "1.3 Router A", "u2", "p2", "", ""),
    Row("B", "Db", "Main", "u3", "p3", "", "")]

  lemma ExampleQuery()
    ensures Query(ExampleRows, Selection("A", "", "")) == ExampleRows[..2]
  {
    var rows := ExampleRows;
    var p := SystemTest("A");
    assert Filter(rows[2..], p) == [] by {
      assert !p(rows[2]) && rows[2..][1..] == [];
    }
    assert Filter(rows[1..], p) == [rows[1]] by {
      assert p(rows[1]) && rows[1..][1..] == rows[2..];
    }
    assert Filter(rows, p) == [rows[0], rows[1]] by {
      assert p(rows[0]);
    }
  }

  lemma ExampleHeader()
    ensures HeaderFor(Selection("A", "", ""), ExampleRows[0])
              == [Field("Category", "Net", false), Field("Equipment", "Router A", false)]
  {
    var first := ExampleRows[0];
    assert first.category == "Net" && first.equipment == "1.3 Router A";
    HeaderOfFirst(Selection("A", "", ""), first);
    CleanEquipDottedCode();
    assert !IsSpace("Net"[0]) && !IsSpace("Router A"[0]);
    FullHeader("Net", "Router A");
  }

  /** With category and equipment on "All", the header describes the first record. */
  lemma HeaderOfFirst(q: Selection, first: Row)
    requires q.cat == "" && q.eq == ""
    ensures HeaderFor(q, first) == Header(first.category, CleanEquip(first.equipment))
  {
  }

  /** With a category and an equipment text that are not blank, the header has
      both lines, the category first. */
  lemma FullHeader(catVal: string, eqText: string)
    requires !AllSpace(catVal) && !AllSpace(eqText)
    ensures Header(catVal, eqText) == [Field("Category", catVal, false), Field("Equipment", eqText, false)]
  {
  }

  /** A record with a login and a password that are not blank, and with no
      remark and no date. */
  predicate CredentialsOnly(row: Row) {
    && !AllSpace(row.login)
    && !AllSpace(row.password)
    && row.remark == "" && row.date == ""
  }

  /** Such a record gets exactly the two credential lines. */
  lemma CredentialsOnlyCard(row: Row)
    requires CredentialsOnly(row)
    ensures CardLines(row, "") == [Field("Login ID", row.login, true), Field("Password", row.password, true)]
  {
  }

  /** Records with only credentials get numbered cards holding exactly those,
      whatever the host's date parser does. */
  lemma CredentialCards(shown: seq<Row>, host: string -> Option<string>)
    requires forall i :: 0 <= i < |shown| ==> CredentialsOnly(shown[i])
    ensures |Cards(shown, host)| == |shown|
    ensures forall i :: 0 <= i < |shown| ==>
              Cards(shown, host)[i] ==
              Card(i + 1, [Field("Login ID", shown[i].login, true), Field("Password", shown[i].password, true)])
  {
    forall i | 0 <= i < |shown|
      ensures Cards(shown, host)[i] ==
                Card(i + 1, [Field("Login ID", shown[i].login, true), Field("Password", shown[i].password, true)])
    {
      CardAt(shown, host, i);
      assert DateOnly(shown[i].date, host) == "";
      CredentialsOnlyCard(shown[i]);
    }
  }

  /** End-to-end example: the two records of system "A" share one header with
      the cleaned equipment name and get cards #1 and #2; the record of system
      "B" is left out. */
  lemma RenderExample()
    ensures Render(ExampleRows, Selection("A", "", ""), NoHostDate) ==
              Results(
                [Field("Category", "Net", false), Field("Equipment", "Router A", false)],
                [Card(1, [Field("Login ID", "u1", true), Field("Password", "p1", true)]),
                 Card(2, [Field("Login ID", "u2", true), Field("Password", "p2", true)])])
  {
    var q := Selection("A", "", "");
    var shown := ExampleRows[..2];
    ExampleQuery();
    ExampleHeader();
    assert shown[0] == ExampleRows[0];
    assert Render(ExampleRows, q, NoHostDate) == Results(HeaderFor(q, shown[0]), Cards(shown, NoHostDate));
    ExampleCards();
  }

  lemma ExampleCards()
    ensures Cards(ExampleRows[..2], NoHostDate) ==
              [Card(1, [Field("Login ID", "u1", true), Field("Password", "p1", true)]),
               Card(2, [Field("Login ID", "u2", true), Field("Password", "p2", true)])]
  {
    var shown := ExampleRows[..2];
    ExampleCredentials();
    assert shown == [shown[0], shown[1]];
    TwoCredentialCards(shown[0], shown[1], NoHostDate);
  }

  /** Two records with only credentials get cards #1 and #2 holding exactly those. */
  lemma TwoCredentialCards(a: Row, b: Row, host: string -> Option<string>)
    requires CredentialsOnly(a) && CredentialsOnly(b)
    ensures Cards([a, b], host) ==
              [Card(1, [Field("Login ID", a.login, true), Field("Password", a.password, true)]),
               Card(2, [Field("Login ID", b.login, true), Field("Password", b.password, true)])]
  {
    var shown := [a, b];
    CredentialCards(shown, host);
    var cs := Cards(shown, host);
    var c0 := Card(1, [Field("Login ID", a.login, true), Field("Password", a.password, true)]);
    var c1 := Card(2, [Field("Login ID", b.login, true), Field("Password", b.password, true)]);
    assert |cs| == 2 && cs[0] == c0 && cs[1] == c1;
  }

  /** The two records of system "A" carry only credentials. */
  lemma ExampleCredentials()
    ensures forall i :: 0 <= i < |ExampleRows[..2]| ==> CredentialsOnly(ExampleRows[..2][i])
  {
    var rs := ExampleRows[..2];
    assert !IsSpace(rs[0].login[0]) && !IsSpace(rs[0].password[0]);
    assert !IsSpace(rs[1].login[0]) && !IsSpace(rs[1].password[0]);
  }

  /** Card `i` is numbered `i + 1` and shows the `i`-th record. */
  lemma CardAt(shown: seq<Row>, host: string -> Option<string>, i: nat)
    requires i < |shown|
    ensures Cards(shown, host)[i] == Card(i + 1, CardLines(shown[i], DateOnly(shown[i].date, host)))
  {
  }
}
