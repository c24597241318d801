/**
 The page's event wiring (app.js:29, 51-54, 134-139) as a state machine.

 The state holds the three dropdown values, the options the category and
 equipment dropdowns offer, whether the result card is hidden, and the result
 area. A select only lets the user pick one of its options, and it fires
 `change` only when another option gets selected. The state records values, not
 option positions: a pick of a value the select does not offer, or of the value
 already selected when no other option carries it, is not an event the page can
 receive, and `Step` leaves the state alone for it. The system list is shown as
 loaded, so a repeated name, or an empty name beside "All", gives a second
 option with the current value, and picking that one is a `change`.
 */
module Controller {
  import opened Wrappers
  import opened Text
  import opened Seqs
  import opened Dataset
  import opened OptionLists
  import opened Format
  import opened ResultArea

  /** What the page loaded: the records, the system list, and the browser's
      date parser. */
  datatype Page = Page(rows: seq<Row>, systems: seq<string>, host: string -> Option<string>)

  datatype UiState = UiState(
    sys: string,
    cat: string,
    eq: string,
    catOptions: seq<string>,
    eqOptions: seq<EquipOption>,
    hidden: bool,
    area: View)

  datatype Event =
    | PickSystem(value: string)
    | PickCategory(value: string)
    | PickEquipment(value: string)
    | Show
    | Clear

  /** The values of the system select's options: "All" and then `systems` as
      loaded (app.js:29), repetitions included. */
  function SystemOptions(page: Page): seq<string> {
    [""] + page.systems
  }

  /** Each select offers "" ("All") followed by its options. A pick is a
      `change` when some option other than the selected one carries the value:
      a different value, or the same value on a second system option. The
      category and equipment options are deduplicated and non-empty, so there
      only a different value is a `change`. */
  predicate Offered(page: Page, s: UiState, e: Event) {
    match e
    case PickSystem(v) =>
      v in SystemOptions(page) && (v != s.sys || multiset(SystemOptions(page))[v] >= 2)
    case PickCategory(v) => v != s.cat && (v == "" || v in s.catOptions)
    case PickEquipment(v) => v != s.eq && (v == "" || v in OptionValues(s.eqOptions))
    case _ => true
  }

  /** `populateCategory` (app.js:33-39): rebuilding both lower selects resets
      their values to "All". */
  function PopulateCategory(page: Page, s: UiState): UiState {
    s.(catOptions := CategoryOptions(page.rows, s.sys), cat := "", eqOptions := [], eq := "")
  }

  /** `populateEquipment` (app.js:41-49). */
  function PopulateEquipment(page: Page, s: UiState): UiState {
    s.(eqOptions := EquipmentOptions(page.rows, s.sys, s.cat), eq := "")
  }

  /** The page after loading (app.js:29, 54): everything on "All", the category
      list built, the equipment list empty. Whether the card starts hidden is
      decided by the page markup, so it is a parameter. */
  function Init(page: Page, startHidden: bool): (s: UiState)
    ensures s.sys == "" && s.cat == "" && s.eq == ""
    ensures forall c :: c in s.catOptions <==>
              c != "" && exists row :: row in page.rows && Trim(row.category) == c
    ensures s.eqOptions == []
    ensures s.area == Untouched
  {
    var s := PopulateCategory(page, UiState("", "", "", [], [], startHidden, Untouched));
    assert forall row :: SystemMatches(row, "");
    s
  }

  /** One user action (app.js:51-52, 134-139). */
  function Step(page: Page, s: UiState, e: Event): (t: UiState)
    ensures !Offered(page, s, e) ==> t == s
    ensures Offered(page, s, e) ==> (!t.hidden <==> e.Show? || (!s.hidden && e.PickEquipment?))
    ensures e.Show? ==> t == s.(hidden := false, area := Render(page.rows, Selection(s.sys, s.cat, s.eq), page.host))
    ensures !e.Show? ==> t.area == s.area
    ensures e.PickEquipment? && Offered(page, s, e) ==> t == s.(eq := e.value)
  {
    if !Offered(page, s, e) then s
    else
      match e
      case PickSystem(v) => PopulateCategory(page, s.(sys := v)).(hidden := true)
      case PickCategory(v) => PopulateEquipment(page, s.(cat := v)).(hidden := true)
      case PickEquipment(v) => s.(eq := v)
      case Show => s.(hidden := false, area := Render(page.rows, Selection(s.sys, s.cat, s.eq), page.host))
      case Clear =>
        var t := PopulateCategory(page, s.(sys := ""));
        PopulateEquipment(page, t.(cat := "")).(hidden := true)
  }

  /** A sequence of user actions, in order. */
  function Run(page: Page, s: UiState, es: seq<Event>): UiState
    decreases |es|
  {
    if |es| == 0 then s else Run(page, Step(page, s, es[0]), es[1..])
  }

  /** The dropdowns agree with each other and with the data: each value is
      "All" or one of its select's options, and each option list is the one
      built for the values above it. */
  predicate Consistent(page: Page, s: UiState) {
    && (s.sys == "" || s.sys in page.systems)
    && s.catOptions == CategoryOptions(page.rows, s.sys)
    && (s.cat == "" || s.cat in s.catOptions)
    && ((s.cat == "" && s.eqOptions == []) || s.eqOptions == EquipmentOptions(page.rows, s.sys, s.cat))
    && (s.eq == "" || s.eq in OptionValues(s.eqOptions))
  }

  lemma InitConsistent(page: Page, startHidden: bool)
    ensures Consistent(page, Init(page, startHidden))
  {
  }

  /** Every action keeps the dropdowns consistent. */
  lemma StepConsistent(page: Page, s: UiState, e: Event)
    requires Consistent(page, s)
    ensures Consistent(page, Step(page, s, e))
  {
  }

  lemma {:induction false} RunConsistent(page: Page, s: UiState, es: seq<Event>)
    requires Consistent(page, s)
    ensures Consistent(page, Run(page, s, es))
    decreases |es|
  {
    if |es| > 0 {
      StepConsistent(page, s, es[0]);
      RunConsistent(page, Step(page, s, es[0]), es[1..]);
    }
  }

  /** Every state the page reaches from loading is consistent. */
  lemma ReachableConsistent(page: Page, startHidden: bool, es: seq<Event>)
    ensures Consistent(page, Run(page, Init(page, startHidden), es))
  {
    InitConsistent(page, startHidden);
    RunConsistent(page, Init(page, startHidden), es);
  }

  /** On trimmed data, a category or equipment value picked from the dropdowns
      selects at least one record. */
  lemma PickedSelects(page: Page, s: UiState)
    requires Consistent(page, s) && TrimmedData(page.rows)
    requires s.cat != "" || s.eq != ""
    ensures exists row :: row in Query(page.rows, Selection(s.sys, s.cat, s.eq))
  {
    if s.eq != "" {
      assert s.eqOptions != [];
      OfferedEquipmentSelects(page.rows, s.sys, s.cat, s.eq);
    } else {
      OfferedCategorySelects(page.rows, s.sys, s.cat);
    }
  }

  /** On trimmed data, "Show" after picking a category or an equipment value
      from the dropdowns never reports "No matching entry.". */
  lemma ShowFindsPicked(page: Page, s: UiState)
    requires Consistent(page, s) && TrimmedData(page.rows)
    requires s.cat != "" || s.eq != ""
    ensures Step(page, s, Show).area.Results?
  {
    var q := Selection(s.sys, s.cat, s.eq);
    PickedSelects(page, s);
    var row :| row in Query(page.rows, q);
    MatchResults(page.rows, q, page.host, row);
    ShowRenders(page, s);
  }

  /** "Show" puts `render`'s output for the current selection in the result area. */
  lemma ShowRenders(page: Page, s: UiState)
    ensures Step(page, s, Show).area == Render(page.rows, Selection(s.sys, s.cat, s.eq), page.host)
  {
  }

  /** "Clear" forgets every selection: from any two states with the same result
      area it leads to the same state, with every value on "All", the full
      equipment list offered and the card hidden. */
  lemma ClearResets(page: Page, s: UiState, s': UiState)
    requires s.area == s'.area
    ensures Step(page, s, Clear) == Step(page, s', Clear)
    ensures var t := Step(page, s, Clear);
            && t.sys == "" && t.cat == "" && t.eq == "" && t.hidden
            && t.eqOptions == EquipmentOptions(page.rows, "", "")
            && forall e :: e in OptionValues(t.eqOptions) <==>
                 e != "" && exists row :: row in page.rows && Trim(row.equipment) == e
  {
    var t := Step(page, s, Clear);
    assert t.eqOptions == EquipmentOptions(page.rows, "", "");
    assert forall row :: SystemMatches(row, "") && CategoryMatches(row, "");
  }

  /** Picking another system option rebuilds the category list for its value,
      empties the equipment list, puts both lower selects back on "All" and hides
      the card, also when the option repeats the current value. */
  lemma PickSystemResets(page: Page, s: UiState, v: string)
    requires v in SystemOptions(page) && (v != s.sys || multiset(SystemOptions(page))[v] >= 2)
    ensures var t := Step(page, s, PickSystem(v));
            && t.sys == v && t.cat == "" && t.eq == "" && t.hidden
            && t.eqOptions == []
            && (forall c :: c in t.catOptions <==>
                  c != "" && exists row :: row in page.rows && SystemMatches(row, v) && Trim(row.category) == c)
            && t.area == s.area
  {
  }

  /** Picking another category keeps the system and its category list, rebuilds the
      equipment list for the pair, puts equipment back on "All" and hides the card. */
  lemma PickCategoryResets(page: Page, s: UiState, v: string)
    requires v != s.cat && (v == "" || v in s.catOptions)
    ensures var t := Step(page, s, PickCategory(v));
            && t.sys == s.sys && t.catOptions == s.catOptions
            && t.cat == v && t.eq == "" && t.hidden
            && (forall e :: e in OptionValues(t.eqOptions) <==>
                  e != "" && exists row :: row in page.rows && SystemMatches(row, s.sys)
                                           && CategoryMatches(row, v) && Trim(row.equipment) == e)
            && t.area == s.area
  {
  }

  /** With distinct, non-empty system names, picking the selected system again
      is no `change`, so nothing happens. */
  lemma SystemRepickIgnored(page: Page, s: UiState)
    requires NoDup(page.systems) && "" !in page.systems
    ensures Step(page, s, PickSystem(s.sys)) == s
  {
    var opts := SystemOptions(page);
    assert NoDup(opts) by {
      forall i, j | 0 <= i < j < |opts| ensures opts[i] != opts[j] {
        assert opts[j] == page.systems[j - 1];
        if i > 0 { assert opts[i] == page.systems[i - 1]; }
      }
    }
    AtMostOnce(opts, s.sys);
  }

  /** With the selected system listed twice, picking its other option is a
      `change`: the lower selects go back to "All" and the card is hidden. */
  lemma SystemRepickResets(page: Page, s: UiState, i: nat, j: nat)
    requires i < j < |page.systems| && page.systems[i] == page.systems[j] == s.sys
    ensures var t := Step(page, s, PickSystem(s.sys));
            && t.sys == s.sys && t.cat == "" && t.eq == "" && t.eqOptions == [] && t.hidden
            && t.catOptions == CategoryOptions(page.rows, s.sys)
  {
    var opts := SystemOptions(page);
    assert opts[i + 1] == opts[j + 1] == s.sys;
    TwoInMultiset(opts, i + 1, j + 1);
  }

  /** Two positions holding `v` make it occur at least twice. */
  lemma TwoInMultiset(xs: seq<string>, i: nat, j: nat)
    requires i < j < |xs| && xs[i] == xs[j]
    ensures multiset(xs)[xs[i]] >= 2
  {
    assert xs == xs[..i] + [xs[i]] + xs[i+1..j] + [xs[j]] + xs[j+1..];
  }

  /** A list without repetitions holds every value at most once. */
  lemma AtMostOnce(xs: seq<string>, v: string)
    requires NoDup(xs)
    ensures multiset(xs)[v] <= 1
  {
    if xs != [] {
      AtMostOnce(xs[1..], v);
      assert xs == [xs[0]] + xs[1..];
      if xs[0] == v {
        assert v !in xs[1..];
      }
    }
  }

  /** Pressing "Show" twice shows the same thing as pressing it once. */
  lemma ShowIdempotent(page: Page, s: UiState)
    ensures Step(page, Step(page, s, Show), Show) == Step(page, s, Show)
  {
  }

  /** Only "Show" reveals the card: after any run whose actions are not "Show",
      a hidden card is still hidden. */
  lemma {:induction false} HiddenUntilShow(page: Page, s: UiState, es: seq<Event>)
    requires s.hidden
    requires forall i :: 0 <= i < |es| ==> !es[i].Show?
    ensures Run(page, s, es).hidden
    decreases |es|
  {
    if |es| > 0 {
      HiddenUntilShow(page, Step(page, s, es[0]), es[1..]);
    }
  }

  /** End-to-end: after loading, picking system "A" and pressing "Show" displays
      the worked example's two cards. */
  lemma RunExample(startHidden: bool)
    ensures var page := Page(ExampleRows, ["A", "B"], NoHostDate);
            var t := Run(page, Init(page, startHidden), [PickSystem("A"), Show]);
            && !t.hidden
            && t.area == Results(
                 [Field("Category", "Net", false), Field("Equipment", "Router A", false)],
                 [Card(1, [Field("Login ID", "u1", true), Field("Password", "p1", true)]),
                  Card(2, [Field("Login ID", "u2", true), Field("Password", "p2", true)])])
  {
    var page := Page(ExampleRows, ["A", "B"], NoHostDate);
    var s0 := Init(page, startHidden);
    var s1 := Step(page, s0, PickSystem("A"));
    assert s1.sys == "A" && s1.cat == "" && s1.eq == "";
    var s2 := Step(page, s1, Show);
    RenderExample();
    assert Run(page, s0, [PickSystem("A"), Show]) == Run(page, s1, [Show]);
    assert Run(page, s1, [Show]) == s2;
  }
}
