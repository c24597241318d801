/**
 The cascading option lists of the category and equipment dropdowns.

 Both lists are built by `uniq`, which keeps each non-empty value once in
 order of first occurrence, over TRIMMED field values, while the category filter that narrows the equipment
 list compares the UNTRIMMED category with the selection; both behaviours are
 kept as the page has them.
 */
module OptionLists {
  import opened Text
  import opened Seqs
  import opened Dataset
  import opened Equip

  /** `uniq`: the non-empty strings of `xs`, each once, in order of first occurrence. */
  function Uniq(xs: seq<string>): (r: seq<string>)
    ensures FirstOccurrenceOrder(xs, r)
    ensures forall x :: x in r <==> x in xs && x != ""
    decreases |xs|
  {
    if |xs| == 0 then []
    else
      var init, x := xs[..|xs| - 1], xs[|xs| - 1];
      assert xs == init + [x];
      var r := Uniq(init);
      forall y | y in init ensures IndexOf(xs, y) == IndexOf(init, y) {
        IndexOfAppend(init, [x], y);
      }
      if x == "" || x in r then r
      else
        assert x !in init;
        assert IndexOf(xs, x) == |xs| - 1;
        r + [x]
  }

  /** Order of first occurrence means no repetitions. */
  lemma FirstOccurrenceNoDup(xs: seq<string>, r: seq<string>)
    requires FirstOccurrenceOrder(xs, r)
    ensures NoDup(r)
  {
  }

  /** `Uniq`'s contract determines its result: any list of the non-empty values
      of `xs` in order of first occurrence is `Uniq(xs)`. */
  lemma UniqUnique(xs: seq<string>, r: seq<string>)
    requires FirstOccurrenceOrder(xs, r)
    requires forall x :: x in r <==> x in xs && x != ""
    ensures r == Uniq(xs)
  {
    FirstOccurrenceOrderUnique(xs, r, Uniq(xs));
  }

  /** The trimmed categories of the rows of system `sys` (of all rows when `sys` is ""). */
  function CategoryValues(rows: seq<Row>, sys: string): seq<string> {
    Map(BySystem(rows, sys), (row: Row) => Trim(row.category))
  }

  /** A category is among the values exactly when some row of the system carries it. */
  lemma CategoryValuesMember(rows: seq<Row>, sys: string, c: string)
    ensures c in CategoryValues(rows, sys) <==>
      exists row :: row in rows && SystemMatches(row, sys) && Trim(row.category) == c
  {
    BySystemIsFilter(rows, sys);
    MapFilterMember(rows, (row: Row) => SystemMatches(row, sys), (row: Row) => Trim(row.category), c);
  }

  /** `populateCategory` (app.js:33-39): the distinct non-empty trimmed categories
      of the rows that match the selected system. */
  function CategoryOptions(rows: seq<Row>, sys: string): (r: seq<string>)
    ensures NoDup(r)
    ensures FirstOccurrenceOrder(CategoryValues(rows, sys), r)
    ensures forall c :: c in r <==>
      c != "" && exists row :: row in rows && SystemMatches(row, sys) && Trim(row.category) == c
  {
    var vs := CategoryValues(rows, sys);
    forall c {
      CategoryValuesMember(rows, sys, c);
    }
    var r := Uniq(vs);
    FirstOccurrenceNoDup(vs, r);
    r
  }

  /** One equipment option: the raw value used for filtering and the cleaned text shown. */
  datatype EquipOption = EquipOption(value: string, text: string)

  function OptionValues(opts: seq<EquipOption>): seq<string> {
    seq(|opts|, i requires 0 <= i < |opts| => opts[i].value)
  }

  /** The trimmed equipment values of the rows matching `sys` and the untrimmed `cat`. */
  function EquipmentValues(rows: seq<Row>, sys: string, cat: string): seq<string> {
    Map(ByCategory(BySystem(rows, sys), cat), (row: Row) => Trim(row.equipment))
  }

  /** An equipment value is among the values exactly when some row of the system
      and category carries it. */
  lemma EquipmentValuesMember(rows: seq<Row>, sys: string, cat: string, e: string)
    ensures e in EquipmentValues(rows, sys, cat) <==>
      exists row :: row in rows && SystemMatches(row, sys) && CategoryMatches(row, cat)
                    && Trim(row.equipment) == e
  {
    var ps := (row: Row) => SystemMatches(row, sys);
    var pc := (row: Row) => CategoryMatches(row, cat);
    var psc := (row: Row) => SystemMatches(row, sys) && CategoryMatches(row, cat);
    BySystemIsFilter(rows, sys);
    ByCategoryIsFilter(Filter(rows, ps), cat);
    FilterFilter(rows, ps, pc, psc);
    MapFilterMember(rows, psc, (row: Row) => Trim(row.equipment), e);
  }

  /** The options built from the distinct values: raw value, cleaned label. */
  function Labelled(eqs: seq<string>): (r: seq<EquipOption>)
    ensures OptionValues(r) == eqs
    ensures forall i :: 0 <= i < |r| ==> r[i].text == CleanEquip(r[i].value)
  {
    var r := seq(|eqs|, i requires 0 <= i < |eqs| => EquipOption(eqs[i], CleanEquip(eqs[i])));
    assert OptionValues(r) == eqs;
    r
  }

  /** `populateEquipment` (app.js:41-49): the distinct non-empty trimmed equipment
      values of the rows matching the selected system and category, each labelled
      by `cleanEquip`. */
  function EquipmentOptions(rows: seq<Row>, sys: string, cat: string): (r: seq<EquipOption>)
    ensures forall i :: 0 <= i < |r| ==> r[i].text == CleanEquip(r[i].value)
    ensures NoDup(OptionValues(r))
    ensures FirstOccurrenceOrder(EquipmentValues(rows, sys, cat), OptionValues(r))
    ensures forall e :: e in OptionValues(r) <==>
      e != "" && exists row :: row in rows && SystemMatches(row, sys) && CategoryMatches(row, cat)
                               && Trim(row.equipment) == e
  {
    var vs := EquipmentValues(rows, sys, cat);
    forall e {
      EquipmentValuesMember(rows, sys, cat, e);
    }
    var eqs := Uniq(vs);
    FirstOccurrenceNoDup(vs, eqs);
    Labelled(eqs)
  }

  /** Every row's category and equipment are stored without surrounding whitespace. */
  predicate TrimmedData(rows: seq<Row>) {
    && TrimmedCategories(rows)
    && forall i :: 0 <= i < |rows| ==> IsTrimmed(rows[i].equipment)
  }

  /** Every record's category is stored without surrounding whitespace. */
  predicate TrimmedCategories(rows: seq<Row>) {
    forall i :: 0 <= i < |rows| ==> IsTrimmed(rows[i].category)
  }

  /** When the categories are stored trimmed, every offered category selects at
      least one row. */
  lemma OfferedCategorySelects(rows: seq<Row>, sys: string, c: string)
    requires TrimmedCategories(rows)
    requires c in CategoryOptions(rows, sys)
    ensures exists row :: row in Query(rows, Selection(sys, c, ""))
  {
    var q := Selection(sys, c, "");
    var row :| row in rows && SystemMatches(row, sys) && Trim(row.category) == c;
    var k :| 0 <= k < |rows| && rows[k] == row;
    TrimTrimmed(row.category);
    assert Matches(row, q);
    var r := Query(rows, q);
    assert row in r;
  }

  /** On trimmed data, every offered equipment value selects at least one row. */
  lemma OfferedEquipmentSelects(rows: seq<Row>, sys: string, cat: string, e: string)
    requires TrimmedData(rows)
    requires e in OptionValues(EquipmentOptions(rows, sys, cat))
    ensures exists row :: row in Query(rows, Selection(sys, cat, e))
  {
    var q := Selection(sys, cat, e);
    var row :| row in rows && SystemMatches(row, sys) && CategoryMatches(row, cat) && Trim(row.equipment) == e;
    var k :| 0 <= k < |rows| && rows[k] == row;
    TrimTrimmed(row.equipment);
    assert Matches(row, q);
    var r := Query(rows, q);
    assert row in r;
  }

  /** Without trimmed data the cascade can dead-end: a category stored as " Net"
      is offered as "Net", but selecting it matches no row, so its equipment list
      is empty and "Show" finds nothing. */
  lemma UntrimmedCategoryDeadEnd()
    ensures var rows := [Row("A", " Net", "1.1 Core", "u1", "p1", "", "")];
            && "Net" in CategoryOptions(rows, "A")
            && EquipmentOptions(rows, "A", "Net") == []
            && Query(rows, Selection("A", "Net", "")) == []
  {
    var rows := [Row("A", " Net", "1.1 Core", "u1", "p1", "", "")];
    var row := rows[0];
    assert row in rows && SystemMatches(row, "A");
    assert Trim(" Net") == "Net" by {
      assert SkipSpaces(" Net", 0) == 1;
      assert BackSpaces(" Net", 1, 4) == 4;
      assert " Net"[1..4] == ['N', 'e', 't'];
    }
    var opts := EquipmentOptions(rows, "A", "Net");
    if |opts| > 0 {
      assert false;
    }
    var r := Query(rows, Selection("A", "Net", ""));
    if |r| > 0 {
      assert false;
    }
  }
}
