/**
 The dataset of credential records and the query the "Show" button evaluates.

 A record's fields are strings; a field absent from the JSON document reads as
 the empty string, which is also how the page reads a missing category or
 equipment.
 The filter triple holds the three dropdown values, the empty string standing
 for "All".
 */
module Dataset {
  import opened Seqs

  /** One credential record of `rows`. */
  datatype Row = Row(
    system: string,
    category: string,
    equipment: string,
    login: string,
    password: string,
    remark: string,
    date: string)

  /** The selected (system, category, equipment); "" selects everything. */
  datatype Selection = Selection(sys: string, cat: string, eq: string)

  /** Every dropdown on "All". */
  const AllSelected := Selection("", "", "")

  predicate SystemMatches(row: Row, sys: string) {
    sys == "" || row.system == sys
  }

  predicate CategoryMatches(row: Row, cat: string) {
    cat == "" || row.category == cat
  }

  predicate EquipmentMatches(row: Row, eq: string) {
    eq == "" || row.equipment == eq
  }

  /** `row` agrees with every non-empty selector of `q`, by exact string equality. */
  predicate Matches(row: Row, q: Selection) {
    SystemMatches(row, q.sys) && CategoryMatches(row, q.cat) && EquipmentMatches(row, q.eq)
  }

  function SystemTest(sys: string): Row -> bool {
    (row: Row) => row.system == sys
  }

  function CategoryTest(cat: string): Row -> bool {
    (row: Row) => row.category == cat
  }

  function EquipmentTest(eq: string): Row -> bool {
    (row: Row) => row.equipment == eq
  }

  function MatchTest(q: Selection): Row -> bool {
    (row: Row) => Matches(row, q)
  }

  /** The rows of system `sys`, in order; all rows when `sys` is "". */
  function BySystem(rows: seq<Row>, sys: string): seq<Row> {
    if sys == "" then rows else Filter(rows, SystemTest(sys))
  }

  /** The rows whose category is exactly `cat`, in order; all rows when `cat` is "". */
  function ByCategory(rows: seq<Row>, cat: string): seq<Row> {
    if cat == "" then rows else Filter(rows, CategoryTest(cat))
  }

  /** The rows whose equipment is exactly `eq`, in order; all rows when `eq` is "". */
  function ByEquipment(rows: seq<Row>, eq: string): seq<Row> {
    if eq == "" then rows else Filter(rows, EquipmentTest(eq))
  }

  /** Each stage is a filter by its own selector. */
  lemma BySystemIsFilter(rows: seq<Row>, sys: string)
    ensures BySystem(rows, sys) == Filter(rows, (row: Row) => SystemMatches(row, sys))
  {
    if sys == "" {
      FilterAll(rows, (row: Row) => SystemMatches(row, sys));
    } else {
      FilterExt(rows, SystemTest(sys), (row: Row) => SystemMatches(row, sys));
    }
  }

  lemma ByCategoryIsFilter(rows: seq<Row>, cat: string)
    ensures ByCategory(rows, cat) == Filter(rows, (row: Row) => CategoryMatches(row, cat))
  {
    if cat == "" {
      FilterAll(rows, (row: Row) => CategoryMatches(row, cat));
    } else {
      FilterExt(rows, CategoryTest(cat), (row: Row) => CategoryMatches(row, cat));
    }
  }

  lemma ByEquipmentIsFilter(rows: seq<Row>, eq: string)
    ensures ByEquipment(rows, eq) == Filter(rows, (row: Row) => EquipmentMatches(row, eq))
  {
    if eq == "" {
      FilterAll(rows, (row: Row) => EquipmentMatches(row, eq));
    } else {
      FilterExt(rows, EquipmentTest(eq), (row: Row) => EquipmentMatches(row, eq));
    }
  }

  /** The three filters of `render` in a row are one filter by `Matches`. */
  lemma {:induction false} QueryIsFilter(rows: seq<Row>, q: Selection)
    ensures ByEquipment(ByCategory(BySystem(rows, q.sys), q.cat), q.eq) == Filter(rows, MatchTest(q))
  {
    var ps := (row: Row) => SystemMatches(row, q.sys);
    var pc := (row: Row) => CategoryMatches(row, q.cat);
    var pe := (row: Row) => EquipmentMatches(row, q.eq);
    var psc := (row: Row) => SystemMatches(row, q.sys) && CategoryMatches(row, q.cat);
    BySystemIsFilter(rows, q.sys);
    ByCategoryIsFilter(Filter(rows, ps), q.cat);
    FilterFilter(rows, ps, pc, psc);
    ByEquipmentIsFilter(Filter(rows, psc), q.eq);
    FilterFilter(rows, psc, pe, MatchTest(q));
  }

  /** The rows `render` shows for the selection `q` (app.js:89-92): a stable
      filter of `rows`, keeping exactly, and as often as they occur, the rows
      that agree with every non-empty selector. */
  function Query(rows: seq<Row>, q: Selection): (r: seq<Row>)
    ensures IsSubseq(r, rows)
    ensures forall row :: row in r <==> row in rows && Matches(row, q)
    ensures forall row :: Matches(row, q) ==> multiset(r)[row] == multiset(rows)[row]
    ensures forall row :: !Matches(row, q) ==> multiset(r)[row] == 0
    ensures q == AllSelected ==> r == rows
  {
    QueryIsFilter(rows, q);
    FilterSubseq(rows, MatchTest(q));
    forall row ensures
      && (row in Filter(rows, MatchTest(q)) <==> row in rows && Matches(row, q))
      && (Matches(row, q) ==> multiset(Filter(rows, MatchTest(q)))[row] == multiset(rows)[row])
      && (!Matches(row, q) ==> multiset(Filter(rows, MatchTest(q)))[row] == 0)
    {
      FilterMember(rows, MatchTest(q), row);
      FilterCount(rows, MatchTest(q), row);
    }
    ByEquipment(ByCategory(BySystem(rows, q.sys), q.cat), q.eq)
  }

  /** Showing the same selection again over its own result changes nothing. */
  lemma QueryIdempotent(rows: seq<Row>, q: Selection)
    ensures Query(Query(rows, q), q) == Query(rows, q)
  {
    QueryIsFilter(rows, q);
    QueryIsFilter(Query(rows, q), q);
    FilterIdempotent(rows, MatchTest(q));
  }
}
