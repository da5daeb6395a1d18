/** The table the host passes to `update`: columns tagged with roles and
    rows of raw cells, with the two lookups `update` performs on it,
    `getIndexByRole` and `findRowByScenario`. */
module DataTable {
  import opened Wrappers
  import opened Cells
  import JsString
  import Sequences

  /** A column with the set of data roles it carries ("scenario",
      "value", "compareTo", ...). */
  datatype Column = Column(roles: set<string>)

  type Row = seq<Cell>

  datatype Table = Table(columns: seq<Column>, rows: seq<Row>)

  /** `getIndexByRole`: the first column carrying `role`, or -1. */
  function IndexByRole(columns: seq<Column>, role: string): (i: int)
    ensures -1 <= i < |columns|
    ensures i == -1 <==> forall k :: 0 <= k < |columns| ==> role !in columns[k].roles
    ensures i >= 0 ==> role in columns[i].roles
    ensures forall k :: 0 <= k < i ==> role !in columns[k].roles
  {
    if columns == [] then -1
    else if role in columns[0].roles then 0
    else
      var j := IndexByRole(columns[1..], role);
      if j == -1 then -1 else j + 1
  }

  /** `row[i]`: a position past the end of the row reads as undefined. */
  function CellAt(row: Row, i: nat): (c: Cell)
    ensures i >= |row| ==> c == Undefined
  {
    if i < |row| then row[i] else Undefined
  }

  /** The normal form both sides of a scenario match are brought to:
      trimmed, then lower-cased. */
  function ScenarioKey(s: string): string {
    JsString.ToLower(JsString.Trim(s))
  }

  /** A scenario cell matches `key` when it is neither null nor undefined
      and its string form has that normal form. */
  predicate ScenarioMatches(cell: Cell, key: string) {
    !cell.Null? && !cell.Undefined? && ScenarioKey(ToJsString(cell)) == key
  }

  /** Whether a row's cell in column `col` matches `key`. */
  function RowMatches(col: nat, key: string): Row -> bool {
    (row: Row) => ScenarioMatches(CellAt(row, col), key)
  }

  /** The first row at or after `from` whose cell in column `col` matches `key`. */
  function FirstMatch(rows: seq<Row>, col: nat, key: string, from: nat): (r: Option<nat>)
    requires from <= |rows|
    ensures r.Some? ==> from <= r.value < |rows| && ScenarioMatches(CellAt(rows[r.value], col), key)
    ensures r.Some? ==> forall k :: from <= k < r.value ==> !ScenarioMatches(CellAt(rows[k], col), key)
    ensures r.None? ==> forall k :: from <= k < |rows| ==> !ScenarioMatches(CellAt(rows[k], col), key)
  {
    Sequences.FirstIndex(RowMatches(col, key), rows, from)
  }

  /** `findRowByScenario`: the index of the first row whose scenario cell
      matches the name, comparing trimmed, lower-cased forms; `None` when
      the name is empty, the scenario column is missing (-1) or no row
      matches. */
  function FindRowByScenario(rows: seq<Row>, idxScenario: int, scenarioName: string): (r: Option<nat>)
    ensures scenarioName == [] || idxScenario < 0 ==> r.None?
    ensures r.Some? ==> r.value < |rows|
    ensures r.Some? ==> ScenarioMatches(CellAt(rows[r.value], idxScenario), ScenarioKey(scenarioName))
    ensures r.Some? ==> forall k :: 0 <= k < r.value ==>
      !ScenarioMatches(CellAt(rows[k], idxScenario), ScenarioKey(scenarioName))
    ensures r.None? && scenarioName != [] && idxScenario >= 0 ==> forall k :: 0 <= k < |rows| ==>
      !ScenarioMatches(CellAt(rows[k], idxScenario), ScenarioKey(scenarioName))
  {
    if scenarioName == [] || idxScenario < 0 then None
    else FirstMatch(rows, idxScenario, ScenarioKey(scenarioName), 0)
  }

  /** Two names with the same non-empty normal form find the same row.
      (A name of whitespace only is not empty, so it looks for the key ""
      and finds a blank scenario cell; `update` trims names first.) */
  lemma SameKeySameRow(rows: seq<Row>, col: int, a: string, b: string)
    requires ScenarioKey(a) == ScenarioKey(b) != []
    ensures FindRowByScenario(rows, col, a) == FindRowByScenario(rows, col, b)
  {
    assert |ScenarioKey(a)| == |JsString.Trim(a)| && |ScenarioKey(b)| == |JsString.Trim(b)|;
    JsString.TrimEmptyIff(a);
    JsString.TrimEmptyIff(b);
  }

  /** Matching ignores surrounding whitespace and ASCII case: a name such
      as " Revenue " (whitespace around a name that differs from `b` only
      in ASCII case) finds the same row as `b`. */
  lemma CaseAndSpaceInsensitive(rows: seq<Row>, col: int, w1: string, a: string, w2: string, b: string)
    requires JsString.AllWhiteSpace(w1) && JsString.AllWhiteSpace(w2)
    requires JsString.IsTrimmed(a) && JsString.IsTrimmed(b) && JsString.ToLower(a) == JsString.ToLower(b)
    requires b != []
    ensures FindRowByScenario(rows, col, w1 + a + w2) == FindRowByScenario(rows, col, b)
  {
    JsString.TrimPadding(w1, a, w2);
    JsString.TrimUnchanged(a);
    JsString.TrimUnchanged(b);
    SameKeySameRow(rows, col, w1 + a + w2, b);
  }

  /** The name " Revenue " finds the row whose scenario cell is "revenue". */
  lemma RevenueExample(rows: seq<Row>)
    requires rows == [[Text("revenue")]]
    ensures FindRowByScenario(rows, 0, " Revenue ") == Some(0)
  {
    RevenuePadded(rows);
    RevenueItself(rows);
  }

  lemma RevenuePadded(rows: seq<Row>)
    ensures FindRowByScenario(rows, 0, " Revenue ") == FindRowByScenario(rows, 0, "revenue")
  {
    assert " " + "Revenue" + " " == " Revenue ";
    assert JsString.AllWhiteSpace(" ") && JsString.IsTrimmed("Revenue") && JsString.IsTrimmed("revenue");
    assert JsString.ToLower("Revenue") == JsString.ToLower("revenue") by {
      assert JsString.ToLower("Revenue")[0] == 'r';
    }
    CaseAndSpaceInsensitive(rows, 0, " ", "Revenue", " ", "revenue");
  }

  lemma RevenueItself(rows: seq<Row>)
    requires rows == [[Text("revenue")]]
    ensures FindRowByScenario(rows, 0, "revenue") == Some(0)
  {
    assert ScenarioMatches(CellAt(rows[0], 0), ScenarioKey("revenue"));
  }

  /** Null and undefined scenario cells never match, whatever the key. */
  lemma MissingCellNeverMatches(key: string)
    ensures !ScenarioMatches(Null, key) && !ScenarioMatches(Undefined, key)
  {
  }
}
