/**
 * `clean_2023_data.py`: the helpers that clean one row of the 2023 combined
 * sheet and merge the rows that describe the same bird.
 */
module Merge {
  import opened Wrappers
  import opened Text
  import opened Rows
  import opened Address
  import opened Bird

  const DateCol: string := "Date Jotform (MMDDYYYY)"

  /** Lines 6-9: the columns each cleaned value is drawn from, in order of preference. */
  const AddressCols: seq<string> := ["Chinatown Route: Closest Address", "Union Route: Closest Address",
    "Southwest: Closest Address", "NoMa: Closest Address", "Address, if not listed above",
    "patients.address_found (CW)", "Address (BL)"]
  const BirdCols: seq<string> := ["Bird Species, if known", "Other species not on list"]
  const CwCols: seq<string> := ["2023 CW ID = admissions.id", "CW Number (Jotform)"]

  /** The year prefix of a 2023 id (lines 17-18). */
  const Year: string := "23"

  /** The cleaned columns a row gains (lines 32-37). */
  const CleanedKeys: set<string> := {"date", "address", "species", "cw_id"}

  /** Why cleaning a row raises instead of returning. */
  datatype Failure =
    | KeyError(col: string)         // a column the row does not have
    | AttributeError(col: string)   // `None.strip()` or `None.split` on a short row's cell
    | AssertionError(cwid: string)  // line 17

  datatype Result<T> = Ok(value: T) | Err(failure: Failure)

  // ---------------------------------------------------------------- clean_cw_id

  /** Lines 12-18: `Ok(None)` for a blank id, else `23-` and the last dash-separated part. */
  function CleanCwId(cwid: string): (r: Result<Cell>)
    ensures r == Ok(None) <==> Strip(cwid) == []
    ensures r.Err? <==> Strip(cwid) != [] && |Split(Strip(cwid), "-")| == 2 && Split(Strip(cwid), "-")[0] != Year
    ensures r.Ok? && r.value.Some? ==> StartsWith(r.value.value, Year + "-") && '-' !in r.value.value[|Year| + 1..]
  {
    var s := Strip(cwid);
    if s == [] then Ok(None)
    else
      var parts := Split(s, "-");
      if |parts| == 2 && parts[0] != Year then Err(AssertionError(cwid))
      else
        var last := Last(parts);
        SplitPiecesAvoid(s, "-");
        ContainsChar(last, '-');
        assert (Year + "-" + last)[|Year| + 1..] == last;
        Ok(Some(Year + "-" + last))
  }

  /** The last piece of a split is a suffix of the string. */
  lemma {:induction false} SplitLastIsSuffix(s: string, sep: string)
    requires |sep| > 0
    ensures var l := Last(Split(s, sep)); |l| <= |s| && l == s[|s| - |l|..]
    decreases |s|
  {
    match IndexOf(s, sep)
    case None =>
    case Some(i) =>
      var rest := s[i + |sep|..];
      var tail := Split(rest, sep);
      SplitStep(s, sep, i);
      SplitLastIsSuffix(rest, sep);
      LastCons(s[..i], tail);
      SuffixOfSuffix(s, i + |sep|, |Last(tail)|);
  }

  function Last(parts: seq<string>): string
    requires |parts| > 0
  {
    parts[|parts| - 1]
  }

  lemma LastCons(p: string, parts: seq<string>)
    requires |parts| > 0
    ensures Last([p] + parts) == Last(parts)
  {
  }

  /** `clean_cw_id` once the id is known not to be blank or foreign. */
  lemma CleanCwIdOf(cwid: string, s: string, parts: seq<string>)
    requires s == Strip(cwid) && s != []
    requires parts == Split(s, "-")
    requires !(|parts| == 2 && parts[0] != Year)
    ensures CleanCwId(cwid) == Ok(Some(Year + "-" + Last(parts)))
  {
  }

  /** An id with no dash, surrounding blanks aside, gets the `23-` prefix. */
  lemma BareId(cwid: string)
    requires Strip(cwid) != [] && '-' !in Strip(cwid)
    ensures CleanCwId(cwid) == Ok(Some(Year + "-" + Strip(cwid)))
  {
    SplitAbsentChar(Strip(cwid), '-');
  }

  lemma YearShape()
    ensures |Year| == 2 && !IsSpace(Year[0]) && '-' !in Year
  {
  }

  /** An id already prefixed with `23-` comes back as it is. */
  lemma PrefixedId(x: string)
    requires '-' !in x && (x == [] || !IsSpace(x[|x| - 1]))
    ensures CleanCwId(Year + "-" + x) == Ok(Some(Year + "-" + x))
  {
    var s := Year + "-" + x;
    YearShape();
    assert s[0] == Year[0];
    assert IsStripped(s);
    StripStripped(s);
    SplitCharCons(Year, '-', x);
    SplitAbsentChar(x, '-');
    var parts := Split(s, "-");
    assert parts == [Year, x];
    CleanCwIdOf(s, s, parts);
  }

  /** Cleaning a cleaned id changes nothing. */
  lemma CleanCwIdIdempotent(cwid: string)
    requires CleanCwId(cwid).Ok? && CleanCwId(cwid).value.Some?
    ensures CleanCwId(CleanCwId(cwid).value.value) == CleanCwId(cwid)
  {
    var s := Strip(cwid);
    var parts := Split(s, "-");
    CleanCwIdOf(cwid, s, parts);
    LastPieceClean(s);
    PrefixedId(Last(parts));
  }

  /** The last `-` piece of a stripped id has no `-` and no trailing blank. */
  lemma LastPieceClean(s: string)
    requires IsStripped(s)
    ensures var l := Last(Split(s, "-")); '-' !in l && (l == [] || !IsSpace(l[|l| - 1]))
  {
    var l := Last(Split(s, "-"));
    SplitPiecesAvoid(s, "-");
    ContainsChar(l, '-');
    SplitLastIsSuffix(s, "-");
    if l != [] {
      assert l[|l| - 1] == s[|s| - 1];
    }
  }

  /** Line 17: a two-part id must be a 2023 id. */
  lemma ForeignIdFails(a: string, b: string)
    requires a != "23" && '-' !in a && '-' !in b && IsStripped(a + "-" + b) && a + "-" + b != []
    ensures CleanCwId(a + "-" + b) == Err(AssertionError(a + "-" + b))
  {
    var s := a + "-" + b;
    StripStripped(s);
    assert s == a + ['-'] + b;
    SplitCharCons(a, '-', b);
    SplitAbsentChar(b, '-');
  }

  // ---------------------------------------------------------------- coalese

  /** What `coalese` accepts: truthy and not `"Unknown"`. */
  predicate Informative(v: Cell) {
    Truthy(v) && v.value != "Unknown"
  }

  /** No value before `i` is informative. */
  predicate FirstInformative(values: seq<Cell>, i: nat) {
    forall j :: 0 <= j < i && j < |values| ==> !Informative(values[j])
  }

  /** Lines 21-24: the first informative value, or `None`. */
  function Coalese(values: seq<Cell>): (r: Cell)
    ensures r.None? <==> forall i :: 0 <= i < |values| ==> !Informative(values[i])
    ensures r.Some? ==> Informative(r)
    ensures r.Some? ==> exists i :: 0 <= i < |values| && values[i] == r && FirstInformative(values, i)
    decreases |values|
  {
    if values == [] then None
    else if Informative(values[0]) then values[0]
    else
      var r := Coalese(values[1..]);
      assert forall i :: 0 < i < |values| ==> values[i] == values[1..][i - 1];
      r
  }

  // ---------------------------------------------------------------- clean_row

  /**
   * What `clean_row` consults: its column lists and the cleaners. The date
   * cleaner `clean_date_value` is imported from `clean_data.py`, which does
   * not define it, so it is left a parameter.
   */
  datatype Config = Config(
    addrCols: seq<string>, birdCols: seq<string>, cwCols: seq<string>,
    date: Cell -> Cell, address: Cell -> string, bird: string -> string)

  function Repository(t: AddressTables, bt: BirdTables, date: Cell -> Cell): Config {
    Config(AddressCols, BirdCols, CwCols, date, a => CleanAddressWith(t, a), b => CleanBirdWith(bt, b))
  }

  /**
   * A list comprehension over `sheet[k] for k in cols`: the cells in order,
   * or the failure of the first column that is missing or whose cell `f`
   * refuses.
   */
  function MapCells(cols: seq<string>, sheet: Row, f: (string, Cell) -> Result<Cell>): (r: Result<seq<Cell>>)
    ensures r.Ok? ==> |r.value| == |cols|
    ensures r.Ok? ==> forall i :: 0 <= i < |cols| ==> cols[i] in sheet && f(cols[i], sheet[cols[i]]) == Ok(r.value[i])
    ensures r.Err? ==> exists i :: 0 <= i < |cols| && FailsAt(cols, sheet, f, i, r.failure)
    decreases |cols|
  {
    if cols == [] then Ok([])
    else if cols[0] !in sheet then
      assert FailsAt(cols, sheet, f, 0, KeyError(cols[0]));
      Err(KeyError(cols[0]))
    else match f(cols[0], sheet[cols[0]])
      case Err(e) =>
        assert FailsAt(cols, sheet, f, 0, e);
        Err(e)
      case Ok(v) =>
        match MapCells(cols[1..], sheet, f)
        case Err(e) =>
          var i :| 0 <= i < |cols[1..]| && FailsAt(cols[1..], sheet, f, i, e);
          FailsLater(cols, sheet, f, i, e);
          Err(e)
        case Ok(vs) => Ok([v] + vs)
  }

  /** Column `i` is the first one that fails, with `e`. */
  predicate FailsAt(cols: seq<string>, sheet: Row, f: (string, Cell) -> Result<Cell>, i: nat, e: Failure)
    requires i < |cols|
  {
    && (forall j :: 0 <= j < i ==> cols[j] in sheet && f(cols[j], sheet[cols[j]]).Ok?)
    && (if cols[i] in sheet then f(cols[i], sheet[cols[i]]) == Err(e) else e == KeyError(cols[i]))
  }

  lemma FailsLater(cols: seq<string>, sheet: Row, f: (string, Cell) -> Result<Cell>, i: nat, e: Failure)
    requires 0 <= i < |cols| - 1
    requires cols[0] in sheet && f(cols[0], sheet[cols[0]]).Ok?
    requires FailsAt(cols[1..], sheet, f, i, e)
    ensures FailsAt(cols, sheet, f, i + 1, e)
  {
    assert forall j :: 0 < j <= i + 1 ==> cols[j] == cols[1..][j - 1];
  }

  /** Line 29: every address cell cleaned. */
  function AddressCell(c: Config): (string, Cell) -> Result<Cell> {
    (k: string, v: Cell) => Ok(Some(c.address(v)))
  }

  /** Line 30: every species cell cleaned; a `None` cell has no `split`. */
  function BirdCell(c: Config): (string, Cell) -> Result<Cell> {
    (k: string, v: Cell) => if v.None? then Err(AttributeError(k)) else Ok(Some(c.bird(v.value)))
  }

  /** Line 31: every id cell cleaned; a `None` cell has no `strip`. */
  function CwIdCell(k: string, v: Cell): Result<Cell> {
    if v.None? then Err(AttributeError(k)) else CleanCwId(v.value)
  }

  /** Lines 28-37: the four cleaned cells, or the failure raised on the way. */
  function CleanedFields(c: Config, sheet: Row): (r: Result<Row>)
    ensures r.Ok? ==> r.value.Keys == CleanedKeys
    ensures r.Ok? ==> DateCol in sheet && r.value["date"] == c.date(sheet[DateCol])
    ensures r.Ok? ==> MapCells(c.addrCols, sheet, AddressCell(c)).Ok?
    ensures r.Ok? ==> r.value["address"] == Coalese(MapCells(c.addrCols, sheet, AddressCell(c)).value)
    ensures r.Ok? ==> MapCells(c.birdCols, sheet, BirdCell(c)).Ok?
    ensures r.Ok? ==> r.value["species"] == Coalese(MapCells(c.birdCols, sheet, BirdCell(c)).value)
    ensures r.Ok? ==> MapCells(c.cwCols, sheet, CwIdCell).Ok?
    ensures r.Ok? ==> r.value["cw_id"] == Coalese(MapCells(c.cwCols, sheet, CwIdCell).value)
    ensures r.Err? <==> DateCol !in sheet || MapCells(c.addrCols, sheet, AddressCell(c)).Err?
                        || MapCells(c.birdCols, sheet, BirdCell(c)).Err? || MapCells(c.cwCols, sheet, CwIdCell).Err?
  {
    if DateCol !in sheet then Err(KeyError(DateCol))
    else
      var date := c.date(sheet[DateCol]);
      match MapCells(c.addrCols, sheet, AddressCell(c))
      case Err(e) => Err(e)
      case Ok(addresses) =>
        match MapCells(c.birdCols, sheet, BirdCell(c))
        case Err(e) => Err(e)
        case Ok(birds) =>
          match MapCells(c.cwCols, sheet, CwIdCell)
          case Err(e) => Err(e)
          case Ok(ids) =>
            Ok(Fields(date, Coalese(addresses), Coalese(birds), Coalese(ids)))
  }

  /** The dictionary `cleaned` of lines 28-37. */
  function Fields(date: Cell, address: Cell, species: Cell, cwid: Cell): (r: Row)
    ensures r.Keys == CleanedKeys
    ensures r["date"] == date && r["address"] == address && r["species"] == species && r["cw_id"] == cwid
  {
    map["date" := date, "address" := address, "species" := species, "cw_id" := cwid]
  }

  /** `row.update(cleaned)` overwrites exactly the cleaned keys and keeps every other cell. */
  lemma UpdateOverwrites(sheet: Row, fields: Row)
    requires fields.Keys == CleanedKeys
    ensures forall k :: k in sheet + fields <==> k in sheet || k in CleanedKeys
    ensures forall k :: k in CleanedKeys ==> (sheet + fields)[k] == fields[k]
    ensures forall k :: k in sheet && k !in CleanedKeys ==> (sheet + fields)[k] == sheet[k]
  {
  }

  /** A spreadsheet row that `clean_row` updates in place. */
  class Record {
    var cells: Row

    constructor(cells: Row)
      ensures this.cells == cells
    {
      this.cells := cells;
    }

    /** Lines 27-39: on failure the row is left as it was, since the update comes last. */
    method CleanRow(c: Config) returns (failure: Option<Failure>)
      modifies this
      ensures CleanedFields(c, old(cells)).Err? ==>
        failure == Some(CleanedFields(c, old(cells)).failure) && cells == old(cells)
      ensures CleanedFields(c, old(cells)).Ok? ==>
        failure == None && cells == old(cells) + CleanedFields(c, old(cells)).value
    {
      match CleanedFields(c, cells)
      case Err(e) =>
        failure := Some(e);
      case Ok(fields) =>
        cells := cells + fields;
        failure := None;
    }
  }

  // ---------------------------------------------------------------- get_canonical_row

  /** The key has a truthy value in the row. */
  predicate FilledIn(sheet: Row, k: string) {
    k in sheet && Truthy(sheet[k])
  }

  /** Lines 50-53: the row without its empty cells. */
  function Filled(sheet: Row): (r: Row)
    ensures forall k :: k in r <==> FilledIn(sheet, k)
    ensures forall k :: k in r ==> k in sheet && r[k] == sheet[k]
  {
    map k | k in sheet && Truthy(sheet[k]) :: sheet[k]
  }

  /** Lines 48-55: each row's filled cells laid over those of the rows before it. */
  function Canonical(rows: seq<Row>): Row
    decreases |rows|
  {
    if rows == [] then map[] else Canonical(rows[..|rows| - 1]) + Filled(rows[|rows| - 1])
  }

  /** `get_canonical_row`. */
  method GetCanonicalRow(rows: seq<Row>) returns (best: Row)
    ensures best == Canonical(rows)
  {
    best := map[];
    var i := 0;
    while i < |rows|
      invariant 0 <= i <= |rows|
      invariant best == Canonical(rows[..i])
    {
      var row := rows[i];
      var rowCopy := row;
      var keys := row.Keys;
      while keys != {}
        invariant keys <= row.Keys
        invariant rowCopy == map k | k in row && (k in keys || Truthy(row[k])) :: row[k]
        decreases keys
      {
        var k :| k in keys;
        if !Truthy(row[k]) {
          rowCopy := rowCopy - {k};
        }
        keys := keys - {k};
      }
      assert rowCopy == Filled(row);
      assert rows[..i + 1][..i] == rows[..i];
      best := best + rowCopy;
      i := i + 1;
    }
    assert rows[..|rows|] == rows;
  }

  /** A key is in the canonical row exactly when some row fills it in. */
  lemma {:induction false} CanonicalKeys(rows: seq<Row>, k: string)
    ensures k in Canonical(rows) <==> exists i :: 0 <= i < |rows| && FilledIn(rows[i], k)
    decreases |rows|
  {
    if rows != [] {
      var init := rows[..|rows| - 1];
      CanonicalKeys(init, k);
      if exists i :: 0 <= i < |init| && FilledIn(init[i], k) {
        var i :| 0 <= i < |init| && FilledIn(init[i], k);
        assert rows[i] == init[i];
      }
      if exists i :: 0 <= i < |rows| && FilledIn(rows[i], k) {
        var i :| 0 <= i < |rows| && FilledIn(rows[i], k);
        if i < |init| {
          assert init[i] == rows[i];
        }
      }
    }
  }

  lemma CanonicalOfNone()
    ensures Canonical([]) == map[]
  {
  }

  /** One more row: its filled cells win, the others come from the rows before it. */
  lemma CanonicalStep(rows: seq<Row>, k: string)
    requires rows != []
    ensures var init, last := Canonical(rows[..|rows| - 1]), rows[|rows| - 1];
      && (FilledIn(last, k) ==> k in Canonical(rows) && Canonical(rows)[k] == last[k])
      && (!FilledIn(last, k) ==> (k in Canonical(rows) <==> k in init))
      && (!FilledIn(last, k) && k in init ==> Canonical(rows)[k] == init[k])
  {
  }

  /** The canonical value of a key is the one in the last row that fills it in. */
  lemma {:induction false} CanonicalIsLast(rows: seq<Row>, k: string)
    requires k in Canonical(rows)
    ensures exists i :: 0 <= i < |rows| && FilledIn(rows[i], k) && Canonical(rows)[k] == rows[i][k]
                        && forall j :: i < j < |rows| ==> !FilledIn(rows[j], k)
    decreases |rows|
  {
    CanonicalOfNone();
    var init := rows[..|rows| - 1];
    var n := |rows| - 1;
    CanonicalStep(rows, k);
    if FilledIn(rows[n], k) {
      assert FilledIn(rows[n], k) && Canonical(rows)[k] == rows[n][k];
    } else {
      CanonicalIsLast(init, k);
      var i :| 0 <= i < |init| && FilledIn(init[i], k) && Canonical(init)[k] == init[i][k]
                && forall j :: i < j < |init| ==> !FilledIn(init[j], k);
      assert rows[i] == init[i];
      assert forall j :: i < j < n ==> rows[j] == init[j];
    }
  }

  /** The canonical row holds no empty values. */
  lemma {:induction false} CanonicalFilled(rows: seq<Row>)
    ensures forall k :: k in Canonical(rows) ==> Truthy(Canonical(rows)[k])
    decreases |rows|
  {
    if rows != [] {
      CanonicalFilled(rows[..|rows| - 1]);
    }
  }
}
