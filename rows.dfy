/**
 * Spreadsheet rows as the cleaners see them: a mapping from column name to
 * cell, where a cell is a string or Python's `None` (a short CSV line leaves
 * the trailing columns `None`).
 */
module Rows {
  import opened Wrappers

  type Cell = Option<string>

  type Row = map<string, Cell>

  /** Python truthiness of a cell: present and non-empty. */
  predicate Truthy(c: Cell) {
    c.Some? && c.value != ""
  }

  /** `line.get(col)`. */
  function Get(line: Row, col: string): Cell {
    if col in line then line[col] else None
  }

  /**
   * `get_variably_named_val`: the value under the first alias whose value
   * is truthy, or `None` when there is none.
   */
  function GetVariablyNamedVal(alts: seq<string>, line: Row): (r: Cell)
    ensures r.None? <==> forall k :: 0 <= k < |alts| ==> !Truthy(Get(line, alts[k]))
    ensures r.Some? ==> Truthy(r) && exists k :: 0 <= k < |alts| && Get(line, alts[k]) == r
                                       && forall j :: 0 <= j < k ==> !Truthy(Get(line, alts[j]))
    decreases |alts|
  {
    if alts == [] then None
    else if Truthy(Get(line, alts[0])) then Get(line, alts[0])
    else
      var r := GetVariablyNamedVal(alts[1..], line);
      assert forall k :: 0 < k < |alts| ==> alts[k] == alts[1..][k - 1];
      r
  }

  /** Setting a column that is not an alias does not change what is found. */
  lemma {:induction false} VariablyNamedIgnores(alts: seq<string>, line: Row, col: string, v: Cell)
    requires col !in alts
    ensures GetVariablyNamedVal(alts, line[col := v]) == GetVariablyNamedVal(alts, line)
    decreases |alts|
  {
    if alts != [] {
      VariablyNamedIgnores(alts[1..], line, col, v);
    }
  }
}
