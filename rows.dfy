/** A parsed CSV row as the ingest script sees it: a JavaScript object whose
    own keys are the header names, in header order, each mapped to the
    string found in that column. */
module Rows {

  datatype Option<T> = None | Some(value: T)

  datatype Cell = Cell(key: string, value: string)

  /** The row's cells in `Object.keys` order. */
  type Row = seq<Cell>

  function Keys(row: Row): seq<string> {
    seq(|row|, i requires 0 <= i < |row| => row[i].key)
  }

  /** An object never has two own properties with the same name. */
  predicate DistinctKeys(row: Row) {
    forall i, j :: 0 <= i < j < |row| ==> row[i].key != row[j].key
  }

  /** `r[key]`: the value stored under `key`, or `undefined`. */
  function Get(row: Row, key: string): Option<string> {
    if row == [] then None
    else if row[0].key == key then Some(row[0].value) else Get(row[1..], key)
  }

  /** `r[key]` is `undefined` exactly when `key` is not a key of the row,
      and otherwise the value of a cell carrying `key`. */
  lemma {:induction false} GetSpec(row: Row, key: string)
    ensures Get(row, key).None? <==> key !in Keys(row)
    ensures Get(row, key).Some? ==> Cell(key, Get(row, key).value) in row
  {
    if row != [] {
      assert Keys(row) == [row[0].key] + Keys(row[1..]);
      GetSpec(row[1..], key);
    }
  }

  /** With distinct keys, `r[key]` is the value of the one cell carrying `key`. */
  lemma GetFindsCell(row: Row, key: string, value: string)
    requires DistinctKeys(row)
    ensures Get(row, key) == Some(value) <==> Cell(key, value) in row
  {
    GetSpec(row, key);
    if Cell(key, value) in row {
      var i :| 0 <= i < |row| && row[i] == Cell(key, value);
      var v := Get(row, key);
      assert key in Keys(row) by { assert Keys(row)[i] == key; }
      var j :| 0 <= j < |row| && row[j] == Cell(key, v.value);
      assert i == j;
    }
  }

  /** JavaScript's `x || y` where `x` is a string or `undefined`: `x` when it
      is a non-empty string, `y` otherwise. */
  function OrElse(x: Option<string>, y: string): (r: string)
    ensures r == y || x == Some(r)
    ensures r == "" <==> (x.None? || x.value == "") && y == ""
  {
    if x.Some? && x.value != "" then x.value else y
  }

  /** `x || y` where both are strings or `undefined`. */
  function Or(x: Option<string>, y: Option<string>): Option<string> {
    if x.Some? && x.value != "" then x else y
  }

  /** `||` groups to the left, so `a || b || ""` is `(a || b) || ""`; it is
      the same as `a || (b || "")`, the form the model uses. */
  lemma OrElseGrouping(x: Option<string>, y: Option<string>, z: string)
    ensures OrElse(Or(x, y), z) == OrElse(x, OrElse(y, z))
  {
  }
}
