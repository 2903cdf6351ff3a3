/** The allowlist behind the JSON-to-DSL translator: table name -> allowed
    column names, loaded from a configuration list, and the check that a
    table and a list of columns are all allowed. */
module DslValidator {
  import opened Wrappers
  import Maps

  /** One configuration entry: a "name" and its "columns"; `None` when the
      entry has no "columns", which the constructor stores as null. */
  datatype TableEntry = TableEntry(name: string, columns: Option<seq<string>>)

  type AllowedTables = map<string, Option<seq<string>>>

  /** `NullColumnList` is the `NullPointerException` thrown by `contains`
      on the null list of a table configured without "columns". */
  datatype DslError =
    | TableNotAllowed(table: string)
    | ColumnNotAllowed(column: string, table: string)
    | NullColumnList(table: string)

  /** The table has a column list and the column is on it. */
  predicate Listed(allowed: AllowedTables, table: string, column: string)
    requires table in allowed
  {
    allowed[table].Some? && column in allowed[table].value
  }

  function Pairs(cfg: seq<TableEntry>): (r: seq<(string, Option<seq<string>>)>)
    ensures |r| == |cfg|
    ensures forall i :: 0 <= i < |r| ==> r[i] == (cfg[i].name, cfg[i].columns)
  {
    seq(|cfg|, i requires 0 <= i < |cfg| => (cfg[i].name, cfg[i].columns))
  }

  /** No later entry configures the same table again. */
  predicate LastEntryFor(cfg: seq<TableEntry>, i: int)
    requires 0 <= i < |cfg|
  {
    forall j :: i < j < |cfg| ==> cfg[j].name != cfg[i].name
  }

  /** The constructor: `put` each entry's name and columns in order, so a
      table configured twice keeps its last column list. */
  function Load(cfg: seq<TableEntry>): (r: AllowedTables)
    ensures r.Keys == set i | 0 <= i < |cfg| :: cfg[i].name
    ensures forall i :: 0 <= i < |cfg| && LastEntryFor(cfg, i) ==> r[cfg[i].name] == cfg[i].columns
  {
    var kvs := Pairs(cfg);
    var r := Maps.PutAll(map[], kvs);
    assert Maps.KeysOf(kvs) == set i | 0 <= i < |cfg| :: cfg[i].name;
    assert forall i :: 0 <= i < |cfg| && LastEntryFor(cfg, i) ==> Maps.LastFor(kvs, i);
    r
  }

  /** `validateTableAndColumns`: an unknown table fails first; a table
      without a column list fails on its first column, and passes an empty
      list; otherwise the columns are checked in order and the first one
      missing from the table's list fails, naming itself and the table. */
  method ValidateTableAndColumns(allowed: AllowedTables, table: string, columns: seq<string>)
    returns (r: Outcome<DslError>)
    ensures r.Pass? <==> table in allowed && forall i :: 0 <= i < |columns| ==> Listed(allowed, table, columns[i])
    ensures r == Fail(TableNotAllowed(table)) <==> table !in allowed
    ensures r == Fail(NullColumnList(table)) <==> table in allowed && allowed[table].None? && |columns| > 0
    ensures r.Fail? && table in allowed && allowed[table].Some? ==>
      exists i :: 0 <= i < |columns| && r.error == ColumnNotAllowed(columns[i], table)
        && columns[i] !in allowed[table].value
        && forall j :: 0 <= j < i ==> columns[j] in allowed[table].value
    ensures r == Check(allowed, table, columns)
  {
    if table !in allowed {
      return Fail(TableNotAllowed(table));
    }
    var allowedColumns := allowed[table];
    var i := 0;
    while i < |columns|
      invariant 0 <= i <= |columns|
      invariant forall j :: 0 <= j < i ==> Listed(allowed, table, columns[j])
      invariant Check(allowed, table, columns) == Check(allowed, table, columns[i..])
    {
      assert columns[i..][1..] == columns[i + 1..];
      if allowedColumns.None? {
        return Fail(NullColumnList(table));
      }
      if columns[i] !in allowedColumns.value {
        return Fail(ColumnNotAllowed(columns[i], table));
      }
      i := i + 1;
    }
    return Pass;
  }

  /** The verdict as a value, for use in specifications: the same answer as
      `ValidateTableAndColumns`. */
  function Check(allowed: AllowedTables, table: string, columns: seq<string>): (r: Outcome<DslError>)
    ensures r.Pass? <==> table in allowed && forall i :: 0 <= i < |columns| ==> Listed(allowed, table, columns[i])
    ensures r == Fail(TableNotAllowed(table)) <==> table !in allowed
    ensures r == Fail(NullColumnList(table)) <==> table in allowed && allowed[table].None? && |columns| > 0
    decreases |columns|
  {
    if table !in allowed then Fail(TableNotAllowed(table))
    else if |columns| == 0 then Pass
    else if allowed[table].None? then
      assert !Listed(allowed, table, columns[0]);
      Fail(NullColumnList(table))
    else if columns[0] !in allowed[table].value then Fail(ColumnNotAllowed(columns[0], table))
    else Check(allowed, table, columns[1..])
  }

  /** Checking a list of columns is checking each of them: the verdict on
      `a + b` passes exactly when both halves pass. */
  lemma CheckAppend(allowed: AllowedTables, table: string, a: seq<string>, b: seq<string>)
    ensures Check(allowed, table, a + b).Pass?
        <==> Check(allowed, table, a).Pass? && Check(allowed, table, b).Pass?
  {
    if table in allowed {
      assert forall i :: 0 <= i < |a| ==> (a + b)[i] == a[i];
      assert forall i :: 0 <= i < |b| ==> (a + b)[|a| + i] == b[i];
    }
  }
}
