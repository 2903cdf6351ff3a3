/** The allowlist oracle: which tables, plain columns and JSONB field
    expressions a query may mention. The allowlist is loaded once from
    configuration and only read afterwards; here it is an immutable value and
    every query below is a pure function of it. */
module QueryConfig {

  /** table -> ("columns" | "jsonb" | any other key) -> list of allowed names.
      A table's entry may lack either list. */
  type Allowlist = map<string, map<string, seq<string>>>

  const ColumnsKey: string := "columns"
  const JsonbKey: string := "jsonb"

  /** The names listed under `key` for `table`, or none when the key is absent. */
  function Listed(cfg: Allowlist, table: string, key: string): (r: seq<string>)
    requires table in cfg
    ensures key !in cfg[table] ==> r == []
  {
    if key in cfg[table] then cfg[table][key] else []
  }

  /** `isTableAllowed`: the table is a key of the allowlist. */
  function IsTableAllowed(cfg: Allowlist, table: string): (r: bool)
    ensures r <==> table in cfg.Keys
  {
    table in cfg
  }

  /** `isColumnAllowed`. The source dereferences the table's entry without a
      null check, so the table must be present; a missing "columns" list
      answers false rather than failing. */
  function IsColumnAllowed(cfg: Allowlist, table: string, column: string): (r: bool)
    requires table in cfg
    ensures r <==> ColumnsKey in cfg[table] && exists i :: 0 <= i < |cfg[table][ColumnsKey]| && cfg[table][ColumnsKey][i] == column
  {
    ColumnsKey in cfg[table] && column in cfg[table][ColumnsKey]
  }

  /** `isJsonbFieldAllowed`: the same test against the "jsonb" list. */
  function IsJsonbFieldAllowed(cfg: Allowlist, table: string, field: string): (r: bool)
    requires table in cfg
    ensures r <==> JsonbKey in cfg[table] && exists i :: 0 <= i < |cfg[table][JsonbKey]| && cfg[table][JsonbKey][i] == field
  {
    JsonbKey in cfg[table] && field in cfg[table][JsonbKey]
  }

  /** Both list lookups agree with `Listed`, so a missing key behaves like an
      empty list. */
  lemma MissingListAllowsNothing(cfg: Allowlist, table: string, name: string)
    requires table in cfg
    ensures IsColumnAllowed(cfg, table, name) <==> name in Listed(cfg, table, ColumnsKey)
    ensures IsJsonbFieldAllowed(cfg, table, name) <==> name in Listed(cfg, table, JsonbKey)
  {
  }

  /** The two lists are independent: rewriting a table's "jsonb" list never
      changes a column verdict, and rewriting its "columns" list never
      changes a JSONB verdict. */
  lemma ListsIndependent(cfg: Allowlist, table: string, name: string, newList: seq<string>)
    requires table in cfg
    ensures var jsonbEdited := cfg[table := cfg[table][JsonbKey := newList]];
      IsColumnAllowed(jsonbEdited, table, name) == IsColumnAllowed(cfg, table, name)
    ensures var columnsEdited := cfg[table := cfg[table][ColumnsKey := newList]];
      IsJsonbFieldAllowed(columnsEdited, table, name) == IsJsonbFieldAllowed(cfg, table, name)
  {
    assert ColumnsKey != JsonbKey;
  }
}
