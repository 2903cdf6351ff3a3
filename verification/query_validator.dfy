/** The alias-aware column check of the search API: every requested column
    must be written `alias.column`, the alias must name the FROM table or one
    of the joined tables, and the column must be configured for that table. */
module QueryValidator {
  import opened Wrappers
  import opened Text
  import Maps

  /** table -> its configured column names. */
  type TableColumns = map<string, set<string>>

  /** A join entry; only its "table" value (`"table"` or `"table alias"`) is
      read here. */
  datatype JoinSpec = JoinSpec(table: string)

  /** The request's "from", "joins" (possibly absent) and "_source" values. */
  datatype SearchRequest = SearchRequest(from: string, joins: Option<seq<JoinSpec>>, source: seq<string>)

  /** A table reference that is non-empty white space splits into nothing,
      and taking its first piece fails. */
  datatype ValidationError = EmptyTableReference(reference: string)

  // ---------------------------------------------------------------------------
  // Table references and the alias map

  /** The (alias, table) entry a table reference contributes: the first
      white-space separated piece is the table, the second (if any) is the
      alias, and the table stands for itself when there is no alias. */
  function AliasEntry(ref: string): (r: Result<(string, string), ValidationError>)
    ensures r.Err? <==> |ref| > 0 && AllSpace(ref)
    ensures r.Err? ==> r.error == EmptyTableReference(ref)
  {
    var parts := SplitWhitespace(ref);
    SplitWhitespaceEmptyIff(ref);
    if |parts| == 0 then Err(EmptyTableReference(ref))
    else Ok((if |parts| > 1 then parts[1] else parts[0], parts[0]))
  }

  /** A bare table name is its own alias. */
  lemma BareTableIsOwnAlias(table: string)
    requires !HasSpace(table)
    ensures AliasEntry(table) == Ok((table, table))
  {
  }

  /** `"table alias"` maps the alias to the table; white space after the
      alias, and any further words, are ignored. */
  lemma AliasedTable(table: string, sp: string, alias: string, rest: string)
    requires |table| > 0 && !HasSpace(table)
    requires |sp| > 0 && AllSpace(sp)
    requires |alias| > 0 && !HasSpace(alias)
    requires |rest| == 0 || IsSpace(rest[0])
    ensures AliasEntry(table + sp + alias + rest) == Ok((alias, table))
  {
    SplitWhitespaceTwoWords(table, sp, alias, rest);
  }

  /** The table references of a request in the order they are put into the
      map: FROM first, then each join. */
  function References(req: SearchRequest): (r: seq<string>)
    ensures |r| >= 1 && r[0] == req.from
    ensures req.joins.None? ==> |r| == 1
    ensures req.joins.Some? ==>
      |r| == 1 + |req.joins.value| && forall i :: 0 <= i < |req.joins.value| ==> r[i + 1] == req.joins.value[i].table
  {
    [req.from] + match req.joins
      case None => []
      case Some(js) => seq(|js|, i requires 0 <= i < |js| => js[i].table)
  }

  /** Every reference yields an entry. */
  predicate AllResolve(refs: seq<string>)
  {
    forall i :: 0 <= i < |refs| ==> AliasEntry(refs[i]).Ok?
  }

  /** The entries of references that all resolve, in order. */
  function Entries(refs: seq<string>): (r: seq<(string, string)>)
    requires AllResolve(refs)
    ensures |r| == |refs|
    ensures forall i :: 0 <= i < |r| ==> AliasEntry(refs[i]) == Ok(r[i])
  {
    seq(|refs|, i requires 0 <= i < |refs| => AliasEntry(refs[i]).value)
  }

  /** The map after `put`ting the entries of the first `n` references. */
  function AliasesAfter(refs: seq<string>, n: nat): map<string, string>
    requires n <= |refs| && AllResolve(refs[..n])
  {
    Maps.PutAll(map[], Entries(refs[..n]))
  }

  lemma AliasesAfterStep(refs: seq<string>, n: nat)
    requires n < |refs| && AllResolve(refs[..n]) && AliasEntry(refs[n]).Ok?
    ensures AllResolve(refs[..n + 1])
    ensures AliasesAfter(refs, n + 1)
         == AliasesAfter(refs, n)[AliasEntry(refs[n]).value.0 := AliasEntry(refs[n]).value.1]
  {
    var e := AliasEntry(refs[n]).value;
    var pre := refs[..n];
    var all := refs[..n + 1];
    assert AllResolve(all) by {
      forall i | 0 <= i < |all| ensures AliasEntry(all[i]).Ok? {
        if i < n {
          assert all[i] == pre[i];
        }
      }
    }
    var es := Entries(all);
    var ps := Entries(pre);
    assert es == ps + [e] by {
      forall i | 0 <= i < |es| ensures es[i] == (ps + [e])[i] {
        if i < n {
          assert all[i] == pre[i];
        }
      }
    }
    Maps.PutAllSnoc(map[], ps, e.0, e.1);
  }

  /** `buildAliasToTableMap`: `put` the FROM entry, then each join's entry,
      so that a later reference reusing an alias wins. The first reference
      that is non-empty white space aborts the build. */
  method BuildAliasToTableMap(req: SearchRequest) returns (r: Result<map<string, string>, ValidationError>)
    ensures r.Ok? <==> AllResolve(References(req))
    ensures r.Err? ==> exists i :: 0 <= i < |References(req)| && r.error == EmptyTableReference(References(req)[i])
    ensures r.Ok? ==> r.value == Maps.PutAll(map[], Entries(References(req)))
  {
    var refs := References(req);
    var m: map<string, string> := map[];
    var i := 0;
    while i < |refs|
      invariant 0 <= i <= |refs|
      invariant AllResolve(refs[..i])
      invariant m == AliasesAfter(refs, i)
    {
      var e := AliasEntry(refs[i]);
      if e.Err? {
        return Err(e.error);
      }
      AliasesAfterStep(refs, i);
      m := m[e.value.0 := e.value.1];
      i := i + 1;
    }
    assert refs[..i] == refs;
    return Ok(m);
  }

  // ---------------------------------------------------------------------------
  // Requested columns

  /** `column.split("\\.")` when it has exactly two parts: the alias and the
      column name. */
  function ColumnReference(column: string): (r: Option<(string, string)>)
    ensures r.Some? ==>
      && '.' !in r.value.0 && '.' !in r.value.1 && r.value.1 != ""
      && |r.value.0| + |r.value.1| + 1 <= |column|
      && column == r.value.0 + "." + r.value.1 + Repeat('.', |column| - |r.value.0| - |r.value.1| - 1)
  {
    var parts := SplitOn(column, '.');
    if |parts| == 2 then
      SplitTwoShape(column, '.');
      Some((parts[0], parts[1]))
    else None
  }

  /** Conversely every `alias.column` (with a dot-free alias and a non-empty,
      dot-free column name), followed by any number of dots, is recognised. */
  lemma ColumnReferenceOf(alias: string, name: string, dots: nat)
    requires '.' !in alias && '.' !in name && name != ""
    ensures ColumnReference(alias + "." + name + Repeat('.', dots)) == Some((alias, name))
  {
    SplitIntoTwo(alias, name, '.', dots);
  }

  /** One requested column passes: it has the two-part form, its alias is
      mapped, the mapped table is configured, and lists the column. */
  predicate ColumnAllowed(tables: TableColumns, aliases: map<string, string>, column: string)
  {
    match ColumnReference(column)
    case None => false
    case Some((alias, name)) =>
      alias in aliases && aliases[alias] in tables && name in tables[aliases[alias]]
  }

  /** The column test in the terms of the source's loop: split on dots,
      require two parts, look the alias up, then the table, then the
      column. */
  lemma ColumnAllowedBySplit(tables: TableColumns, aliases: map<string, string>, column: string)
    ensures var parts := SplitOn(column, '.');
      ColumnAllowed(tables, aliases, column) <==>
        && |parts| == 2
        && parts[0] in aliases
        && aliases[parts[0]] in tables
        && parts[1] in tables[aliases[parts[0]]]
  {
  }

  /** The column loop of `validateQuery`: true exactly when every requested
      column passes. */
  method ColumnsAllowed(tables: TableColumns, aliases: map<string, string>, source: seq<string>)
    returns (ok: bool)
    ensures ok <==> forall i :: 0 <= i < |source| ==> ColumnAllowed(tables, aliases, source[i])
  {
    var i := 0;
    while i < |source|
      invariant 0 <= i <= |source|
      invariant forall j :: 0 <= j < i ==> ColumnAllowed(tables, aliases, source[j])
    {
      var column := source[i];
      ColumnAllowedBySplit(tables, aliases, column);
      var parts := SplitOn(column, '.');
      if |parts| != 2 {
        return false;
      }
      var alias := parts[0];
      var name := parts[1];
      if alias !in aliases {
        return false;
      }
      var table := aliases[alias];
      if table !in tables || name !in tables[table] {
        return false;
      }
      i := i + 1;
    }
    return true;
  }

  /** `validateQuery`: build the alias map (which may fail), then check the
      requested columns in order, answering false at the first that does
      not pass. */
  method ValidateQuery(tables: TableColumns, req: SearchRequest) returns (r: Result<bool, ValidationError>)
    ensures r.Ok? <==> AllResolve(References(req))
    ensures r.Ok? ==> (r.value <==>
      var aliases := Maps.PutAll(map[], Entries(References(req)));
      forall i :: 0 <= i < |req.source| ==> ColumnAllowed(tables, aliases, req.source[i]))
  {
    var built := BuildAliasToTableMap(req);
    if built.Err? {
      return Err(built.error);
    }
    var ok := ColumnsAllowed(tables, built.value, req.source);
    return Ok(ok);
  }

  /** Requesting no columns accepts any request whose references resolve,
      whatever the configuration: the FROM table itself is never checked. */
  method EmptySourceAccepted(tables: TableColumns, req: SearchRequest) returns (r: Result<bool, ValidationError>)
    requires req.source == []
    ensures AllResolve(References(req)) ==> r == Ok(true)
  {
    r := ValidateQuery(tables, req);
  }

  /** `"orders o"` names the table orders under the alias `o` ... */
  lemma ExampleFromAlias()
    ensures AliasEntry("orders o") == Ok(("o", "orders"))
  {
    assert !HasSpace("orders") && !HasSpace("o") && AllSpace(" ");
    assert "orders o" == "orders" + " " + "o" + "";
    AliasedTable("orders", " ", "o", "");
  }

  /** ... a tab separates as well as a space, and words after the alias are
      ignored: `"customers<TAB>c x"` names customers under `c` ... */
  lemma ExampleJoinAlias()
    ensures AliasEntry("customers\tc x") == Ok(("c", "customers"))
  {
    assert !HasSpace("customers") && !HasSpace("c") && AllSpace("\t");
    assert IsSpace(" x"[0]);
    assert "customers\tc x" == "customers" + "\t" + "c" + " x";
    AliasedTable("customers", "\t", "c", " x");
  }

  /** ... and a join without an alias is known by its table name. */
  lemma ExampleBareJoin()
    ensures AliasEntry("items") == Ok(("items", "items"))
  {
    BareTableIsOwnAlias("items");
  }

  /** The configuration of the column examples: `o` names orders and `c`
      names customers. */
  const ExampleAliases: map<string, string> := map["o" := "orders", "c" := "customers"]
  const ExampleTables: TableColumns := map["orders" := {"id", "total"}, "customers" := {"id", "name"}]

  /** `o.total` and `c.name` pass ... */
  lemma ExampleColumnsPass()
    ensures ColumnAllowed(ExampleTables, ExampleAliases, "o.total")
    ensures ColumnAllowed(ExampleTables, ExampleAliases, "c.name")
  {
    ColumnReferenceOf("o", "total", 0);
    assert "o.total" == "o" + "." + "total" + Repeat('.', 0);
    ColumnReferenceOf("c", "name", 0);
    assert "c.name" == "c" + "." + "name" + Repeat('.', 0);
  }

  /** ... while a column of the wrong table fails, ... */
  lemma ExampleWrongTable()
    ensures !ColumnAllowed(ExampleTables, ExampleAliases, "o.name")
  {
    ColumnReferenceOf("o", "name", 0);
    assert "o.name" == "o" + "." + "name" + Repeat('.', 0);
  }

  /** ... so does an alias the request does not define, ... */
  lemma ExampleUnknownAlias()
    ensures !ColumnAllowed(ExampleTables, ExampleAliases, "x.id")
  {
    ColumnReferenceOf("x", "id", 0);
    assert "x.id" == "x" + "." + "id" + Repeat('.', 0);
  }

  /** ... and a column without an alias. */
  lemma ExampleNoAlias()
    ensures !ColumnAllowed(ExampleTables, ExampleAliases, "total")
  {
    assert '.' !in "total";
  }
}
