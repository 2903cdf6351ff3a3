/** The JSON-to-SQL builder of the PostgreSQL query path: table check,
    SELECT/FROM, WHERE conditions joined by AND with quoted values, ORDER BY,
    and LIMIT/OFFSET with defaults, followed by validation of the finished
    query. */
module QueryTranslator {
  import opened Wrappers
  import opened Text
  import QueryConfig
  import CustomListener

  /** Java's `int`. */
  type Int32 = x: int | -0x8000_0000 <= x < 0x8000_0000

  /** A condition's "operator" and "value"; a missing one is `None` and
      is appended as "null". The value is kept in its string rendering. */
  datatype ConditionDetails = ConditionDetails(operator: Option<string>, value: Option<string>)

  datatype Sort = Sort(field: Option<string>, order: Option<string>)

  datatype Pagination = Pagination(limit: Option<Int32>, offset: Option<Int32>)

  /** The request: "table", "fields", and the optional "conditions" (field ->
      details, in iteration order), "sort" and "pagination". */
  datatype TranslationRequest = TranslationRequest(
    table: string,
    fields: seq<string>,
    conditions: Option<seq<(string, ConditionDetails)>>,
    sort: Option<Sort>,
    pagination: Option<Pagination>)

  /** The exceptions the pipeline raises: the table check's, the listener's,
      and the `NullPointerException` a select element meets when no FROM
      table has been entered yet. */
  datatype TranslationError =
    | TableNotAllowed(table: string)
    | Rejected(error: CustomListener.ListenerError)
    | NullTable

  const DefaultLimit: Int32 := 10
  const DefaultOffset: Int32 := 0

  /** `StringBuilder.append` of a possibly null string. */
  function OrNull(s: Option<string>): string
  {
    match s
    case None => "null"
    case Some(v) => v
  }

  // ---------------------------------------------------------------------------
  // The validator the builder calls

  /** `PostgresSQLValidator.isTableAllowed`: true for an allowlisted table,
      and an error (never false) otherwise. */
  function IsTableAllowed(cfg: QueryConfig.Allowlist, table: string): (r: Result<bool, TranslationError>)
    ensures r.Ok? <==> QueryConfig.IsTableAllowed(cfg, table)
    ensures r.Ok? ==> r.value
    ensures r.Err? ==> r.error == TableNotAllowed(table)
  {
    if !QueryConfig.IsTableAllowed(cfg, table) then Err(TableNotAllowed(table)) else Ok(true)
  }

  /** `PostgresSQLValidator.validateQuery`: parse the query and walk the
      listener over the tree (in the FROM-first order, see
      `CustomListener.ValidateParsed`). The lexer and parser are not part of
      this model; `parse` stands for them. The query passes exactly when its
      FROM table, its JOIN tables and its select elements are allowed. */
  function ValidateQuery(cfg: QueryConfig.Allowlist, parse: string -> CustomListener.ParsedQuery, query: string)
    : (r: Outcome<TranslationError>)
    ensures var q := parse(query);
      r.Pass? <==>
        && q.fromTable in cfg
        && (forall k :: 0 <= k < |q.selectElements| ==>
              CustomListener.SelectElementAllowed(cfg, q.fromTable, q.selectElements[k]))
        && (forall k :: 0 <= k < |q.joinTables| ==> q.joinTables[k] in cfg)
    ensures r.Fail? ==> r.error.Rejected?
  {
    match CustomListener.ValidateParsed(cfg, parse(query))
    case Ok(_) => Pass
    case Err(e) => Fail(Rejected(e))
  }

  /** `PostgresSQLValidator.validateQuery` as written: the walker delivers
      the entries in tree order, select elements before FROM. A query with a
      select element therefore fails with the null-table dereference, whatever
      the allowlist; a query without one is checked as in `ValidateQuery`. */
  function ValidateQueryAsWritten(cfg: QueryConfig.Allowlist, parse: string -> CustomListener.ParsedQuery, query: string)
    : (r: Outcome<TranslationError>)
    ensures |parse(query).selectElements| > 0 ==> r == Fail(NullTable)
    ensures |parse(query).selectElements| == 0 ==> r == ValidateQuery(cfg, parse, query)
  {
    var q := parse(query);
    var evs := CustomListener.TreeOrder(q);
    assert |q.selectElements| > 0 ==> !CustomListener.Scoped(None, evs) by {
      if |q.selectElements| > 0 {
        CustomListener.SelectBeforeFromUnscoped(q);
      }
    }
    assert |q.selectElements| == 0 ==> evs == CustomListener.FromFirstOrder(q) && CustomListener.Scoped(None, evs) by {
      if |q.selectElements| == 0 {
        assert evs == CustomListener.FromFirstOrder(q);
        CustomListener.NoSelectScoped(Some(q.fromTable), evs[1..]);
      }
    }
    if !CustomListener.Scoped(None, evs) then Fail(NullTable)
    else
      match CustomListener.Walk(cfg, None, evs)
      case Ok(_) => Pass
      case Err(e) => Fail(Rejected(e))
  }

  /** `SELECT id FROM orders` with `id` listed for orders: the FROM-first
      walk accepts it, the walk as written fails on the null table. */
  lemma AsWrittenRejectsAllowedQuery(parse: string -> CustomListener.ParsedQuery, query: string)
    requires parse(query) == CustomListener.ParsedQuery(["id"], "orders", [], false, false, false, false)
    ensures var cfg := map["orders" := map[QueryConfig.ColumnsKey := ["id"]]];
      && ValidateQuery(cfg, parse, query) == Pass
      && ValidateQueryAsWritten(cfg, parse, query) == Fail(NullTable)
  {
    var cfg := map["orders" := map[QueryConfig.ColumnsKey := ["id"]]];
    Text.NotContains("id", "->>");
    assert CustomListener.SelectElementAllowed(cfg, "orders", "id");
  }

  // ---------------------------------------------------------------------------
  // The query text, stated piece by piece

  /** `field operator 'value'`: the value is put between single quotes as
      it is, without escaping. */
  function Term(field: string, d: ConditionDetails): string
  {
    field + " " + OrNull(d.operator) + " '" + OrNull(d.value) + "'"
  }

  function Terms(cs: seq<(string, ConditionDetails)>): (r: seq<string>)
    ensures |r| == |cs|
    ensures forall i :: 0 <= i < |r| ==> r[i] == Term(cs[i].0, cs[i].1)
  {
    seq(|cs|, i requires 0 <= i < |cs| => Term(cs[i].0, cs[i].1))
  }

  /** " WHERE " and the terms joined by " AND ", for a present, non-empty
      conditions map; nothing otherwise. */
  function WhereText(conditions: Option<seq<(string, ConditionDetails)>>): string
  {
    if conditions.Some? && |conditions.value| > 0 then " WHERE " + Join(" AND ", Terms(conditions.value))
    else ""
  }

  function SortText(sort: Option<Sort>): string
  {
    match sort
    case None => ""
    case Some(s) => " ORDER BY " + OrNull(s.field) + " " + OrNull(s.order)
  }

  function OrDefault(v: Option<Int32>, default: Int32): Int32
  {
    match v
    case None => default
    case Some(x) => x
  }

  /** " LIMIT n OFFSET m" whenever "pagination" is present. */
  function PaginationText(p: Option<Pagination>): string
  {
    match p
    case None => ""
    case Some(pg) =>
      " LIMIT " + IntToString(OrDefault(pg.limit, DefaultLimit))
      + " OFFSET " + IntToString(OrDefault(pg.offset, DefaultOffset))
  }

  function QueryText(req: TranslationRequest): string
  {
    "SELECT " + Join(", ", req.fields) + " FROM " + req.table
    + WhereText(req.conditions) + SortText(req.sort) + PaginationText(req.pagination)
  }

  // ---------------------------------------------------------------------------
  // The builder

  /** The conditions loop: each term followed by " AND ", then the last
      five characters cut off. */
  method AppendConditions(sql: string, cs: seq<(string, ConditionDetails)>) returns (out: string)
    requires |cs| > 0
    ensures out == sql + Join(" AND ", Terms(cs))
  {
    var texts := Terms(cs);
    out := sql;
    var i := 0;
    while i < |cs|
      invariant 0 <= i <= |cs|
      invariant out == sql + Terminated(" AND ", texts[..i])
    {
      var term := cs[i].0 + " " + OrNull(cs[i].1.operator) + " '" + OrNull(cs[i].1.value) + "'";
      assert term == texts[i];
      TerminatedPrefixStep(" AND ", texts, i);
      AppendAssoc(sql, Terminated(" AND ", texts[..i]), term + " AND ");
      out := out + (term + " AND ");
      i := i + 1;
    }
    assert texts[..i] == texts;
    TerminatedIsJoinThenSep(" AND ", texts);
    var joined := sql + Join(" AND ", texts);
    AppendAssoc(sql, Join(" AND ", texts), " AND ");
    assert out == joined + " AND ";
    assert out[..|joined|] == joined;
    out := out[..|out| - 5];
  }

  /** The sorting step. */
  method AppendSort(sql: string, sort: Option<Sort>) returns (out: string)
    ensures out == sql + SortText(sort)
  {
    out := sql;
    if sort.Some? {
      out := out + " ORDER BY " + OrNull(sort.value.field) + " " + OrNull(sort.value.order);
    }
  }

  /** The pagination step, with `getOrDefault` for either key. */
  method AppendPagination(sql: string, p: Option<Pagination>) returns (out: string)
    ensures out == sql + PaginationText(p)
  {
    out := sql;
    if p.Some? {
      var limit := OrDefault(p.value.limit, DefaultLimit);
      var offset := OrDefault(p.value.offset, DefaultOffset);
      out := out + " LIMIT " + IntToString(limit) + " OFFSET " + IntToString(offset);
    }
  }

  /** `buildQueryFromJson`: fails on a table outside the allowlist, and
      otherwise produces the query text. */
  method BuildQueryFromJson(cfg: QueryConfig.Allowlist, req: TranslationRequest)
    returns (r: Result<string, TranslationError>)
    ensures r.Ok? <==> req.table in cfg
    ensures r.Err? ==> r.error == TableNotAllowed(req.table)
    ensures r.Ok? ==> r.value == QueryText(req)
  {
    var allowed := IsTableAllowed(cfg, req.table);
    if allowed.Err? {
      return Err(allowed.error);
    }
    var sql := "SELECT " + Join(", ", req.fields) + " FROM " + req.table;
    var head := sql;
    if req.conditions.Some? && |req.conditions.value| > 0 {
      sql := AppendConditions(sql + " WHERE ", req.conditions.value);
    }
    assert sql == head + WhereText(req.conditions);
    sql := AppendSort(sql, req.sort);
    sql := AppendPagination(sql, req.pagination);
    return Ok(sql);
  }

  /** `translateAndValidateQuery`: build the query, then validate it; the
      table check comes first, and the built query is returned unchanged
      when validation passes. */
  method TranslateAndValidateQuery(
    cfg: QueryConfig.Allowlist, parse: string -> CustomListener.ParsedQuery, req: TranslationRequest)
    returns (r: Result<string, TranslationError>)
    ensures req.table !in cfg ==> r == Err(TableNotAllowed(req.table))
    ensures req.table in cfg ==>
      (r.Ok? <==> ValidateQuery(cfg, parse, QueryText(req)).Pass?)
    ensures r.Ok? ==> r.value == QueryText(req)
  {
    var built := BuildQueryFromJson(cfg, req);
    if built.Err? {
      return built;
    }
    var verdict := ValidateQuery(cfg, parse, built.value);
    if verdict.Fail? {
      return Err(verdict.error);
    }
    return built;
  }

  // ---------------------------------------------------------------------------
  // Properties

  /** An empty conditions map adds nothing, exactly as an absent one. */
  lemma EmptyConditionsAddNothing(req: TranslationRequest)
    ensures QueryText(req.(conditions := Some([]))) == QueryText(req.(conditions := None))
  {
  }

  /** "pagination" without "limit" and "offset" means LIMIT 10 OFFSET 0. */
  lemma PaginationDefaults()
    ensures PaginationText(Some(Pagination(None, None))) == " LIMIT 10 OFFSET 0"
  {
    assert NatToString(10) == "10" by {
      assert NatToString(1) == "1";
    }
    assert NatToString(0) == "0";
  }

  /** One term per condition, and " AND " only between terms: the WHERE
      text of conditions `a` then `b` is the two terms with one " AND ". */
  lemma TwoConditionsOneAnd(a: (string, ConditionDetails), b: (string, ConditionDetails))
    ensures WhereText(Some([a, b])) == " WHERE " + Term(a.0, a.1) + " AND " + Term(b.0, b.1)
  {
    assert Terms([a, b]) == [Term(a.0, a.1), Term(b.0, b.1)];
    assert Terms([a, b])[1..] == [Term(b.0, b.1)];
    assert Join(" AND ", [Term(a.0, a.1), Term(b.0, b.1)])
        == Term(a.0, a.1) + " AND " + Join(" AND ", [Term(b.0, b.1)]);
  }

  /** Values are not escaped: a quote inside a value closes the literal, and
      the rest of the value lands in the SQL as written. */
  lemma QuoteInValueEndsLiteral()
    ensures Term("name", ConditionDetails(Some("="), Some("x' OR '1'='1")))
         == "name = 'x' OR '1'='1'"
  {
  }
}
