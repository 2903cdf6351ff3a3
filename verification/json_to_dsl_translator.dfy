/** The JSON-to-SQL translator of the DSL endpoint: SELECT list, FROM table,
    JOINs with their ON pairs, WHERE conditions keyed by operator, LIMIT and
    OFFSET, appended to one builder in that order. Only the FROM table and
    the SELECT list go through the allowlist. */
module JsonToDslTranslator {
  import opened Wrappers
  import opened Text
  import DslValidator

  /** A "join" entry: its "table" and its "on" map (left -> right), in the
      map's iteration order. */
  datatype JoinSpec = JoinSpec(table: string, on: seq<(string, string)>)

  /** A "where" value: a map from operator to value (values in their string
      rendering), or anything else, which is skipped. */
  datatype WhereCondition = OperatorMap(entries: seq<(string, string)>) | NotAMap

  /** The request; an absent key is `None`. "limit" and "offset" are kept in
      their string rendering. */
  datatype DslRequest = DslRequest(
    select: seq<string>,
    from: string,
    join: Option<seq<JoinSpec>>,
    where: Option<seq<(string, WhereCondition)>>,
    limit: Option<string>,
    offset: Option<string>)

  // ---------------------------------------------------------------------------
  // Operators

  /** The recognised operators with the text placed between field and value
      and the text closing the value. */
  const OperatorSyntax: map<string, (string, string)> := map[
    "eq" := (" = ", ""),
    "gt" := (" > ", ""),
    "lt" := (" < ", ""),
    "like" := (" LIKE '", "'"),
    "contains" := (" @> '", "'")]

  /** The `switch` on the operator; an operator without a case appends
      nothing. */
  function TermText(field: string, op: string, value: string): string
  {
    match op
    case "eq" => field + " = " + value
    case "gt" => field + " > " + value
    case "lt" => field + " < " + value
    case "like" => field + " LIKE '" + value + "'"
    case "contains" => field + " @> '" + value + "'"
    case _ => ""
  }

  /** The switch agrees with the operator table: a recognised operator puts
      the field, its infix, the value verbatim and its closing text; any
      other operator contributes nothing. */
  lemma TermTextMatchesTable(field: string, op: string, value: string)
    ensures op in OperatorSyntax ==>
      TermText(field, op, value) == field + OperatorSyntax[op].0 + value + OperatorSyntax[op].1
    ensures op !in OperatorSyntax ==> TermText(field, op, value) == ""
  {
    if op in OperatorSyntax {
      assert op == "eq" || op == "gt" || op == "lt" || op == "like" || op == "contains";
    }
  }

  /** A condition contributes something exactly when its operator is
      recognised. */
  lemma TermEmptyIff(field: string, op: string, value: string)
    ensures TermText(field, op, value) == "" <==> op !in OperatorSyntax
  {
    TermTextMatchesTable(field, op, value);
    if op in OperatorSyntax {
      assert |OperatorSyntax[op].0| > 0;
    }
  }

  // ---------------------------------------------------------------------------
  // The rendering, stated piece by piece

  function OnTexts(on: seq<(string, string)>): (r: seq<string>)
    ensures |r| == |on|
    ensures forall i :: 0 <= i < |r| ==> r[i] == on[i].0 + " = " + on[i].1 + " "
  {
    seq(|on|, i requires 0 <= i < |on| => on[i].0 + " = " + on[i].1 + " ")
  }

  /** " JOIN ", the table, " ON ", then `left = right ` for each ON pair:
      pairs are not joined by AND and each is followed by a space. */
  function JoinText(j: JoinSpec): string
  {
    " JOIN " + j.table + " ON " + Concat(OnTexts(j.on))
  }

  function JoinTexts(js: seq<JoinSpec>): (r: seq<string>)
    ensures |r| == |js|
    ensures forall i :: 0 <= i < |r| ==> r[i] == JoinText(js[i])
  {
    seq(|js|, i requires 0 <= i < |js| => JoinText(js[i]))
  }

  function JoinsText(join: Option<seq<JoinSpec>>): string
  {
    match join
    case None => ""
    case Some(js) => Concat(JoinTexts(js))
  }

  function TermTexts(field: string, entries: seq<(string, string)>): (r: seq<string>)
    ensures |r| == |entries|
    ensures forall i :: 0 <= i < |r| ==> r[i] == TermText(field, entries[i].0, entries[i].1)
  {
    seq(|entries|, i requires 0 <= i < |entries| => TermText(field, entries[i].0, entries[i].1))
  }

  /** One field's conditions, back to back; nothing for a non-map value. */
  function FieldText(field: string, cond: WhereCondition): string
  {
    match cond
    case NotAMap => ""
    case OperatorMap(es) => Concat(TermTexts(field, es))
  }

  function FieldTexts(where: seq<(string, WhereCondition)>): (r: seq<string>)
    ensures |r| == |where|
    ensures forall i :: 0 <= i < |r| ==> r[i] == FieldText(where[i].0, where[i].1)
  {
    seq(|where|, i requires 0 <= i < |where| => FieldText(where[i].0, where[i].1))
  }

  /** " WHERE " whenever the key is present, then every condition with no
      connective between them. */
  function WhereText(where: Option<seq<(string, WhereCondition)>>): string
  {
    match where
    case None => ""
    case Some(w) => " WHERE " + Concat(FieldTexts(w))
  }

  function ClauseText(keyword: string, value: Option<string>): string
  {
    match value
    case None => ""
    case Some(v) => keyword + v
  }

  function Head(req: DslRequest): string
  {
    "SELECT " + Join(", ", req.select) + " FROM " + req.from
  }

  /** The translation: rejected when the FROM table or a SELECT field is not
      allowed; otherwise every part of the request, in order. */
  function Translation(allowed: DslValidator.AllowedTables, req: DslRequest): (r: Result<string, DslValidator.DslError>)
    ensures r.Ok? <==> DslValidator.Check(allowed, req.from, req.select).Pass?
    ensures r.Err? ==> r.error == DslValidator.Check(allowed, req.from, req.select).error
  {
    var check := DslValidator.Check(allowed, req.from, req.select);
    if check.Fail? then Err(check.error)
    else Ok(Head(req) + JoinsText(req.join) + WhereText(req.where)
            + ClauseText(" LIMIT ", req.limit) + ClauseText(" OFFSET ", req.offset))
  }

  // ---------------------------------------------------------------------------
  // The builder

  /** The `onCondition.forEach` loop. */
  method AppendOn(sql: string, on: seq<(string, string)>) returns (out: string)
    ensures out == sql + Concat(OnTexts(on))
  {
    var texts := OnTexts(on);
    out := sql;
    var k := 0;
    while k < |on|
      invariant 0 <= k <= |on|
      invariant out == sql + Concat(texts[..k])
    {
      ConcatPrefixStep(texts, k);
      AppendAssoc(sql, Concat(texts[..k]), texts[k]);
      out := out + (on[k].0 + " = " + on[k].1 + " ");
      k := k + 1;
    }
    assert texts[..k] == texts;
  }

  /** The loop over the "join" list. */
  method AppendJoins(sql: string, js: seq<JoinSpec>) returns (out: string)
    ensures out == sql + Concat(JoinTexts(js))
  {
    var texts := JoinTexts(js);
    out := sql;
    var i := 0;
    while i < |js|
      invariant 0 <= i <= |js|
      invariant out == sql + Concat(texts[..i])
    {
      var before := out;
      var opening := " JOIN " + js[i].table + " ON ";
      out := AppendOn(out + opening, js[i].on);
      AppendAssoc(before, opening, Concat(OnTexts(js[i].on)));
      assert out == before + texts[i];
      ConcatPrefixStep(texts, i);
      AppendAssoc(sql, Concat(texts[..i]), texts[i]);
      i := i + 1;
    }
    assert texts[..i] == texts;
  }

  /** The `conditionMap.forEach` loop with its `switch`. */
  method AppendTerms(sql: string, field: string, es: seq<(string, string)>) returns (out: string)
    ensures out == sql + Concat(TermTexts(field, es))
  {
    var texts := TermTexts(field, es);
    out := sql;
    var k := 0;
    while k < |es|
      invariant 0 <= k <= |es|
      invariant out == sql + Concat(texts[..k])
    {
      ConcatPrefixStep(texts, k);
      AppendAssoc(sql, Concat(texts[..k]), texts[k]);
      out := out + TermText(field, es[k].0, es[k].1);
      k := k + 1;
    }
    assert texts[..k] == texts;
  }

  /** One "where" entry: its operator map's conditions, or nothing when the
      value is not a map. */
  method AppendField(sql: string, field: string, cond: WhereCondition) returns (out: string)
    ensures out == sql + FieldText(field, cond)
  {
    if cond.OperatorMap? {
      out := AppendTerms(sql, field, cond.entries);
    } else {
      out := sql;
    }
  }

  /** The `whereConditions.forEach` loop. */
  method AppendWhere(sql: string, w: seq<(string, WhereCondition)>) returns (out: string)
    ensures out == sql + Concat(FieldTexts(w))
  {
    var texts := FieldTexts(w);
    out := sql;
    var i := 0;
    while i < |w|
      invariant 0 <= i <= |w|
      invariant out == sql + Concat(texts[..i])
    {
      out := AppendField(out, w[i].0, w[i].1);
      ConcatPrefixStep(texts, i);
      AppendAssoc(sql, Concat(texts[..i]), texts[i]);
      i := i + 1;
    }
    assert texts[..i] == texts;
  }

  /** `translate`: the builder loops of the source, one `append` at a time;
      the allowlist check runs after the FROM table is appended and aborts
      the translation. */
  method Translate(allowed: DslValidator.AllowedTables, req: DslRequest)
    returns (r: Result<string, DslValidator.DslError>)
    ensures r == Translation(allowed, req)
  {
    var check := DslValidator.ValidateTableAndColumns(allowed, req.from, req.select);
    if check.Fail? {
      return Err(check.error);
    }
    var head := Head(req);
    var joins := JoinsText(req.join);
    var where := WhereText(req.where);
    var limit := ClauseText(" LIMIT ", req.limit);
    var offset := ClauseText(" OFFSET ", req.offset);
    var sql := head;
    if req.join.Some? {
      sql := AppendJoins(sql, req.join.value);
    }
    assert sql == head + joins;
    var joined := sql;
    if req.where.Some? {
      sql := AppendWhere(sql + " WHERE ", req.where.value);
      AppendAssoc(joined, " WHERE ", Concat(FieldTexts(req.where.value)));
    }
    assert sql == joined + where;
    var filtered := sql;
    if req.limit.Some? {
      sql := sql + " LIMIT " + req.limit.value;
    }
    assert sql == filtered + limit;
    var limited := sql;
    if req.offset.Some? {
      sql := sql + " OFFSET " + req.offset.value;
    }
    assert sql == limited + offset;
    return Ok(sql);
  }

  // ---------------------------------------------------------------------------
  // Properties

  /** Only the FROM table and the SELECT list are checked: the joined
      tables, the WHERE fields and values, LIMIT and OFFSET never change
      whether a request is accepted. */
  lemma OnlySelectAndFromAreChecked(
    allowed: DslValidator.AllowedTables, req: DslRequest,
    join: Option<seq<JoinSpec>>, where: Option<seq<(string, WhereCondition)>>,
    limit: Option<string>, offset: Option<string>)
    ensures Translation(allowed, req.(join := join, where := where, limit := limit, offset := offset)).Ok?
        <==> Translation(allowed, req).Ok?
  {
  }

  /** Two conditions on two fields run together with no connective:
      `{a: {eq: 1}, b: {eq: 2}}` renders as " WHERE a = 1b = 2". */
  lemma WhereConditionsAreNotJoined()
    ensures WhereText(Some([("a", OperatorMap([("eq", "1")])), ("b", OperatorMap([("eq", "2")]))]))
         == " WHERE a = 1b = 2"
  {
    var w := [("a", OperatorMap([("eq", "1")])), ("b", OperatorMap([("eq", "2")]))];
    assert FieldText("a", OperatorMap([("eq", "1")])) == "a = 1" by {
      assert TermText("a", "eq", "1") == "a = 1";
      assert TermTexts("a", [("eq", "1")]) == ["a = 1"];
    }
    assert FieldText("b", OperatorMap([("eq", "2")])) == "b = 2" by {
      assert TermText("b", "eq", "2") == "b = 2";
      assert TermTexts("b", [("eq", "2")]) == ["b = 2"];
    }
    assert FieldTexts(w) == ["a = 1", "b = 2"];
    assert Concat(["a = 1", "b = 2"]) == "a = 1" + Concat(["b = 2"]);
  }

  /** A "where" key whose conditions all use unrecognised operators (or are
      not maps) still leaves a dangling " WHERE ". */
  lemma DanglingWhere(w: seq<(string, WhereCondition)>)
    requires forall i :: 0 <= i < |w| ==>
      w[i].1.NotAMap? || forall k :: 0 <= k < |w[i].1.entries| ==> w[i].1.entries[k].0 !in OperatorSyntax
    ensures WhereText(Some(w)) == " WHERE "
  {
    assert forall i :: 0 <= i < |w| ==> FieldText(w[i].0, w[i].1) == "" by {
      forall i | 0 <= i < |w| ensures FieldText(w[i].0, w[i].1) == "" {
        if w[i].1.OperatorMap? {
          var ts := TermTexts(w[i].0, w[i].1.entries);
          forall k | 0 <= k < |ts| ensures ts[k] == "" {
            TermEmptyIff(w[i].0, w[i].1.entries[k].0, w[i].1.entries[k].1);
          }
          ConcatOfEmpties(ts);
        }
      }
    }
    ConcatOfEmpties(FieldTexts(w));
  }

  lemma {:induction false} ConcatOfEmpties(xs: seq<string>)
    requires forall i :: 0 <= i < |xs| ==> xs[i] == ""
    ensures Concat(xs) == ""
    decreases |xs|
  {
    if |xs| > 0 {
      ConcatOfEmpties(xs[1..]);
    }
  }
}
