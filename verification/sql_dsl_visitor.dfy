/** The parse-tree to SQL emitter: a visitor that renders a parsed query into
    SQL text and collects the values of its conditions into a positional
    parameter list. Rules without an override here (table name, WHERE clause,
    scalar value, JSON pair) are rendered by a generated base visitor that is
    not part of this model; their renderings are taken as given functions. */
module SqlDslVisitor {
  import opened Wrappers
  import opened Text

  // ---------------------------------------------------------------------------
  // The parse tree

  /** The two JSONB access operators. */
  datatype AccessOp = Arrow | DoubleArrow

  function OperatorText(op: AccessOp): string
  {
    match op
    case Arrow => "->"
    case DoubleArrow => "->>"
  }

  /** `jsonbAccess: ('->' | '->>') STRING jsonbAccess?`; `key` is the STRING
      token's text, quotes included. */
  datatype JsonbAccess = JsonbAccess(op: AccessOp, key: string, nested: Option<JsonbAccess>)

  /** A column: one identifier or two (`a.b`), optionally followed by a JSONB
      access chain. */
  datatype Column =
    | RegularColumn(first: string, second: Option<string>)
    | JsonbColumn(first: string, second: Option<string>, access: JsonbAccess)

  datatype Value =
    | ScalarValue(token: string)
    | JsonbObjectValue(pairs: seq<Pair>)

  datatype Pair = Pair(key: string, value: Value)

  datatype Condition = Condition(column: Column, operator: string, value: Value)

  datatype TableName = TableName(identifiers: seq<string>)

  datatype JoinClause = JoinClause(joinType: string, table: TableName, condition: Condition)

  datatype WhereClause = WhereClause(conditions: seq<Condition>)

  datatype OrderByClause = OrderByClause(column: Column, direction: string)

  datatype Query = Query(
    selectList: seq<Column>,
    table: TableName,
    joins: seq<JoinClause>,
    where: Option<WhereClause>,
    orderBy: Option<OrderByClause>,
    limit: Option<string>,
    offset: Option<string>)

  /** Rendered text together with the parameters appended while producing it. */
  datatype Emitted = Emitted(text: string, parameters: seq<string>)

  /** The base visitor's renderings of the rules this visitor leaves alone.
      `whereClause` and `pair` are only texts: visiting either also visits
      the overridden rules below it (the WHERE clause's conditions, the
      pair's value), and the parameters those add are modelled by
      `WhereEmitted` and `RenderPair`. */
  datatype BaseVisitor = BaseVisitor(
    tableName: TableName -> string,
    whereClause: WhereClause -> string,
    scalarValue: string -> string,
    pair: Pair -> string)

  // ---------------------------------------------------------------------------
  // Columns and JSONB access

  /** `ID(0)`, or `ID(0) + "." + ID(1)` when there are two identifiers. */
  function BaseName(first: string, second: Option<string>): string
  {
    match second
    case None => first
    case Some(s) => first + "." + s
  }

  /** `visitJsonbAccess`: the operator, a space, the key, then the nested
      access rendered directly after it. */
  function RenderAccess(a: JsonbAccess): (r: string)
    ensures |r| >= 3 && r[..2] == "->"
    ensures r[2] == '>' <==> a.op == DoubleArrow
    decreases a
  {
    var level := OperatorText(a.op) + " " + a.key;
    match a.nested
    case None => level
    case Some(n) => level + RenderAccess(n)
  }

  /** `visitColumn` / `visitJsonbColumn`. A plain column of dot-free
      identifiers splits at its dots back into those identifiers. */
  function RenderColumn(c: Column): (r: string)
    ensures c.RegularColumn? && '.' !in c.first && (c.second.Some? ==> '.' !in c.second.value) ==>
      Fields(r, '.') == [c.first] + (if c.second.Some? then [c.second.value] else [])
  {
    match c
    case RegularColumn(f, s) =>
      assert '.' !in f && (s.Some? ==> '.' !in s.value) ==>
        Fields(BaseName(f, s), '.') == [f] + (if s.Some? then [s.value] else []) by {
        if '.' !in f && (s.Some? ==> '.' !in s.value) {
          FieldsNoSep(f, '.');
          if s.Some? {
            FieldsNoSep(s.value, '.');
            FieldsAppend(f, '.', s.value);
          }
        }
      }
      BaseName(f, s)
    case JsonbColumn(f, s, a) => BaseName(f, s) + RenderAccess(a)
  }

  /** A JSONB column renders as the plain column of its identifiers followed
      by its access chain. */
  lemma JsonbColumnExtendsBase(first: string, second: Option<string>, a: JsonbAccess)
    ensures RenderColumn(JsonbColumn(first, second, a)) == RenderColumn(RegularColumn(first, second)) + RenderAccess(a)
    ensures |RenderColumn(JsonbColumn(first, second, a))| > |RenderColumn(RegularColumn(first, second))|
  {
  }

  /** The levels of an access chain, outermost first. */
  function Levels(a: JsonbAccess): (r: seq<(AccessOp, string)>)
    ensures |r| >= 1 && r[0] == (a.op, a.key)
    decreases a
  {
    match a.nested
    case None => [(a.op, a.key)]
    case Some(n) => [(a.op, a.key)] + Levels(n)
  }

  /** The chain with the given levels, outermost first; none for no levels. */
  function Chain(levels: seq<(AccessOp, string)>): Option<JsonbAccess>
    decreases |levels|
  {
    if |levels| == 0 then None
    else Some(JsonbAccess(levels[0].0, levels[0].1, Chain(levels[1..])))
  }

  /** Flattening a chain into levels loses nothing ... */
  lemma {:induction false} ChainOfLevels(a: JsonbAccess)
    ensures Chain(Levels(a)) == Some(a)
    decreases a
  {
    match a.nested
    case None =>
    case Some(n) =>
      ChainOfLevels(n);
      assert Levels(a)[1..] == Levels(n);
  }

  /** ... and every non-empty list of levels is the flattening of a chain. */
  lemma {:induction false} LevelsOfChain(levels: seq<(AccessOp, string)>)
    requires |levels| > 0
    ensures Chain(levels).Some? && Levels(Chain(levels).value) == levels
    decreases |levels|
  {
    if |levels| > 1 {
      LevelsOfChain(levels[1..]);
    }
  }

  function LevelText(level: (AccessOp, string)): string
  {
    OperatorText(level.0) + " " + level.1
  }

  function LevelTexts(levels: seq<(AccessOp, string)>): (r: seq<string>)
    ensures |r| == |levels|
    ensures forall i :: 0 <= i < |r| ==> r[i] == LevelText(levels[i])
  {
    seq(|levels|, i requires 0 <= i < |levels| => LevelText(levels[i]))
  }

  /** A chain renders as the concatenation of its levels' renderings, with
      nothing between levels. */
  lemma {:induction false} RenderAccessIsConcat(a: JsonbAccess)
    ensures RenderAccess(a) == Concat(LevelTexts(Levels(a)))
    decreases a
  {
    match a.nested
    case None =>
      assert LevelTexts(Levels(a))[1..] == [];
    case Some(n) =>
      RenderAccessIsConcat(n);
      assert LevelTexts(Levels(a))[1..] == LevelTexts(Levels(n));
  }

  // ---------------------------------------------------------------------------
  // Select list, values and conditions

  function ColumnTexts(cols: seq<Column>): (r: seq<string>)
    ensures |r| == |cols|
    ensures forall i :: 0 <= i < |r| ==> r[i] == RenderColumn(cols[i])
  {
    seq(|cols|, i requires 0 <= i < |cols| => RenderColumn(cols[i]))
  }

  /** `visitSelectList`: the columns' renderings joined by ", ", in order:
      nothing for no columns, one column alone, and each further column
      after ", ". */
  function RenderSelectList(cols: seq<Column>): (r: string)
    ensures |cols| == 0 ==> r == ""
    ensures |cols| == 1 ==> r == RenderColumn(cols[0])
    ensures |cols| > 1 ==>
      r == RenderSelectList(cols[..|cols| - 1]) + ", " + RenderColumn(cols[|cols| - 1])
  {
    if |cols| > 1 then
      var init := cols[..|cols| - 1];
      assert ColumnTexts(cols) == ColumnTexts(init) + [RenderColumn(cols[|cols| - 1])];
      JoinSnoc(", ", ColumnTexts(init), RenderColumn(cols[|cols| - 1]));
      Join(", ", ColumnTexts(cols))
    else
      Join(", ", ColumnTexts(cols))
  }

  /** The base visitor's visit of a pair: its text is the base visitor's,
      and visiting the pair's value runs `visitJsonbValue` again for a nested
      object, so the nested object's parameters are added. */
  function RenderPair(b: BaseVisitor, p: Pair): (r: Emitted)
    ensures r.text == b.pair(p)
    ensures |r.parameters| == ObjectCount(p.value)
    decreases p, 2
  {
    Emitted(b.pair(p), RenderValue(b, p.value).parameters)
  }

  function PairTexts(b: BaseVisitor, pairs: seq<Pair>): (r: seq<string>)
    ensures |r| == |pairs|
    ensures forall i :: 0 <= i < |r| ==> r[i] == b.pair(pairs[i])
  {
    seq(|pairs|, i requires 0 <= i < |pairs| => b.pair(pairs[i]))
  }

  /** The parameters the pairs' visits add, in the order of the pairs. */
  function PairsParameters(b: BaseVisitor, pairs: seq<Pair>): (r: seq<string>)
    ensures |r| == PairsObjectCount(pairs)
    decreases pairs, 0
  {
    if |pairs| == 0 then []
    else RenderPair(b, pairs[0]).parameters + PairsParameters(b, pairs[1..])
  }

  /** `visitJsonbValue`: "{", each pair followed by ",", the last character
      cut off, "}". The pairs' visits add their nested objects' parameters
      first; then the object's own text is appended to the parameters. */
  function RenderJsonbValue(b: BaseVisitor, pairs: seq<Pair>): (r: Emitted)
    ensures |pairs| > 0 ==> r.text == "{" + Join(",", PairTexts(b, pairs)) + "}"
    ensures |pairs| == 0 ==> r.text == "}"
    ensures |r.parameters| >= 1 && r.parameters[|r.parameters| - 1] == r.text
    ensures r.parameters[..|r.parameters| - 1] == PairsParameters(b, pairs)
    ensures |r.parameters| == 1 + PairsObjectCount(pairs)
    decreases pairs, 1
  {
    var texts := PairTexts(b, pairs);
    var built := "{" + Terminated(",", texts);
    var text := built[..|built| - 1] + "}";
    var nested := PairsParameters(b, pairs);
    if |pairs| > 0 then
      TerminatedIsJoinThenSep(",", texts);
      assert built == "{" + Join(",", texts) + ",";
      assert (nested + [text])[..|nested|] == nested;
      Emitted(text, nested + [text])
    else
      assert (nested + [text])[..|nested|] == nested;
      Emitted(text, nested + [text])
  }

  /** The value's rendering: a JSONB object through `visitJsonbValue`, a
      scalar through the base visitor. It adds one parameter for every JSONB
      object in the value, at any depth, and an object's own text last. */
  function RenderValue(b: BaseVisitor, v: Value): (r: Emitted)
    ensures v.ScalarValue? ==> r == Emitted(b.scalarValue(v.token), [])
    ensures v.JsonbObjectValue? ==> |r.parameters| >= 1 && r.parameters[|r.parameters| - 1] == r.text
    ensures |r.parameters| == ObjectCount(v)
    decreases v, 3
  {
    match v
    case ScalarValue(t) => Emitted(b.scalarValue(t), [])
    case JsonbObjectValue(ps) => RenderJsonbValue(b, ps)
  }

  // The number of JSONB objects in a value, nested ones included

  function ObjectCount(v: Value): nat
    decreases v
  {
    match v
    case ScalarValue(_) => 0
    case JsonbObjectValue(ps) => 1 + PairsObjectCount(ps)
  }

  function PairsObjectCount(pairs: seq<Pair>): nat
    decreases pairs
  {
    if |pairs| == 0 then 0
    else ObjectCount(pairs[0].value) + PairsObjectCount(pairs[1..])
  }

  /** `visitCondition`: the column, the operator and a "?" placeholder; the
      value's rendering goes to the parameters instead of the text. Visiting
      the value adds one parameter per JSONB object in it, then the value's
      text is added once more, so a JSONB object value ends up in the
      parameters twice, after the objects nested inside it. */
  function RenderCondition(b: BaseVisitor, c: Condition): (r: Emitted)
    ensures r.text == RenderColumn(c.column) + " " + c.operator + " ?"
    ensures |r.parameters| == 1 + ObjectCount(c.value)
    ensures c.value.ScalarValue? ==> r.parameters == [b.scalarValue(c.value.token)]
    ensures c.value.JsonbObjectValue? ==>
      var v := RenderJsonbValue(b, c.value.pairs).text;
      |r.parameters| >= 2 && r.parameters[|r.parameters| - 2..] == [v, v]
  {
    var v := RenderValue(b, c.value);
    var ps := v.parameters + [v.text];
    assert c.value.JsonbObjectValue? ==> ps[|ps| - 2..] == [v.parameters[|v.parameters| - 1], v.text];
    Emitted(RenderColumn(c.column) + " " + c.operator + " ?", ps)
  }

  /** `x = {"a": {"b": 1}}`, for any column, operator, keys and scalar: the
      inner object is added while the outer one is rendered, then the outer
      one twice, three parameters in all. */
  lemma NestedObjectParameters(b: BaseVisitor, column: Column, op: string, a: string, k: string, token: string)
    ensures var inner := JsonbObjectValue([Pair(k, ScalarValue(token))]);
      var outer := JsonbObjectValue([Pair(a, inner)]);
      var r := RenderCondition(b, Condition(column, op, outer));
      r.parameters == [RenderValue(b, inner).text, RenderValue(b, outer).text, RenderValue(b, outer).text]
  {
    var inner := JsonbObjectValue([Pair(k, ScalarValue(token))]);
    var outer := JsonbObjectValue([Pair(a, inner)]);
    var ri := RenderValue(b, inner);
    var ro := RenderValue(b, outer);
    SinglePairParameters(b, k, ScalarValue(token));
    assert ri.parameters == [ri.text];
    SinglePairParameters(b, a, inner);
    assert ro.parameters == [ri.text, ro.text];
  }

  /** An object of one pair adds its value's parameters, then its own text. */
  lemma SinglePairParameters(b: BaseVisitor, key: string, v: Value)
    ensures var o := RenderValue(b, JsonbObjectValue([Pair(key, v)]));
      o.parameters == RenderValue(b, v).parameters + [o.text]
  {
    var ps := [Pair(key, v)];
    assert ps[1..] == [];
    assert PairsParameters(b, ps) == RenderPair(b, ps[0]).parameters + PairsParameters(b, []);
    assert PairsParameters(b, ps) == RenderValue(b, v).parameters;
    var o := RenderJsonbValue(b, ps);
    assert o.parameters == o.parameters[..|o.parameters| - 1] + [o.text];
  }

  /** The text of a condition does not depend on its value: values only ever
      reach the parameter list. */
  lemma ConditionTextIgnoresValue(b: BaseVisitor, c: Condition, v: Value)
    ensures RenderCondition(b, c.(value := v)).text == RenderCondition(b, c).text
  {
  }

  /** `visitJoinClause`: table, " ON ", condition; the join type is dropped. */
  function RenderJoin(b: BaseVisitor, j: JoinClause): (r: Emitted)
    ensures r.parameters == RenderCondition(b, j.condition).parameters
  {
    var cond := RenderCondition(b, j.condition);
    Emitted(b.tableName(j.table) + " ON " + cond.text, cond.parameters)
  }

  // ---------------------------------------------------------------------------
  // The query

  /** The joins' contribution: " JOIN " and the join's text, for each join in
      order, and their parameters in the same order. */
  function JoinsEmitted(b: BaseVisitor, joins: seq<JoinClause>): Emitted
    decreases |joins|
  {
    if |joins| == 0 then Emitted("", [])
    else
      var j := RenderJoin(b, joins[0]);
      var rest := JoinsEmitted(b, joins[1..]);
      Emitted(" JOIN " + j.text + rest.text, j.parameters + rest.parameters)
  }

  /** The `forEach` over the joins, appending to the builder and to the
      parameter list as it goes. */
  function AppendJoins(b: BaseVisitor, acc: Emitted, joins: seq<JoinClause>): Emitted
    decreases |joins|
  {
    if |joins| == 0 then acc
    else
      var j := RenderJoin(b, joins[0]);
      AppendJoins(b, Emitted(acc.text + " JOIN " + j.text, acc.parameters + j.parameters), joins[1..])
  }

  /** The loop appends exactly the joins' contribution to what was built so
      far. */
  lemma {:induction false} AppendJoinsAppends(b: BaseVisitor, acc: Emitted, joins: seq<JoinClause>)
    ensures AppendJoins(b, acc, joins).text == acc.text + JoinsEmitted(b, joins).text
    ensures AppendJoins(b, acc, joins).parameters == acc.parameters + JoinsEmitted(b, joins).parameters
    decreases |joins|
  {
    if |joins| > 0 {
      var j := RenderJoin(b, joins[0]);
      var rest := JoinsEmitted(b, joins[1..]);
      var acc' := Emitted(acc.text + " JOIN " + j.text, acc.parameters + j.parameters);
      AppendJoinsAppends(b, acc', joins[1..]);
      AppendAssoc(acc.text + " JOIN ", j.text, rest.text);
      AppendAssoc(acc.text, " JOIN ", j.text + rest.text);
      AppendAssoc(" JOIN ", j.text, rest.text);
      AppendAssoc(acc.parameters, j.parameters, rest.parameters);
    }
  }

  /** The parameters the WHERE clause's conditions add through
      `visitCondition`, in the order of the conditions. */
  function ConditionsParameters(b: BaseVisitor, conds: seq<Condition>): (r: seq<string>)
    ensures |r| == |conds| + ConditionObjects(conds)
    decreases |conds|
  {
    if |conds| == 0 then []
    else RenderCondition(b, conds[0]).parameters + ConditionsParameters(b, conds[1..])
  }

  /** The number of JSONB objects, nested ones included, in the conditions'
      values. */
  function ConditionObjects(conds: seq<Condition>): nat
    decreases |conds|
  {
    if |conds| == 0 then 0
    else ObjectCount(conds[0].value) + ConditionObjects(conds[1..])
  }

  /** " WHERE " and the base visitor's text of the clause, with the
      parameters of its conditions. */
  function WhereEmitted(b: BaseVisitor, where: Option<WhereClause>): Emitted
  {
    match where
    case None => Emitted("", [])
    case Some(w) => Emitted(" WHERE " + b.whereClause(w), ConditionsParameters(b, w.conditions))
  }

  /** `visitQuery` on a fresh visitor: "SELECT ", the select list, " FROM ",
      the table, the joins, then " WHERE " and the where clause if there is
      one. ORDER BY, LIMIT and OFFSET are not rendered. */
  function RenderQuery(b: BaseVisitor, q: Query): (r: Emitted)
    ensures r.text == "SELECT " + RenderSelectList(q.selectList) + " FROM " + b.tableName(q.table)
      + JoinsEmitted(b, q.joins).text + WhereEmitted(b, q.where).text
    ensures r.parameters == JoinsEmitted(b, q.joins).parameters + WhereEmitted(b, q.where).parameters
  {
    var head := Emitted("SELECT " + RenderSelectList(q.selectList) + " FROM " + b.tableName(q.table), []);
    var withJoins := AppendJoins(b, head, q.joins);
    AppendJoinsAppends(b, head, q.joins);
    assert withJoins.parameters == JoinsEmitted(b, q.joins).parameters by {
      assert [] + JoinsEmitted(b, q.joins).parameters == JoinsEmitted(b, q.joins).parameters;
    }
    match q.where
    case None => withJoins
    case Some(w) =>
      var e := WhereEmitted(b, q.where);
      AppendAssoc(withJoins.text, " WHERE ", b.whereClause(w));
      Emitted(withJoins.text + e.text, withJoins.parameters + e.parameters)
  }

  /** Each join contributes its condition's parameters, in order: one for
      the value, plus one for every JSONB object in it, nested or not. */
  lemma {:induction false} JoinParameterCount(b: BaseVisitor, joins: seq<JoinClause>)
    ensures |JoinsEmitted(b, joins).parameters| == |joins| + ObjectConditions(joins)
    decreases |joins|
  {
    if |joins| > 0 {
      JoinParameterCount(b, joins[1..]);
    }
  }

  /** The query's parameters: one for every condition, in the joins and in
      the WHERE clause, plus one for every JSONB object in their values. */
  lemma RenderQueryParameterCount(b: BaseVisitor, q: Query)
    ensures |RenderQuery(b, q).parameters| == |q.joins| + ObjectConditions(q.joins)
      + (if q.where.Some? then |q.where.value.conditions| + ConditionObjects(q.where.value.conditions) else 0)
  {
    JoinParameterCount(b, q.joins);
  }

  /** The number of JSONB objects, nested ones included, in the joins'
      condition values. */
  function ObjectConditions(joins: seq<JoinClause>): nat
    decreases |joins|
  {
    if |joins| == 0 then 0
    else ObjectCount(joins[0].condition.value) + ObjectConditions(joins[1..])
  }

  /** The joins with their join types replaced, one new type per join. */
  function Retype(joins: seq<JoinClause>, types: seq<string>): (r: seq<JoinClause>)
    requires |types| == |joins|
    ensures |r| == |joins|
    ensures forall i :: 0 <= i < |r| ==>
      r[i].joinType == types[i] && r[i].table == joins[i].table && r[i].condition == joins[i].condition
  {
    seq(|joins|, i requires 0 <= i < |joins| => joins[i].(joinType := types[i]))
  }

  /** Every join's rendering is independent of its join type. */
  lemma {:induction false} JoinsIgnoreJoinType(b: BaseVisitor, joins: seq<JoinClause>, types: seq<string>)
    requires |types| == |joins|
    ensures JoinsEmitted(b, Retype(joins, types)) == JoinsEmitted(b, joins)
    decreases |joins|
  {
    if |joins| > 0 {
      JoinsIgnoreJoinType(b, joins[1..], types[1..]);
      assert Retype(joins, types)[1..] == Retype(joins[1..], types[1..]);
    }
  }

  /** The emitted SQL is the same whatever the query's ORDER BY, LIMIT,
      OFFSET and join types: none of them is rendered. */
  lemma RenderQueryIgnoresUnrenderedParts(
    b: BaseVisitor, q: Query,
    orderBy: Option<OrderByClause>, limit: Option<string>, offset: Option<string>, types: seq<string>)
    requires |types| == |q.joins|
    ensures var q' := q.(orderBy := orderBy, limit := limit, offset := offset, joins := Retype(q.joins, types));
      RenderQuery(b, q') == RenderQuery(b, q)
  {
    JoinsIgnoreJoinType(b, q.joins, types);
  }
}
