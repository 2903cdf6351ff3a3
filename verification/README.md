# Query-safety core of pgapi, modelled in Dafny

pgapi puts a restricted query surface in front of PostgreSQL. Callers send a
textual query or a JSON query, and the service builds SQL text from it. Every
table, column and JSONB field the query mentions must be on an
administrator-defined allowlist. This project models that query-safety
pipeline as immutable datatypes and pure functions, and proves what each
piece promises:

- **Allowlist oracle** (`QueryConfig`). Membership tests over the map
  table -> {"columns", "jsonb"} -> names.
- **Validating tree-walker** (`CustomListener`). The parse-tree listener,
  modelled as a fold of its callbacks over the rule entries the walker
  delivers. Its only state is the current table.
- **Parse-tree to SQL emitter** (`SqlDslVisitor`). It renders the select
  list, columns, JSONB access chains, joins, conditions and JSONB object
  values, and it collects the positional parameter list.
- **Alias-resolving `_source` check** (`QueryValidator`).
- **DSL allowlist and its JSON-to-SQL builder** (`DslValidator`,
  `JsonToDslTranslator`).
- **PostgreSQL JSON-to-SQL builder** (`QueryTranslator`). It covers the
  WHERE/AND chain, ORDER BY and defaulted pagination. It also holds the
  contract of `PostgresSQLValidator.isTableAllowed` and of its
  `validateQuery`.

Support modules:

- `Wrappers`: `Option`, `Result` and `Outcome`. An `Err` or `Fail` value
  stands for a thrown exception.
- `Text`: the parts of `java.lang.String` the builders rely on. These are
  `String.join`, `contains`, `split` (including its removal of trailing
  empty strings, and the no-match case) and decimal rendering of an `int`.
- `Maps`: a map built by successive `put`s, where the last entry wins.

The allowlists are plain values, so no operation can modify them. Java maps
that are iterated (`forEach`, `entrySet`) are modelled as association lists
in iteration order. The builder methods append one piece at a time, as the
`StringBuilder` loops do. Each one is proved equal to a declarative
rendering that is stated piece by piece.

The model follows the source code in these behaviours:

- JSONB keys are emitted as written, without quote escaping.
- There is no count mode.
- The join type is dropped.
- An unknown alias makes `validateQuery` answer `false`; it raises no
  dedicated error.

## Model

| member | source | states |
|---|---|---|
| QueryConfig.IsTableAllowed | src/main/java/com/api/pg/QueryConfig.java:19-21 | true exactly when the table is a key of the allowlist |
| QueryConfig.IsColumnAllowed | src/main/java/com/api/pg/QueryConfig.java:23-26 | requires the table to be present, because its entry is dereferenced unchecked; true exactly when the entry has a "columns" list holding the name |
| QueryConfig.IsJsonbFieldAllowed | src/main/java/com/api/pg/QueryConfig.java:28-31 | the same against the "jsonb" list |
| QueryConfig.MissingListAllowsNothing | src/main/java/com/api/pg/QueryConfig.java:24-30 | a missing "columns" or "jsonb" key behaves like an empty list: the answer is false, not an error |
| QueryConfig.ListsIndependent | src/main/java/com/api/pg/QueryConfig.java:24-29 | rewriting a table's "jsonb" list never changes a column verdict, and rewriting its "columns" list never changes a JSONB verdict |
| CustomListener.Enter | src/main/java/com/api/pg/PostgresSQLCustomListener.java:16-69 | one callback. FROM passes iff its table is allowed and then becomes the current table. JOIN passes iff its table is allowed and leaves the current table alone. A select element is checked against the current table's jsonb list when its text contains "->>", and against the columns list otherwise. WHERE/ORDER BY/LIMIT/OFFSET always pass and change nothing. Each failure throws the matching error. A select element needs a current table |
| CustomListener.Walk | src/main/java/com/api/pg/PostgresSQLValidator.java:40-43 | the walk feeds the rule entries to the listener in order and stops at the first error. When it finishes, the current table is allowlisted, or none was set |
| CustomListener.WalkAcceptsIff | src/main/java/com/api/pg/PostgresSQLCustomListener.java:9-69 | the walk accepts exactly when every event passes its check against the table of the last FROM before it; it then ends with that table current |
| CustomListener.WalkStopsAtFirstViolation | src/main/java/com/api/pg/PostgresSQLCustomListener.java:18-43 | a rejected walk fails at the first failing event, with that event's exception |
| CustomListener.AcceptedReferencesAllowed | src/main/java/com/api/pg/PostgresSQLCustomListener.java:16-44 | an accepted walk mentions only allowlisted FROM and JOIN tables, and only select elements listed for the table current at that point |
| CustomListener.ArrowOnlyIsColumn | src/main/java/com/api/pg/PostgresSQLCustomListener.java:26-35 | any select text with `->` but no `->>` is looked up, as its full literal text, in the columns list. A miss raises the column error, not the JSONB one |
| CustomListener.ArrowOnlyExample | src/main/java/com/api/pg/PostgresSQLCustomListener.java:27 | `meta->'a'` holds `->` but not `->>`, so it is such a text |
| CustomListener.SelectBeforeFromUnscoped | src/main/java/com/api/pg/PostgresSQLCustomListener.java:9-32 | in the walker's tree order the first select element is entered before any FROM, so no current table exists there |
| CustomListener.FromFirstAdmitsIff | src/main/java/com/api/pg/PostgresSQLCustomListener.java:16-44 | with FROM entered first, the per-event checks reduce to three tests: the FROM table is allowed, every select element is listed for it, and every JOIN table is allowed |
| CustomListener.ValidateParsed | src/main/java/com/api/pg/PostgresSQLCustomListener.java:16-44 | the corrected walk accepts exactly the queries whose FROM table and JOIN tables are allowed and whose select elements are all listed for the FROM table |
| SqlDslVisitor.RenderAccess | src/main/java/com/api/pg/validator/SqlDslVisitor.java:66-76 | a rendered access chain starts with "->", and its third character is ">" exactly when the outermost operator is "->>" |
| SqlDslVisitor.RenderColumn | src/main/java/com/api/pg/validator/SqlDslVisitor.java:43-50 | a plain column of dot-free identifiers, split at its dots, gives back its one or two identifiers |
| SqlDslVisitor.JsonbColumnExtendsBase | src/main/java/com/api/pg/validator/SqlDslVisitor.java:43-63 | a JSONB column renders as its plain column (`a` or `a.b`) immediately followed by its access chain |
| SqlDslVisitor.ChainOfLevels | src/main/java/com/api/pg/validator/SqlDslVisitor.java:66-76 | flattening an access chain into its levels loses nothing: the chain can be rebuilt from them |
| SqlDslVisitor.LevelsOfChain | src/main/java/com/api/pg/validator/SqlDslVisitor.java:66-76 | every non-empty list of levels is the flattening of a chain |
| SqlDslVisitor.RenderAccessIsConcat | src/main/java/com/api/pg/validator/SqlDslVisitor.java:66-76 | a chain renders as the concatenation of `op key` for each level, with nothing between levels |
| SqlDslVisitor.RenderPair | src/main/java/com/api/pg/validator/SqlDslVisitor.java:92-93 | a pair's visit yields the base visitor's text for it and adds one parameter for every JSONB object in its value, nested ones included |
| SqlDslVisitor.RenderJsonbValue | src/main/java/com/api/pg/validator/SqlDslVisitor.java:90-100 | a JSONB object with pairs renders as "{", the pairs joined by ",", then "}". With no pairs it renders as "}". The parameters are those the pairs' visits add, in order, then the object's own text. That is one parameter more than the JSONB objects nested in the pairs |
| SqlDslVisitor.RenderValue | src/main/java/com/api/pg/validator/SqlDslVisitor.java:84-100 | a scalar renders through the base visitor and adds no parameter. A value adds one parameter for every JSONB object in it, nested ones included, and an object's own text is the last one it adds |
| SqlDslVisitor.PairsParameters | src/main/java/com/api/pg/validator/SqlDslVisitor.java:92-94 | the pairs' visits add one parameter for every JSONB object in their values |
| SqlDslVisitor.RenderSelectList | src/main/java/com/api/pg/validator/SqlDslVisitor.java:38-40 | no columns give "", one column gives its rendering alone, and each further column is added after ", " |
| SqlDslVisitor.RenderCondition | src/main/java/com/api/pg/validator/SqlDslVisitor.java:84-87 | the text is the column, the operator and " ?". The value goes to the parameters only. That is one parameter plus one per JSONB object in the value: a scalar once, and a JSONB object twice as its last two entries, after the objects nested in it |
| SqlDslVisitor.NestedObjectParameters | src/main/java/com/api/pg/validator/SqlDslVisitor.java:84-99 | a condition whose value is an object holding one object, such as `x = {"a": {"b": 1}}`, adds three parameters: the inner object's text, then the outer object's text twice |
| SqlDslVisitor.ConditionTextIgnoresValue | src/main/java/com/api/pg/validator/SqlDslVisitor.java:84-87 | a condition's text does not depend on its value |
| SqlDslVisitor.RenderJoin | src/main/java/com/api/pg/validator/SqlDslVisitor.java:79-81 | a join contributes exactly its condition's parameters |
| SqlDslVisitor.AppendJoinsAppends | src/main/java/com/api/pg/validator/SqlDslVisitor.java:22-27 | the `forEach` over the joins appends " JOIN " and each join's rendering, in order, and their parameters in the same order |
| SqlDslVisitor.RenderQuery | src/main/java/com/api/pg/validator/SqlDslVisitor.java:15-40 | "SELECT ", the columns joined by ", ", " FROM ", the table, the joins, then " WHERE " and the where clause when one exists. The parameters are the joins' parameters followed by those of the WHERE clause's conditions |
| SqlDslVisitor.ConditionsParameters | src/main/java/com/api/pg/validator/SqlDslVisitor.java:29-32 | visiting the WHERE clause runs `visitCondition` on each condition: one parameter per condition plus one for every JSONB object in the condition values |
| SqlDslVisitor.RenderQueryParameterCount | src/main/java/com/api/pg/validator/SqlDslVisitor.java:15-35 | a query has one parameter for every condition, in its joins and its WHERE clause, plus one for every JSONB object in their values |
| SqlDslVisitor.JoinParameterCount | src/main/java/com/api/pg/validator/SqlDslVisitor.java:79-98 | the joins add one parameter per join, plus one for every JSONB object, nested ones included, in the joins' condition values |
| SqlDslVisitor.JoinsIgnoreJoinType | src/main/java/com/api/pg/validator/SqlDslVisitor.java:79-81 | the rendering of the joins does not depend on their join types |
| SqlDslVisitor.RenderQueryIgnoresUnrenderedParts | src/main/java/com/api/pg/validator/SqlDslVisitor.java:15-35 | changing ORDER BY, LIMIT, OFFSET or any join type leaves the emitted SQL and parameters unchanged |
| Text.SplitOn | src/main/java/com/api/pg/validator/QueryValidator.java:38 | no piece holds the separator, and when the separator occurs the last piece is not empty |
| Text.SplitOnRejoin | src/main/java/com/api/pg/validator/QueryValidator.java:38 | joining the pieces with the separator gives back the string, less the run of separators dropped from its end |
| Text.FieldsJoin | src/main/java/com/api/pg/validator/QueryValidator.java:38 | the pieces between dots, joined with dots again, give back the string |
| Text.SplitIntoTwo | src/main/java/com/api/pg/validator/QueryValidator.java:38-42 | `x.y` followed by any number of dots splits into exactly `[x, y]` when neither part holds a dot and `y` is non-empty |
| Text.SplitTwoShape | src/main/java/com/api/pg/validator/QueryValidator.java:38-42 | conversely, a two-part split came from `x.y` plus trailing dots |
| Text.SplitWhitespace | src/main/java/com/api/pg/validator/QueryValidator.java:74 | no piece holds white space, and when white space occurs the last piece is not empty |
| Text.SplitWhitespaceEmptyIff | src/main/java/com/api/pg/validator/QueryValidator.java:74-75 | splitting on runs of white space gives no pieces exactly when the string is non-empty white space |
| Text.SplitWhitespaceTwoWords | src/main/java/com/api/pg/validator/QueryValidator.java:74-76 | `t a` with any run of white space between, and anything after a further run, splits into `t` then `a` |
| Text.Join | src/main/java/com/api/pg/QueryTranslator.java:32 | joining a non-empty list starts with its first element, and its length is the elements' lengths plus one separator between each neighbouring pair |
| Text.TerminatedIsJoinThenSep | src/main/java/com/api/pg/QueryTranslator.java:45-47 | writing a separator after every element and then cutting the last one off leaves the elements joined by the separator |
| Text.NatToStringRoundTrip | src/main/java/com/api/pg/QueryTranslator.java:63 | the decimal rendering of a number reads back as that number |
| Text.IntToString | src/main/java/com/api/pg/QueryTranslator.java:63 | as `Integer.toString`: a non-negative number renders as decimal digits with no leading zero that read back as the number. A negative one renders as '-' followed by such digits for its magnitude |
| Maps.PutAll | src/main/java/com/api/pg/validator/DslValidator.java:20-24 | after a `put` for each entry in order, the keys are the old keys plus the entries' keys, untouched keys keep their values, and a key put more than once holds its last value |
| QueryValidator.AliasEntry | src/main/java/com/api/pg/validator/QueryValidator.java:74-76 | a table reference fails exactly when it is non-empty white space, because the split yields no first piece |
| QueryValidator.BareTableIsOwnAlias | src/main/java/com/api/pg/validator/QueryValidator.java:74-76 | a reference without white space maps itself to itself |
| QueryValidator.AliasedTable | src/main/java/com/api/pg/validator/QueryValidator.java:74-76 | `table alias` maps the alias to the table; further words are ignored |
| QueryValidator.BuildAliasToTableMap | src/main/java/com/api/pg/validator/QueryValidator.java:70-91 | succeeds exactly when every reference (FROM, then each join) resolves, and fails naming one of them otherwise. The map is the FROM entry followed by the join entries, `put` in order, so a reused alias keeps its last table |
| QueryValidator.ColumnReference | src/main/java/com/api/pg/validator/QueryValidator.java:38-44 | a recognised requested column has the shape `alias.name` plus trailing dots, with a dot-free alias and a non-empty dot-free name |
| QueryValidator.ColumnReferenceOf | src/main/java/com/api/pg/validator/QueryValidator.java:38-44 | conversely every such `alias.name`, with any trailing dots, is recognised as that alias and name |
| QueryValidator.ColumnsAllowed | src/main/java/com/api/pg/validator/QueryValidator.java:37-61 | the column loop answers true exactly when every requested column has the two-part form, a mapped alias, a configured table and a configured column, and false at the first that does not |
| QueryValidator.ValidateQuery | src/main/java/com/api/pg/validator/QueryValidator.java:28-62 | fails exactly when the alias map cannot be built. Otherwise it answers true iff every requested column has the two-part form, a mapped alias, a configured table and a configured column |
| QueryValidator.EmptySourceAccepted | src/main/java/com/api/pg/validator/QueryValidator.java:37-61 | with no requested columns the answer is true whatever the configuration; the FROM table itself is never checked |
| QueryValidator.ExampleFromAlias | src/main/java/com/api/pg/validator/QueryValidator.java:74-77 | `orders o` maps `o` to orders |
| QueryValidator.ExampleJoinAlias | src/main/java/com/api/pg/validator/QueryValidator.java:80-86 | `customers`, a tab, `c`, then a further word: maps `c` to customers, since `\s` matches a tab as well as a space and words after the alias are ignored |
| QueryValidator.ExampleBareJoin | src/main/java/com/api/pg/validator/QueryValidator.java:83-86 | a join reference without an alias maps the table name to itself |
| QueryValidator.ExampleColumnsPass | src/main/java/com/api/pg/validator/QueryValidator.java:37-61 | `o.total` and `c.name` pass when `o` and `c` name orders and customers |
| QueryValidator.ExampleWrongTable | src/main/java/com/api/pg/validator/QueryValidator.java:53-58 | `o.name` fails when `o` names orders and orders has no `name` column |
| QueryValidator.ExampleUnknownAlias | src/main/java/com/api/pg/validator/QueryValidator.java:46-51 | `x.id` fails when no reference defines the alias `x` |
| QueryValidator.ExampleNoAlias | src/main/java/com/api/pg/validator/QueryValidator.java:38-42 | a column written without an alias fails |
| DslValidator.Load | src/main/java/com/api/pg/validator/DslValidator.java:17-25 | the keys are exactly the configured names. Each name maps to the columns of its last entry, or to no list when that entry has no "columns" |
| DslValidator.ValidateTableAndColumns | src/main/java/com/api/pg/validator/DslValidator.java:28-39 | passes iff the table is allowed and every column is on its list. An unknown table fails with the table error. A table without a list passes no columns and fails on its first column with the null-list error, the `NullPointerException`. Otherwise the error names the first column, in list order, that is not allowed |
| DslValidator.Check | src/main/java/com/api/pg/validator/DslValidator.java:28-39 | the same verdict as a value: pass iff the table is allowed and every column is on its list. A table without a list fails with the null-list error exactly when a column is requested |
| DslValidator.CheckAppend | src/main/java/com/api/pg/validator/DslValidator.java:33-38 | columns `a + b` pass exactly when `a` passes and `b` passes |
| JsonToDslTranslator.TermTextMatchesTable | src/main/java/com/api/pg/validator/JsonToDslTranslator.java:50-56 | the switch agrees with the operator table: eq `=`, gt `>`, lt `<`, like `LIKE '…'`, contains `@> '…'`, each with the value written verbatim. Any other operator emits nothing |
| JsonToDslTranslator.TermEmptyIff | src/main/java/com/api/pg/validator/JsonToDslTranslator.java:50-56 | a condition emits nothing exactly when its operator is not one of the five |
| JsonToDslTranslator.Translation | src/main/java/com/api/pg/validator/JsonToDslTranslator.java:16-71 | succeeds exactly when the FROM table and every SELECT field pass the allowlist, and otherwise fails with the validator's error |
| JsonToDslTranslator.AppendOn | src/main/java/com/api/pg/validator/JsonToDslTranslator.java:38 | the ON loop appends `left = right ` for each pair in order, with no AND |
| JsonToDslTranslator.AppendJoins | src/main/java/com/api/pg/validator/JsonToDslTranslator.java:31-40 | the join loop appends " JOIN ", the table, " ON " and the ON pairs, for each join in order |
| JsonToDslTranslator.AppendTerms | src/main/java/com/api/pg/validator/JsonToDslTranslator.java:49-57 | one field's operator entries are appended back to back |
| JsonToDslTranslator.AppendField | src/main/java/com/api/pg/validator/JsonToDslTranslator.java:46-58 | a non-map condition value contributes nothing |
| JsonToDslTranslator.AppendWhere | src/main/java/com/api/pg/validator/JsonToDslTranslator.java:46-59 | the WHERE loop appends every field's conditions in order, with no connective |
| JsonToDslTranslator.Translate | src/main/java/com/api/pg/validator/JsonToDslTranslator.java:16-71 | the builder yields the declarative translation: "SELECT " + fields joined by ", " + " FROM " + table, then the joins, then " WHERE " and the conditions when "where" is present, then " LIMIT n" and " OFFSET n" for the keys present, in that order |
| JsonToDslTranslator.OnlySelectAndFromAreChecked | src/main/java/com/api/pg/validator/JsonToDslTranslator.java:28-40 | join tables, WHERE content, LIMIT and OFFSET never change whether a request is accepted |
| JsonToDslTranslator.WhereConditionsAreNotJoined | src/main/java/com/api/pg/validator/JsonToDslTranslator.java:43-59 | `{a: {eq: 1}, b: {eq: 2}}` renders as " WHERE a = 1b = 2" |
| JsonToDslTranslator.DanglingWhere | src/main/java/com/api/pg/validator/JsonToDslTranslator.java:43-59 | a "where" whose conditions are all non-maps or unknown operators leaves " WHERE " alone |
| QueryTranslator.IsTableAllowed | src/main/java/com/api/pg/PostgresSQLValidator.java:25-31 | answers true for an allowlisted table and fails with the table error otherwise; it never answers false |
| QueryTranslator.ValidateQuery | src/main/java/com/api/pg/PostgresSQLValidator.java:33-44 | corrected walk, FROM first: the parsed query passes exactly when its FROM table and JOIN tables are allowed and its select elements are listed for the FROM table; any failure is the listener's error |
| QueryTranslator.ValidateQueryAsWritten | src/main/java/com/api/pg/PostgresSQLValidator.java:39-43 | the walk in tree order, as written: any query with a select element fails with the null-table dereference whatever the allowlist. A query without one is judged exactly as by `ValidateQuery` |
| QueryTranslator.AsWrittenRejectsAllowedQuery | src/main/java/com/api/pg/PostgresSQLValidator.java:39-43 | `SELECT id FROM orders`, with `id` listed for orders, passes the corrected walk and fails the walk as written |
| QueryTranslator.AppendConditions | src/main/java/com/api/pg/QueryTranslator.java:39-47 | each `field op 'value'` term followed by " AND ", with the last five characters then cut off, gives the terms joined by " AND " with no trailing AND |
| QueryTranslator.AppendSort | src/main/java/com/api/pg/QueryTranslator.java:51-56 | a sort entry appends " ORDER BY field order"; no entry appends nothing |
| QueryTranslator.AppendPagination | src/main/java/com/api/pg/QueryTranslator.java:59-64 | a pagination entry appends " LIMIT l OFFSET o", with a missing limit read as 10 and a missing offset as 0; no entry appends nothing |
| QueryTranslator.BuildQueryFromJson | src/main/java/com/api/pg/QueryTranslator.java:21-67 | fails with the table error exactly when the table is not allowed, before any SQL is produced. Otherwise it yields "SELECT " + fields joined by ", " + " FROM " + table, then WHERE (for present, non-empty conditions), then ORDER BY, then pagination |
| QueryTranslator.TranslateAndValidateQuery | src/main/java/com/api/pg/QueryTranslator.java:12-19 | an unallowed table fails first. Otherwise the result is accepted exactly when the built query passes the corrected validation, and it is then exactly the built query |
| QueryTranslator.EmptyConditionsAddNothing | src/main/java/com/api/pg/QueryTranslator.java:37 | an empty conditions map renders exactly as an absent one |
| QueryTranslator.PaginationDefaults | src/main/java/com/api/pg/QueryTranslator.java:61-63 | pagination without limit and offset renders " LIMIT 10 OFFSET 0" |
| QueryTranslator.TwoConditionsOneAnd | src/main/java/com/api/pg/QueryTranslator.java:36-48 | two conditions render as " WHERE ", the first term, one " AND ", the second term |
| QueryTranslator.QuoteInValueEndsLiteral | src/main/java/com/api/pg/QueryTranslator.java:45 | values are not escaped: a quote inside a value closes the literal, and the rest of the value lands in the SQL |

## Left out

- The ANTLR lexer and parser, and the generated base listener and visitor, are not part of this model.
  - The walker's output is a parameter: a sequence of rule entries for the listener, or a `ParsedQuery` for `QueryTranslator.ValidateQuery`.
  - The visitor's input is a parse-tree datatype.
- The base visitor's renderings of table names, WHERE clause texts, scalar values and JSON pair texts are given functions, fields of `SqlDslVisitor.BaseVisitor`. The base visitor is not part of this model.
- SqlDslVisitor.RenderQuery: it starts from an empty parameter list. The source's visitor keeps appending to one list across visits of the same instance.
- Conditions whose right-hand side is another column are not modelled. The visitor's value rule covers scalars and JSONB objects only.
- QueryTranslator.ValidateQuery: it walks the tree FROM first, the corrected order (see "## Findings"). The walk as written is `QueryTranslator.ValidateQueryAsWritten`.
- QueryTranslator.TranslateAndValidateQuery: it validates with the corrected `ValidateQuery`. With the walk as written, every built query whose parse has a select element would fail with the null-table dereference. The parser is not part of this model, so no lemma links a built query's fields to its parsed select elements.
- Exceptions are modelled as error values carrying the names involved. The message text is not modelled.
- Null dereferences and failed casts on request values are not modelled. Request fields are non-null values of the expected type, except where the source handles absence:
  - the optional "joins", "join", "where", "conditions", "sort", "pagination", "limit" and "offset" keys;
  - a missing operator, value, sort field or order in `QueryTranslator`, which is appended as "null".
- A present pagination key whose value is null is not modelled. The source would fail unboxing it.
- QueryTranslator: limit and offset are Java `int`s (`Int32`). In `JsonToDslTranslator`, "limit", "offset", ON values and condition values are objects appended by their string rendering, and are modelled as those strings.
- QueryValidator: the `TableConfig` it reads (from `com.example.config`) is not part of this model. It is read as a map from table to a set of column names. The source wraps `getColumns()` in `Set.of`. If that returns a `List`, the result is a one-element set holding the list, and no column would ever match. The model assumes an array of names. On that reading `Set.of` throws `IllegalArgumentException` on a duplicate column name and a `NullPointerException` on a null one. The model's `set<string>` cannot express either, so neither failure is modelled.
- DslValidator.Load: an entry without a "name", and entries whose values are not a string and a list, are not modelled. The source would store a null key or fail a cast.
- QueryValidator.java declares two packages. The model follows the class body.
- The constructor of `PostgresSQLValidator` and its unused `tableConfigMap` are left out, as is the `TableConfig` getter/setter holder. The allowlists are immutable inputs, and their Spring loading is left out.
- Count mode, schema-qualified and aliased table rendering, JSONB key escaping, join-type normalisation, and AND between WHERE conditions in the visitor do not appear in the source's visitor, so they are not modelled.
- Database execution, HTTP controllers, service discovery and retry, and the LLM prompt service are outside the query-safety core.
- QueryValidator: there is no worked example for a whole request. Its two references are covered one at a time by `ExampleFromAlias` and `ExampleJoinAlias`, and the general result by `BuildAliasToTableMap`.

## Findings

| source | as written | input that shows it | evidently intended | confidence | as-written member | corrected member |
|---|---|---|---|---|---|---|
| src/main/java/com/api/pg/PostgresSQLCustomListener.java:9-32 | `tableName` is set only when the FROM clause is entered. The query rule puts the select list before the FROM clause, so a depth-first walk enters every select element while `tableName` is still null. `isColumnAllowed`/`isJsonbFieldAllowed` then dereference the allowlist entry of a null table | `SELECT id FROM orders` with `orders` allowlisted with column `id` | check each select element against the FROM table | medium, not executed; in the SQL text the select list comes before FROM, and ANTLR's tree walk enters a rule's children in input order | CustomListener.SelectBeforeFromUnscoped | CustomListener.ValidateParsed |
| src/main/java/com/api/pg/PostgresSQLValidator.java:39-43 | `validateQuery` walks the listener over the tree in input order, so the listener's null-table dereference is hit by every query whose select list is non-empty. That includes every query `buildQueryFromJson` builds from a request with fields | `SELECT id FROM orders` with `orders` allowlisted with column `id` | accept the query when its FROM table, JOIN tables and select elements are allowed | medium, not executed; in the SQL text the select list comes before FROM, and ANTLR's tree walk enters a rule's children in input order | QueryTranslator.AsWrittenRejectsAllowedQuery | QueryTranslator.ValidateQuery |
