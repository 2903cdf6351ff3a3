/** The validating tree-walker: a parse-tree listener that checks every FROM
    table, JOIN table and select element against the allowlist and throws on
    the first violation. The walk is modelled as a fold of the listener's
    callbacks over the sequence of rule entries the walker delivers; the only
    state is the table of the last FROM clause entered. */
module CustomListener {
  import opened Wrappers
  import Text
  import QueryConfig

  type Allowlist = QueryConfig.Allowlist

  /** The rule entries the listener reacts to, with the text it reads from
      each: the first identifier of a table reference, or the whole select
      element's text. Entries of every other rule have empty callbacks and
      are not listed. */
  datatype Event =
    | EnterFrom(fromTable: string)
    | EnterSelectElement(text: string)
    | EnterJoin(joinTable: string)
    | EnterWhere
    | EnterOrderBy
    | EnterLimit
    | EnterOffset

  /** The `IllegalArgumentException`s the callbacks throw. */
  datatype ListenerError =
    | TableNotAllowed(table: string)
    | JoiningTableNotAllowed(table: string)
    | JsonbFieldNotAllowed(field: string, table: string)
    | ColumnNotAllowed(column: string, table: string)

  /** The `tableName` field: `None` while it is still null. */
  type Scope = Option<string>

  /** The current table, once set, is a table of the allowlist. */
  predicate InAllowlist(cfg: Allowlist, scope: Scope)
  {
    scope.Some? ==> scope.value in cfg
  }

  /** A select element counts as JSONB access when its text contains `->>`;
      text with only `->` is treated as a plain column. */
  predicate IsJsonbAccess(text: string)
  {
    Text.Contains(text, "->>")
  }

  /** The check of one select element: its full literal text is looked up in
      the table's "jsonb" list or its "columns" list. */
  predicate SelectElementAllowed(cfg: Allowlist, table: string, text: string)
    requires table in cfg
  {
    if IsJsonbAccess(text) then QueryConfig.IsJsonbFieldAllowed(cfg, table, text)
    else QueryConfig.IsColumnAllowed(cfg, table, text)
  }

  /** The event passes its check when reached with the given current table. */
  predicate Admits(cfg: Allowlist, scope: Scope, ev: Event)
  {
    match ev
    case EnterFrom(t) => t in cfg
    case EnterJoin(t) => t in cfg
    case EnterSelectElement(x) => scope.Some? && scope.value in cfg && SelectElementAllowed(cfg, scope.value, x)
    case _ => true
  }

  /** The current table after the event: only FROM replaces it. */
  function NextScope(scope: Scope, ev: Event): Scope
  {
    if ev.EnterFrom? then Some(ev.fromTable) else scope
  }

  /** The exception a failing check throws. */
  function Violation(scope: Scope, ev: Event): ListenerError
    requires ev.EnterFrom? || ev.EnterJoin? || (ev.EnterSelectElement? && scope.Some?)
  {
    if ev.EnterFrom? then TableNotAllowed(ev.fromTable)
    else if ev.EnterJoin? then JoiningTableNotAllowed(ev.joinTable)
    else if IsJsonbAccess(ev.text) then JsonbFieldNotAllowed(ev.text, scope.value)
    else ColumnNotAllowed(ev.text, scope.value)
  }

  /** One callback: `enterFrom_clause`, `enterSelect_element`,
      `enterJoin_clause`, or one of the empty clause hooks. A select element
      needs a current table: with none the source dereferences null. */
  function Enter(cfg: Allowlist, scope: Scope, ev: Event): (r: Result<Scope, ListenerError>)
    requires InAllowlist(cfg, scope)
    requires ev.EnterSelectElement? ==> scope.Some?
    ensures r.Ok? <==> Admits(cfg, scope, ev)
    ensures r.Ok? ==> r.value == NextScope(scope, ev) && InAllowlist(cfg, r.value)
    ensures ev.EnterFrom? ==> (r.Ok? <==> QueryConfig.IsTableAllowed(cfg, ev.fromTable))
    ensures ev.EnterJoin? ==> (r.Ok? <==> QueryConfig.IsTableAllowed(cfg, ev.joinTable)) && (r.Ok? ==> r.value == scope)
    ensures ev.EnterSelectElement? ==> r.Ok? ==> r.value == scope
    ensures !(ev.EnterFrom? || ev.EnterJoin? || ev.EnterSelectElement?) ==> r == Ok(scope)
    ensures r.Err? ==> r.error == Violation(scope, ev)
  {
    match ev
    case EnterFrom(t) =>
      if !QueryConfig.IsTableAllowed(cfg, t) then Err(TableNotAllowed(t)) else Ok(Some(t))
    case EnterSelectElement(x) =>
      var table := scope.value;
      if IsJsonbAccess(x) then
        if !QueryConfig.IsJsonbFieldAllowed(cfg, table, x) then Err(JsonbFieldNotAllowed(x, table)) else Ok(scope)
      else
        if !QueryConfig.IsColumnAllowed(cfg, table, x) then Err(ColumnNotAllowed(x, table)) else Ok(scope)
    case EnterJoin(t) =>
      if !QueryConfig.IsTableAllowed(cfg, t) then Err(JoiningTableNotAllowed(t)) else Ok(scope)
    case _ => Ok(scope)
  }

  /** Every select element is reached while a table is current. */
  predicate Scoped(scope: Scope, evs: seq<Event>)
    decreases |evs|
  {
    if |evs| == 0 then true
    else if evs[0].EnterSelectElement? then scope.Some? && Scoped(scope, evs[1..])
    else Scoped(NextScope(scope, evs[0]), evs[1..])
  }

  /** The walk: callbacks in order, stopping at the first exception. */
  function Walk(cfg: Allowlist, scope: Scope, evs: seq<Event>): (r: Result<Scope, ListenerError>)
    requires InAllowlist(cfg, scope)
    requires Scoped(scope, evs)
    ensures r.Ok? ==> InAllowlist(cfg, r.value)
    decreases |evs|
  {
    if |evs| == 0 then Ok(scope)
    else
      match Enter(cfg, scope, evs[0])
      case Err(e) => Err(e)
      case Ok(next) => Walk(cfg, next, evs[1..])
  }

  /** The table current just before event `i`: the table of the last FROM
      among the first `i` events, or the initial one. */
  function ScopeAt(scope: Scope, evs: seq<Event>, i: nat): Scope
    requires i <= |evs|
    decreases i
  {
    if i == 0 then scope else NextScope(ScopeAt(scope, evs, i - 1), evs[i - 1])
  }

  lemma {:induction false} ScopeAtShift(scope: Scope, evs: seq<Event>, i: nat)
    requires 0 < |evs| && i < |evs|
    ensures ScopeAt(scope, evs, i + 1) == ScopeAt(NextScope(scope, evs[0]), evs[1..], i)
    decreases i
  {
    if i > 0 {
      ScopeAtShift(scope, evs, i - 1);
    }
  }

  /** The walk accepts exactly the event sequences in which every event
      passes its check against the table current at that point; it then ends
      with the table of the last FROM current. */
  lemma {:induction false} WalkAcceptsIff(cfg: Allowlist, scope: Scope, evs: seq<Event>)
    requires InAllowlist(cfg, scope)
    requires Scoped(scope, evs)
    ensures Walk(cfg, scope, evs).Ok? <==>
      forall i :: 0 <= i < |evs| ==> Admits(cfg, ScopeAt(scope, evs, i), evs[i])
    ensures Walk(cfg, scope, evs).Ok? ==> Walk(cfg, scope, evs).value == ScopeAt(scope, evs, |evs|)
    decreases |evs|
  {
    if |evs| > 0 {
      var first := Enter(cfg, scope, evs[0]);
      if first.Ok? {
        var next := first.value;
        var rest := evs[1..];
        WalkAcceptsIff(cfg, next, rest);
        forall i | 0 <= i < |rest| ensures ScopeAt(scope, evs, i + 1) == ScopeAt(next, rest, i) {
          ScopeAtShift(scope, evs, i);
        }
        ScopeAtShift(scope, evs, |rest|);
        if Walk(cfg, next, rest).Ok? {
          forall i | 0 <= i < |evs| ensures Admits(cfg, ScopeAt(scope, evs, i), evs[i]) {
            if i > 0 {
              assert evs[i] == rest[i - 1];
            }
          }
        } else {
          var j :| 0 <= j < |rest| && !Admits(cfg, ScopeAt(next, rest, j), rest[j]);
          assert evs[j + 1] == rest[j];
        }
      }
    }
  }

  /** A rejected walk stops at the first event that fails its check and
      throws that event's exception. */
  lemma {:induction false} WalkStopsAtFirstViolation(cfg: Allowlist, scope: Scope, evs: seq<Event>) returns (i: nat)
    requires InAllowlist(cfg, scope)
    requires Scoped(scope, evs)
    requires Walk(cfg, scope, evs).Err?
    ensures i < |evs|
    ensures forall j :: 0 <= j < i ==> Admits(cfg, ScopeAt(scope, evs, j), evs[j])
    ensures !Admits(cfg, ScopeAt(scope, evs, i), evs[i])
    ensures evs[i].EnterSelectElement? ==> ScopeAt(scope, evs, i).Some?
    ensures Walk(cfg, scope, evs).error == Violation(ScopeAt(scope, evs, i), evs[i])
    decreases |evs|
  {
    var first := Enter(cfg, scope, evs[0]);
    if first.Err? {
      i := 0;
    } else {
      var next := first.value;
      var rest := evs[1..];
      var k := WalkStopsAtFirstViolation(cfg, next, rest);
      i := k + 1;
      ScopeAtShift(scope, evs, k);
      forall j | 0 <= j < i ensures Admits(cfg, ScopeAt(scope, evs, j), evs[j]) {
        if j > 0 {
          ScopeAtShift(scope, evs, j - 1);
          assert evs[j] == rest[j - 1];
        }
      }
    }
  }

  /** No accepted walk mentions a table outside the allowlist, and every
      select element it accepts is listed for the table current there. */
  lemma AcceptedReferencesAllowed(cfg: Allowlist, scope: Scope, evs: seq<Event>)
    requires InAllowlist(cfg, scope)
    requires Scoped(scope, evs)
    requires Walk(cfg, scope, evs).Ok?
    ensures forall i :: 0 <= i < |evs| && evs[i].EnterFrom? ==> evs[i].fromTable in cfg
    ensures forall i :: 0 <= i < |evs| && evs[i].EnterJoin? ==> evs[i].joinTable in cfg
    ensures forall i :: 0 <= i < |evs| && evs[i].EnterSelectElement? ==>
      var s := ScopeAt(scope, evs, i);
      s.Some? && s.value in cfg && SelectElementAllowed(cfg, s.value, evs[i].text)
  {
    WalkAcceptsIff(cfg, scope, evs);
  }

  /** Text holding `->` but not `->>` is a column, not a JSONB field: it is
      looked up, as its full literal text, in the columns list, and a miss
      raises the column error. */
  lemma ArrowOnlyIsColumn(cfg: Allowlist, table: string, text: string)
    requires table in cfg
    requires Text.Contains(text, "->") && !Text.Contains(text, "->>")
    ensures Admits(cfg, Some(table), EnterSelectElement(text)) <==> QueryConfig.IsColumnAllowed(cfg, table, text)
    ensures Enter(cfg, Some(table), EnterSelectElement(text))
         == if QueryConfig.IsColumnAllowed(cfg, table, text) then Ok(Some(table)) else Err(ColumnNotAllowed(text, table))
  {
  }

  /** `meta->'a'` is such a text. */
  lemma ArrowOnlyExample()
    ensures Text.Contains("meta->'a'", "->") && !Text.Contains("meta->'a'", "->>")
  {
    var s := "meta->'a'";
    assert Text.OccursAt(s, "->", 4);
    Text.ContainsAt(s, "->", 4);
    forall i: nat ensures !Text.OccursAt(s, "->>", i) {
      if i + 3 <= |s| {
        if i == 3 {
          assert s[i..i + 3][0] == 'a';
        } else {
          assert s[i..i + 3][2] == s[i + 2] != '>';
        }
      }
    }
    Text.NotContains(s, "->>");
  }

  // ---------------------------------------------------------------------------
  // The order in which the walker delivers the events

  /** What the listener sees of a parsed query. */
  datatype ParsedQuery = ParsedQuery(
    selectElements: seq<string>,
    fromTable: string,
    joinTables: seq<string>,
    hasWhere: bool,
    hasOrderBy: bool,
    hasLimit: bool,
    hasOffset: bool)

  function SelectEvents(q: ParsedQuery): (r: seq<Event>)
    ensures |r| == |q.selectElements|
    ensures forall i :: 0 <= i < |r| ==> r[i] == EnterSelectElement(q.selectElements[i])
  {
    seq(|q.selectElements|, i requires 0 <= i < |q.selectElements| => EnterSelectElement(q.selectElements[i]))
  }

  function JoinEvents(q: ParsedQuery): (r: seq<Event>)
    ensures |r| == |q.joinTables|
    ensures forall i :: 0 <= i < |r| ==> r[i] == EnterJoin(q.joinTables[i])
  {
    seq(|q.joinTables|, i requires 0 <= i < |q.joinTables| => EnterJoin(q.joinTables[i]))
  }

  function HookEvents(q: ParsedQuery): (r: seq<Event>)
    ensures forall i :: 0 <= i < |r| ==> r[i] in {EnterWhere, EnterOrderBy, EnterLimit, EnterOffset}
  {
    (if q.hasWhere then [EnterWhere] else [])
    + (if q.hasOrderBy then [EnterOrderBy] else [])
    + (if q.hasLimit then [EnterLimit] else [])
    + (if q.hasOffset then [EnterOffset] else [])
  }

  /** Depth-first order over the query rule: the select clause is a child
      before the FROM clause, so its elements are entered first. */
  function TreeOrder(q: ParsedQuery): seq<Event>
  {
    SelectEvents(q) + [EnterFrom(q.fromTable)] + JoinEvents(q) + HookEvents(q)
  }

  /** As written, a fresh listener meets the first select element with no
      current table: no query with a select list is in the walk's domain
      (in the source, `isJsonbFieldAllowed`/`isColumnAllowed` dereference the
      entry of a null table). */
  lemma SelectBeforeFromUnscoped(q: ParsedQuery)
    requires |q.selectElements| > 0
    ensures !Scoped(None, TreeOrder(q))
  {
    assert TreeOrder(q)[0] == EnterSelectElement(q.selectElements[0]);
  }

  /** The order that makes the select checks meaningful: FROM first. */
  function FromFirstOrder(q: ParsedQuery): seq<Event>
  {
    [EnterFrom(q.fromTable)] + SelectEvents(q) + JoinEvents(q) + HookEvents(q)
  }

  lemma {:induction false} FromFirstScopeAt(q: ParsedQuery, i: nat)
    requires 1 <= i <= |FromFirstOrder(q)|
    ensures ScopeAt(None, FromFirstOrder(q), i) == Some(q.fromTable)
    decreases i
  {
    var evs := FromFirstOrder(q);
    if i > 1 {
      FromFirstScopeAt(q, i - 1);
      assert !evs[i - 1].EnterFrom?;
    }
  }

  lemma {:induction false} NoSelectScoped(scope: Scope, evs: seq<Event>)
    requires scope.Some?
    requires forall i :: 0 <= i < |evs| ==> !evs[i].EnterFrom?
    ensures Scoped(scope, evs)
    decreases |evs|
  {
    if |evs| > 0 {
      NoSelectScoped(scope, evs[1..]);
    }
  }

  /** The positions of the FROM-first order: FROM, then the select
      elements, then the joins, then the clause hooks. */
  lemma FromFirstLayout(q: ParsedQuery)
    ensures var evs := FromFirstOrder(q);
      var n := |q.selectElements|;
      var m := |q.joinTables|;
      && |evs| == 1 + n + m + |HookEvents(q)|
      && evs[0] == EnterFrom(q.fromTable)
      && (forall k :: 0 <= k < n ==> evs[1 + k] == EnterSelectElement(q.selectElements[k]))
      && (forall k :: 0 <= k < m ==> evs[1 + n + k] == EnterJoin(q.joinTables[k]))
      && (forall k :: 0 <= k < |HookEvents(q)| ==> evs[1 + n + m + k] == HookEvents(q)[k])
  {
  }

  /** The three allowlist tests the FROM-first walk amounts to. */
  predicate FromFirstAllowed(cfg: Allowlist, q: ParsedQuery)
  {
    && q.fromTable in cfg
    && (forall k :: 0 <= k < |q.selectElements| ==> SelectElementAllowed(cfg, q.fromTable, q.selectElements[k]))
    && (forall k :: 0 <= k < |q.joinTables| ==> q.joinTables[k] in cfg)
  }

  predicate AllAdmitted(cfg: Allowlist, scope: Scope, evs: seq<Event>)
  {
    forall i :: 0 <= i < |evs| ==> Admits(cfg, ScopeAt(scope, evs, i), evs[i])
  }

  lemma FromFirstAdmittedOnlyIfAllowed(cfg: Allowlist, q: ParsedQuery)
    requires AllAdmitted(cfg, None, FromFirstOrder(q))
    ensures FromFirstAllowed(cfg, q)
  {
    var evs := FromFirstOrder(q);
    var n := |q.selectElements|;
    assert Admits(cfg, ScopeAt(None, evs, 0), evs[0]);
    assert q.fromTable in cfg;
    forall k | 0 <= k < n ensures SelectElementAllowed(cfg, q.fromTable, q.selectElements[k]) {
      FromFirstSelectAdmitted(cfg, q, k);
    }
    forall k | 0 <= k < |q.joinTables| ensures q.joinTables[k] in cfg {
      assert evs[1 + n + k] == EnterJoin(q.joinTables[k]);
      assert Admits(cfg, ScopeAt(None, evs, 1 + n + k), evs[1 + n + k]);
    }
  }

  lemma FromFirstSelectAdmitted(cfg: Allowlist, q: ParsedQuery, k: nat)
    requires k < |q.selectElements|
    requires AllAdmitted(cfg, None, FromFirstOrder(q))
    ensures q.fromTable in cfg && SelectElementAllowed(cfg, q.fromTable, q.selectElements[k])
  {
    var evs := FromFirstOrder(q);
    FromFirstLayout(q);
    var e := evs[1 + k];
    assert e == EnterSelectElement(q.selectElements[k]);
    FromFirstScopeAt(q, 1 + k);
    var scope := ScopeAt(None, evs, 1 + k);
    assert scope == Some(q.fromTable);
    assert Admits(cfg, scope, e);
  }

  lemma FromFirstEventAdmitted(cfg: Allowlist, q: ParsedQuery, i: nat)
    requires FromFirstAllowed(cfg, q)
    requires i < |FromFirstOrder(q)|
    ensures Admits(cfg, ScopeAt(None, FromFirstOrder(q), i), FromFirstOrder(q)[i])
  {
    var evs := FromFirstOrder(q);
    var n := |q.selectElements|;
    var m := |q.joinTables|;
    FromFirstLayout(q);
    var e := evs[i];
    if i == 0 {
      assert e == EnterFrom(q.fromTable);
    } else if i < 1 + n {
      assert e == EnterSelectElement(q.selectElements[i - 1]);
      FromFirstScopeAt(q, i);
      var scope := ScopeAt(None, evs, i);
      assert scope == Some(q.fromTable);
      assert SelectElementAllowed(cfg, q.fromTable, q.selectElements[i - 1]);
    } else if i < 1 + n + m {
      assert e == EnterJoin(q.joinTables[i - 1 - n]);
    } else {
      assert e == HookEvents(q)[i - 1 - n - m];
    }
  }

  lemma FromFirstAllowedAdmitted(cfg: Allowlist, q: ParsedQuery)
    requires FromFirstAllowed(cfg, q)
    ensures AllAdmitted(cfg, None, FromFirstOrder(q))
  {
    var evs := FromFirstOrder(q);
    forall i | 0 <= i < |evs| ensures Admits(cfg, ScopeAt(None, evs, i), evs[i]) {
      FromFirstEventAdmitted(cfg, q, i);
    }
  }

  /** In the FROM-first order every event after the first sees the FROM
      table, so the per-event checks amount to the three allowlist tests. */
  lemma FromFirstAdmitsIff(cfg: Allowlist, q: ParsedQuery)
    ensures AllAdmitted(cfg, None, FromFirstOrder(q)) <==> FromFirstAllowed(cfg, q)
  {
    if AllAdmitted(cfg, None, FromFirstOrder(q)) {
      FromFirstAdmittedOnlyIfAllowed(cfg, q);
    }
    if FromFirstAllowed(cfg, q) {
      FromFirstAllowedAdmitted(cfg, q);
    }
  }

  /** The corrected walk: the listener run over the FROM-first order. It
      accepts exactly the queries whose FROM table and JOIN tables are
      allowed and whose every select element is listed for the FROM table. */
  function ValidateParsed(cfg: Allowlist, q: ParsedQuery): (r: Result<Scope, ListenerError>)
    ensures r.Ok? <==>
      && q.fromTable in cfg
      && (forall k :: 0 <= k < |q.selectElements| ==> SelectElementAllowed(cfg, q.fromTable, q.selectElements[k]))
      && (forall k :: 0 <= k < |q.joinTables| ==> q.joinTables[k] in cfg)
    ensures r.Ok? ==> r.value == Some(q.fromTable)
  {
    var evs := FromFirstOrder(q);
    NoSelectScoped(Some(q.fromTable), evs[1..]);
    WalkAcceptsIff(cfg, None, evs);
    FromFirstAdmitsIff(cfg, q);
    FromFirstScopeAt(q, |evs|);
    Walk(cfg, None, evs)
  }
}
