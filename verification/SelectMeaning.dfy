/** What a SELECT means: the scope that its WITH and FROM build, that all its expressions
    can be bound in it, and the columns that its select list stands for. These are
    relations, because the columns of a nested table come in any order. `db` has the tables
    of the catalog, and `names` the CTE names announced so far, wherever in the statement
    that was. `outer` are the scopes around, `chain` those with the one of the select.
 */
module SelectMeaning {
  import opened Basics
  import opened SqlTypes
  import opened Scope
  import opened ColumnBinding
  import opened BinderContext
  import opened StarExpansion
  import opened SelectTree

  type Catalog = map<string, Table>

  // ---- Select lists ----

  /** A column of a bound select list: its alias, its column name if it is a column, the
      name of the expression, and its type. */
  datatype OutColumn = OutColumn(alias: Alias, column: Option<string>, name: string, typ: TypeId)

  const NO_ALIAS: Alias := Alias("", None)

  function AliasOf(alias: string, serial: nat): (a: Alias) {
    if alias == "" then NO_ALIAS else Alias(alias, Some(serial))
  }

  /** How AddNestedTable names the columns; those without a name are not stored. */
  function NestedColumns(outs: seq<OutColumn>): (cs: seq<NestedColumn>) {
    if outs == [] then []
    else
      var o, rest := outs[0], NestedColumns(outs[1..]);
      if o.alias.name != "" then [NestedColumn(o.alias, o.typ)] + rest
      else if o.column.Some? then [NestedColumn(Alias(o.column.value, None), o.typ)] + rest
      else rest
  }

  function SelectColumns(outs: seq<OutColumn>): (cs: seq<SelectColumn>)
    ensures |cs| == |outs|
  {
    seq(|outs|, i requires 0 <= i < |outs| => SelectColumn(outs[i].name, outs[i].typ))
  }

  function StarColumns(refs: seq<ColumnRef>): (outs: seq<OutColumn>)
    ensures |outs| == |refs|
  {
    seq(|refs|, i requires 0 <= i < |refs| => OutColumn(NO_ALIAS, Some(refs[i].column), refs[i].column, refs[i].typ))
  }

  function Written(table: string, column: string): (e: ColumnRef) {
    ColumnRef(table, column, INVALID_OID, INVALID_OID, INVALID_OID, INVALID, -1)
  }

  /** What a reference is after it was looked up `n` times, each time as the lookup before
      had left it. */
  ghost function After(chain: Chain, e: ColumnRef, n: nat): (r: ColumnRef) {
    if n == 0 then e
    else
      var last := After(chain, e, n - 1);
      var bound := Bind(chain, last);
      if bound.Ok? then bound.value else last
  }

  /** What an expression is after `n` visits. Selects in it are as the parser wrote them. */
  ghost function Seen(chain: Chain, e: Expr, n: nat): (r: Expr)
    decreases e
  {
    match e
    case ColumnValue(ref) => ColumnValue(After(chain, ref, n))
    case Operator(es, twice) => Operator(SeenAll(chain, es, Visits(e, n)), twice)
    case Subquery(_) => e
  }

  ghost function SeenAll(chain: Chain, es: seq<Expr>, n: nat): (rs: seq<Expr>)
    ensures |rs| == |es|
    decreases es
  {
    seq(|es|, i requires 0 <= i < |es| => Seen(chain, es[i], n))
  }

  /** How often the children of an operator were visited after `n` visits of it. */
  function Visits(e: Expr, n: nat): (k: nat)
    requires e.Operator?
  {
    if e.twice then 2 * n else n
  }

  lemma {:induction false} SeenNone(chain: Chain, e: Expr)
    ensures Seen(chain, e, 0) == e
    decreases e
  {
    if e.Operator? { SeenNoneAll(chain, e.children); }
  }

  lemma {:induction false} SeenNoneAll(chain: Chain, es: seq<Expr>)
    ensures SeenAll(chain, es, 0) == es
    decreases es
  {
    forall i | 0 <= i < |es| ensures Seen(chain, es[i], 0) == es[i] { SeenNone(chain, es[i]); }
  }

  function NameOr(alias: string, name: string): (n: string) {
    if alias == "" then name else alias
  }

  function BoundColumn(ref: ColumnRef, alias: string, serial: nat): (o: OutColumn) {
    OutColumn(AliasOf(alias, serial), Some(ref.column), NameOr(alias, ref.column), ref.typ)
  }

  /** A select list that was not visited. */
  function Unvisited(items: seq<Item>): (outs: seq<OutColumn>) {
    seq(|items|, i requires 0 <= i < |items| =>
      match items[i]
      case Star(_) => OutColumn(NO_ALIAS, None, "", INVALID)
      case Element(e, alias, serial, name, typ) =>
        OutColumn(AliasOf(alias, serial), if e.ColumnValue? then Some(e.ref.column) else None, name, typ))
  }

  predicate SameTypes(a: seq<OutColumn>, b: seq<OutColumn>) {
    |a| == |b| && forall i :: 0 <= i < |a| ==> a[i].typ == b[i].typ
  }

  predicate HasStar(items: seq<Item>) {
    items != [] && (HasStar(Front(items)) || Last(items).Star?)
  }

  // ---- Scopes ----

  /** The scope has got a nested table with the columns of a select. */
  ghost predicate NestedAs(before: Scope, alias: string, outs: seq<OutColumn>, after: Scope) {
    exists t :: StoredAs(NestedColumns(outs), t) && AddNested(before, alias, t) == Ok(after)
  }

  /** The scope has got a CTE whose columns are those of a select, numbered in order. */
  ghost predicate CteAs(before: Scope, c: Cte, outs: seq<OutColumn>, counter: nat, after: Scope) {
    && |c.names| <= |outs|
    && exists t :: StoredAs(CteColumns(c.names, SelectColumns(outs), counter), t) &&
                   AddCte(before, c.alias, t) == Ok(after)
  }

  /** A select builds the scope `inner` and has the columns `outs`. */
  ghost predicate SelectMeans(db: Catalog, names: Names, s: Select, outer: Chain, inner: Scope, outs: seq<OutColumn>)
    decreases s, 3
  {
    SourceBuilds(db, names, s, outer, inner) && QueryMeans(db, names + SourceNames(s), s, [inner] + outer, outs)
  }

  // ---- What is bound in the scope ----

  ghost predicate QueryMeans(db: Catalog, names: Names, s: Select, chain: Chain, outs: seq<OutColumn>)
    decreases s, 2
  {
    ListBinds(db, names, s, chain, outs) && RestBinds(db, names + ListNames(s), s, chain, outs)
  }

  ghost predicate ListBinds(db: Catalog, names: Names, s: Select, chain: Chain, outs: seq<OutColumn>)
    decreases s, 1
  {
    ConditionsBind(db, names, s, chain) && ItemsBind(db, names + ExprsNames(s.conditions), s, chain, outs)
  }

  ghost predicate ConditionsBind(db: Catalog, names: Names, s: Select, chain: Chain)
    decreases s, 0
  {
    ExprsBind(db, names, s.conditions, chain, 0)
  }

  /** The select list; a star needs a FROM. */
  ghost predicate ItemsBind(db: Catalog, names: Names, s: Select, chain: Chain, outs: seq<OutColumn>)
    decreases s, 0
  {
    ListMeans(db, names, s.items, chain, outs) && (HasStar(s.items) ==> s.from.Some?)
  }

  ghost predicate RestBinds(db: Catalog, names: Names, s: Select, chain: Chain, outs: seq<OutColumn>)
    decreases s, 1
  {
    UnionBinds(db, names, s, chain, outs) && ExprsBind(db, names + UnionNames(s), s.orderBy, chain, 0)
  }

  /** A union is bound inside the scope of the select and has columns of the same types. */
  ghost predicate UnionBinds(db: Catalog, names: Names, s: Select, chain: Chain, outs: seq<OutColumn>)
    decreases s, 0
  {
    s.union.None? ||
    exists inner, others :: SelectMeans(db, names, s.union.value, chain, inner, others) && SameTypes(outs, others)
  }

  /** All columns in an expression that was visited `n` times before can be bound, each
      as the earlier visits left it, and all selects. */
  ghost predicate ExprBinds(db: Catalog, names: Names, e: Expr, chain: Chain, n: nat)
    decreases e
  {
    match e
    case ColumnValue(ref) => Bind(chain, After(chain, ref, n)).Ok?
    case Operator(es, twice) =>
      && ExprsBind(db, names, es, chain, Visits(e, n))
      && (twice ==> ExprsBind(db, names + ExprsNames(es), es, chain, Visits(e, n) + 1))
    case Subquery(s) => exists inner, outs :: SelectMeans(db, names, s, chain, inner, outs)
  }

  ghost predicate ExprsBind(db: Catalog, names: Names, es: seq<Expr>, chain: Chain, n: nat)
    decreases es
  {
    es == [] ||
    (ExprsBind(db, names, Front(es), chain, n) && ExprBinds(db, names + ExprsNames(Front(es)), Last(es), chain, n))
  }

  /** What a select list stands for: the columns of its elements, in order. */
  ghost predicate ListMeans(db: Catalog, names: Names, items: seq<Item>, chain: Chain, outs: seq<OutColumn>)
    decreases items
  {
    if items == [] then outs == []
    else
      exists k :: 0 <= k <= |outs| && ListMeans(db, names, Front(items), chain, outs[..k]) &&
                  ItemMeans(db, names + ItemsNames(Front(items)), Last(items), chain, outs[k..])
  }

  /** What an element of a select list stands for in a chain of scopes. */
  ghost predicate ItemMeans(db: Catalog, names: Names, item: Item, chain: Chain, outs: seq<OutColumn>)
    decreases item
  {
    match item
    case Star(target) => chain != [] && StarMeans(target, chain, outs)
    case Element(e, alias, serial, name, typ) =>
      ExprBinds(db, names, e, chain, 0) && outs == [ElementColumn(item, chain)]
  }

  ghost predicate StarMeans(target: Option<string>, chain: Chain, outs: seq<OutColumn>)
    requires chain != []
  {
    match target
    case None =>
      Listed(chain[0]) && exists refs :: Expansion(chain[0], DepthOf(chain, 0), refs) && outs == StarColumns(refs)
    case Some(t) =>
      t in chain[0].regular && outs == StarColumns(RegularRefs(chain[0].regular[t], t, DepthOf(chain, 0)))
  }

  /** The column of an element whose expression can be bound. */
  ghost function ElementColumn(item: Item, chain: Chain): (o: OutColumn)
    requires item.Element?
  {
    if item.expr.ColumnValue? then BoundColumn(After(chain, item.expr.ref, 1), item.alias, item.serial)
    else
      OutColumn(AliasOf(item.alias, item.serial), None, NameOr(item.alias, item.name), item.typ)
  }

  // ---- WITH and FROM ----

  /** First WITH, then FROM. */
  ghost predicate SourceBuilds(db: Catalog, names: Names, s: Select, outer: Chain, inner: Scope)
    decreases s, 1
  {
    exists ctes :: CtesBuild(db, names, s.ctes, outer, ctes) &&
                   FromBuilds(db, names + CtesNames(s.ctes), s, outer, ctes, inner)
  }

  ghost predicate FromBuilds(db: Catalog, names: Names, s: Select, outer: Chain, before: Scope, after: Scope)
    decreases s, 0
  {
    if s.from.None? then after == before else TableBuilds(db, names, s.from.value, outer, before, after)
  }

  /** The WITH entries, from an empty scope, each in the scope that those before it built. */
  ghost predicate CtesBuild(db: Catalog, names: Names, cs: seq<Cte>, outer: Chain, after: Scope)
    decreases cs
  {
    if cs == [] then after == EMPTY
    else
      exists mid :: CtesBuild(db, names, Front(cs), outer, mid) &&
                    CteBuilds(db, names + CtesNames(Front(cs)), Last(cs), outer, mid, after)
  }

  /** The name is announced, then the columns are found and registered, and then the select
      is bound once more, in the scope that has the entry. */
  ghost predicate CteBuilds(db: Catalog, names: Names, c: Cte, outer: Chain, before: Scope, after: Scope)
    decreases c, 1
  {
    && c.alias != ""
    && CteBindsAgain(db, names + {c.alias} + CteSourceNames(c), c, [after] + outer)
    && exists outs, counter :: CteMeans(db, names + {c.alias}, c, [before] + outer, outs) &&
                               CteAs(before, c, outs, counter, after)
  }

  ghost predicate CteBindsAgain(db: Catalog, names: Names, c: Cte, chain: Chain)
    decreases c, 0
  {
    exists inner, outs :: SelectMeans(db, names, c.select, chain, inner, outs)
  }

  /** The columns of a CTE are those of its select, or of its base case if it has one. */
  ghost predicate CteMeans(db: Catalog, names: Names, c: Cte, outer: Chain, outs: seq<OutColumn>)
    decreases c, 0
  {
    if !c.recursive then exists inner :: SelectMeans(db, names, c.select, outer, inner, outs)
    else if c.select.union.Some? then exists inner :: SelectMeans(db, names, c.select.union.value, outer, inner, outs)
    else outs == Unvisited(c.select.items)
  }

  /** What a table reference adds to a scope. A single table is a CTE if one of that name
      was announced, else a table of the catalog. A derived table does not see itself. */
  ghost predicate TableBuilds(db: Catalog, names: Names, t: TableRef, outer: Chain, before: Scope, after: Scope)
    decreases t
  {
    match t
    case Named(name, alias) => NamedBuilds(db, names, name, alias, outer, before) == Ok(after)
    case Derived(alias, s) =>
      && alias != ""
      && exists inner, outs :: SelectMeans(db, names, s, [before] + outer, inner, outs) &&
                               NestedAs(before, alias, outs, after)
    case Join(l, r, on) =>
      && ExprBinds(db, names + TableNames(l) + TableNames(r), on, [after] + outer, 0)
      && exists mid :: TableBuilds(db, names, l, outer, before, mid) &&
                       TableBuilds(db, names + TableNames(l), r, outer, mid, after)
    case Tables(list) => TablesBuild(db, names, list, outer, before, after)
  }

  function NamedBuilds(db: Catalog, names: Names, name: string, alias: string, outer: Chain, before: Scope)
    : (after: Result<Scope>)
  {
    if name in names then AddCteAlias([before] + outer, name, alias)
    else if name !in db then Throw(UndefinedTable)
    else AddRegular(before, alias, db[name])
  }

  ghost predicate TablesBuild(db: Catalog, names: Names, ts: seq<TableRef>, outer: Chain, before: Scope, after: Scope)
    decreases ts
  {
    if ts == [] then after == before
    else
      exists mid :: TablesBuild(db, names, Front(ts), outer, before, mid) &&
                    TableBuilds(db, names + TablesNames(Front(ts)), Last(ts), outer, mid, after)
  }

  // ---- Columns that are looked up more than once ----

  /** Once bound, a reference is left alone by further lookups if and only if it is stable. */
  lemma {:induction false} SettledIff(chain: Chain, e: ColumnRef)
    requires LowerCase(chain, e) && ValidChain(chain) && Bind(chain, e).Ok?
    ensures Bind(chain, After(chain, e, 1)) == Ok(After(chain, e, 1)) <==> Stable(chain, e)
    ensures Stable(chain, e) ==> forall n: nat :: n > 0 ==> After(chain, e, n) == After(chain, e, 1)
  {
    assert After(chain, e, 0) == e && After(chain, e, 1) == Bind(chain, e).value;
    RebindIff(chain, e);
    if Stable(chain, e) {
      forall n: nat | n > 0 ensures After(chain, e, n) == After(chain, e, 1) { Settled(chain, e, n); }
    }
  }

  lemma {:induction false} Settled(chain: Chain, e: ColumnRef, n: nat)
    requires n > 0 && Bind(chain, After(chain, e, 1)) == Ok(After(chain, e, 1))
    ensures After(chain, e, n) == After(chain, e, 1)
    decreases n
  {
    if n > 1 { Settled(chain, e, n - 1); }
  }

  /** A comparison of two columns, at its first visit: both are found, and both are found again
      as the first lookup left them. */
  lemma {:induction false} ComparisonBinds(db: Catalog, names: Names, l: ColumnRef, r: ColumnRef, chain: Chain)
    ensures ExprBinds(db, names, Operator([ColumnValue(l), ColumnValue(r)], true), chain, 0) <==>
              && Bind(chain, l).Ok? && Bind(chain, r).Ok?
              && Bind(chain, Bind(chain, l).value).Ok? && Bind(chain, Bind(chain, r).value).Ok?
  {
    var es := [ColumnValue(l), ColumnValue(r)];
    TwoBind(db, names, es, chain, 0);
    TwoBind(db, names + ExprsNames(es), es, chain, 1);
    assert After(chain, l, 0) == l && After(chain, r, 0) == r;
  }

  lemma {:induction false} TwoBind(db: Catalog, names: Names, es: seq<Expr>, chain: Chain, n: nat)
    requires |es| == 2 && es[0].ColumnValue? && es[1].ColumnValue?
    ensures ExprsBind(db, names, es, chain, n) <==>
              Bind(chain, After(chain, es[0].ref, n)).Ok? && Bind(chain, After(chain, es[1].ref, n)).Ok?
  {
    assert Front(es) == [es[0]] && Last(es) == es[1] && Front([es[0]]) == [] && Last([es[0]]) == es[0];
    assert ExprsBind(db, names, [], chain, n) && ExprsNames([]) == {} && names + {} == names;
    assert ExprsBind(db, names, [es[0]], chain, n) <==> ExprBinds(db, names, es[0], chain, n);
  }

  // ---- Putting the parts together ----

  lemma {:induction false} ExprsBound(db: Catalog, names: Names, es: seq<Expr>, i: nat, chain: Chain, n: nat)
    requires i < |es| && ExprsBind(db, names, es[..i], chain, n)
    requires ExprBinds(db, names + ExprsNames(es[..i]), es[i], chain, n)
    ensures ExprsBind(db, names, es[..i + 1], chain, n)
  {
    assert Front(es[..i + 1]) == es[..i];
  }

  lemma {:induction false} ListBound(
    db: Catalog, names: Names, items: seq<Item>, i: nat, chain: Chain, outs: seq<OutColumn>, more: seq<OutColumn>)
    requires i < |items| && ListMeans(db, names, items[..i], chain, outs)
    requires ItemMeans(db, names + ItemsNames(items[..i]), items[i], chain, more)
    ensures ListMeans(db, names, items[..i + 1], chain, outs + more)
    ensures HasStar(items[..i + 1]) <==> HasStar(items[..i]) || items[i].Star?
  {
    var all, k := outs + more, |outs|;
    assert Front(items[..i + 1]) == items[..i] && all[..k] == outs && all[k..] == more;
  }

  lemma {:induction false} TwiceBound(db: Catalog, names: Names, later: Names, e: Expr, chain: Chain, n: nat)
    requires e.Operator? && ExprsBind(db, names, e.children, chain, Visits(e, n))
    requires later == names + ExprsNames(e.children) && ExprsBind(db, later, e.children, chain, Visits(e, n) + 1)
    ensures ExprBinds(db, names, e, chain, n)
  {
  }

  lemma {:induction false} SourceBuilt(db: Catalog, names: Names, s: Select, outer: Chain, mid: Scope, inner: Scope)
    requires CtesBuild(db, names, s.ctes, outer, mid)
    requires FromBuilds(db, names + CtesNames(s.ctes), s, outer, mid, inner)
    ensures SourceBuilds(db, names, s, outer, inner)
  {
  }

  lemma {:induction false} CtesBuilt(
    db: Catalog, names: Names, cs: seq<Cte>, i: nat, outer: Chain, mid: Scope, after: Scope)
    requires i < |cs| && CtesBuild(db, names, cs[..i], outer, mid)
    requires CteBuilds(db, names + CtesNames(cs[..i]), cs[i], outer, mid, after)
    ensures CtesBuild(db, names, cs[..i + 1], outer, after)
  {
    assert Front(cs[..i + 1]) == cs[..i];
  }

  lemma {:induction false} CteBuilt(db: Catalog, names: Names, c: Cte, outer: Chain, before: Scope,
                                    outs: seq<OutColumn>, counter: nat, after: Scope)
    requires c.alias != "" && CteMeans(db, names + {c.alias}, c, [before] + outer, outs)
    requires CteAs(before, c, outs, counter, after)
    requires CteBindsAgain(db, names + {c.alias} + CteSourceNames(c), c, [after] + outer)
    ensures CteBuilds(db, names, c, outer, before, after)
  {
  }

  lemma {:induction false} DerivedBuilt(db: Catalog, names: Names, t: TableRef, outer: Chain, before: Scope,
                                        inner: Scope, outs: seq<OutColumn>, after: Scope)
    requires t.Derived? && t.alias != "" && SelectMeans(db, names, t.select, [before] + outer, inner, outs)
    requires NestedAs(before, t.alias, outs, after)
    ensures TableBuilds(db, names, t, outer, before, after)
  {
  }

  lemma {:induction false} JoinBuilt(db: Catalog, names: Names, t: TableRef, outer: Chain, before: Scope,
                                     mid: Scope, after: Scope)
    requires t.Join? && TableBuilds(db, names, t.left, outer, before, mid)
    requires TableBuilds(db, names + TableNames(t.left), t.right, outer, mid, after)
    requires ExprBinds(db, names + TableNames(t.left) + TableNames(t.right), t.on, [after] + outer, 0)
    ensures TableBuilds(db, names, t, outer, before, after)
  {
  }

  lemma {:induction false} TablesBuilt(
    db: Catalog, names: Names, ts: seq<TableRef>, i: nat, outer: Chain, before: Scope,
    mid: Scope, after: Scope)
    requires i < |ts| && TablesBuild(db, names, ts[..i], outer, before, mid)
    requires TableBuilds(db, names + TablesNames(ts[..i]), ts[i], outer, mid, after)
    ensures TablesBuild(db, names, ts[..i + 1], outer, before, after)
  {
    assert Front(ts[..i + 1]) == ts[..i];
  }

  // ---- Taking them apart ----

  lemma {:induction false} SourceParts(
    db: Catalog, names: Names, s: Select, outer: Chain, inner: Scope)
    returns (ctes: Scope)
    requires SourceBuilds(db, names, s, outer, inner)
    ensures CtesBuild(db, names, s.ctes, outer, ctes)
    ensures FromBuilds(db, names + CtesNames(s.ctes), s, outer, ctes, inner)
  {
    ctes :| CtesBuild(db, names, s.ctes, outer, ctes) &&
            FromBuilds(db, names + CtesNames(s.ctes), s, outer, ctes, inner);
  }

  lemma {:induction false} CtesParts(
    db: Catalog, names: Names, cs: seq<Cte>, outer: Chain, after: Scope)
    returns (mid: Scope)
    requires cs != [] && CtesBuild(db, names, cs, outer, after)
    ensures CtesBuild(db, names, Front(cs), outer, mid)
    ensures CteBuilds(db, names + CtesNames(Front(cs)), Last(cs), outer, mid, after)
  {
    mid :| CtesBuild(db, names, Front(cs), outer, mid) &&
           CteBuilds(db, names + CtesNames(Front(cs)), Last(cs), outer, mid, after);
  }

  lemma {:induction false} CteParts(db: Catalog, names: Names, c: Cte, outer: Chain, before: Scope, after: Scope)
    returns (outs: seq<OutColumn>, counter: nat)
    requires CteBuilds(db, names, c, outer, before, after)
    ensures CteMeans(db, names + {c.alias}, c, [before] + outer, outs) && CteAs(before, c, outs, counter, after)
  {
    outs, counter :| CteMeans(db, names + {c.alias}, c, [before] + outer, outs) &&
                     CteAs(before, c, outs, counter, after);
  }

  lemma {:induction false} CteSelect(
    db: Catalog, names: Names, c: Cte, outer: Chain, outs: seq<OutColumn>)
    returns (inner: Scope)
    requires CteSource(c).Some? && CteMeans(db, names, c, outer, outs)
    ensures SelectMeans(db, names, CteSource(c).value, outer, inner, outs)
  {
    inner :| SelectMeans(db, names, CteSource(c).value, outer, inner, outs);
  }

  lemma {:induction false} DerivedParts(
    db: Catalog, names: Names, alias: string, s: Select, outer: Chain, before: Scope, after: Scope)
    returns (inner: Scope, outs: seq<OutColumn>)
    requires TableBuilds(db, names, Derived(alias, s), outer, before, after)
    ensures SelectMeans(db, names, s, [before] + outer, inner, outs) && NestedAs(before, alias, outs, after)
  {
    inner, outs :| SelectMeans(db, names, s, [before] + outer, inner, outs) && NestedAs(before, alias, outs, after);
  }

  lemma {:induction false} TablesParts(
    db: Catalog, names: Names, ts: seq<TableRef>, outer: Chain, before: Scope, after: Scope)
    returns (mid: Scope)
    requires ts != [] && TablesBuild(db, names, ts, outer, before, after)
    ensures TablesBuild(db, names, Front(ts), outer, before, mid)
    ensures TableBuilds(db, names + TablesNames(Front(ts)), Last(ts), outer, mid, after)
  {
    mid :| TablesBuild(db, names, Front(ts), outer, before, mid) &&
           TableBuilds(db, names + TablesNames(Front(ts)), Last(ts), outer, mid, after);
  }
}
