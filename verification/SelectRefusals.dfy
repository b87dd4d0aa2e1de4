/** When a SELECT can be refused, and with which exception: some part of it is refused, and
    the parts before it mean what they mean in some run. Together with SelectMeaning it
    says what every visit comes to.
 */
module SelectRefusals {
  import opened Basics
  import opened SqlTypes
  import opened Scope
  import opened ColumnBinding
  import opened BinderContext
  import opened StarExpansion
  import opened SelectTree
  import opened SelectMeaning

  ghost predicate SelectRefuses(db: Catalog, names: Names, s: Select, outer: Chain, err: BinderError)
    decreases s, 4
  {
    || SourceRefuses(db, names, s, outer, err)
    || exists inner :: SourceBuilds(db, names, s, outer, inner) &&
                       QueryRefuses(db, names + SourceNames(s), s, [inner] + outer, err)
  }

  // ---- What is bound in the scope ----

  ghost predicate QueryRefuses(db: Catalog, names: Names, s: Select, chain: Chain, err: BinderError)
    decreases s, 3
  {
    || ListRefuses(db, names, s, chain, err)
    || exists outs :: ListBinds(db, names, s, chain, outs) &&
                      RestRefuses(db, names + ListNames(s), s, chain, outs, err)
  }

  ghost predicate ListRefuses(db: Catalog, names: Names, s: Select, chain: Chain, err: BinderError)
    decreases s, 1
  {
    || ConditionsRefuse(db, names, s, chain, err)
    || (ConditionsBind(db, names, s, chain) && ItemsRefuse(db, names + ExprsNames(s.conditions), s, chain, err))
  }

  ghost predicate ConditionsRefuse(db: Catalog, names: Names, s: Select, chain: Chain, err: BinderError)
    decreases s, 0
  {
    ExprsRefuse(db, names, s.conditions, chain, 0, err)
  }

  /** An element of the select list is refused after those before it. */
  ghost predicate ItemsRefuse(db: Catalog, names: Names, s: Select, chain: Chain, err: BinderError)
    decreases s, 0
  {
    exists i, outs :: 0 <= i < |s.items| && ListMeans(db, names, s.items[..i], chain, outs) &&
                      (HasStar(s.items[..i]) ==> s.from.Some?) &&
                      ItemRefuses(db, names + ItemsNames(s.items[..i]), s.items[i], s.from.Some?, chain, err)
  }

  ghost predicate ItemRefuses(
    db: Catalog, names: Names, item: Item, hasFrom: bool, chain: Chain, err: BinderError)
    decreases item
  {
    match item
    case Star(target) =>
      if !hasFrom then err == SyntaxError
      else target.Some? && chain != [] && target.value !in chain[0].regular && err == UndefinedTable
    case Element(e, _, _, _, _) => ExprRefuses(db, names, e, chain, 0, err)
  }

  ghost predicate RestRefuses(
    db: Catalog, names: Names, s: Select, chain: Chain, outs: seq<OutColumn>, err: BinderError)
    decreases s, 2
  {
    || UnionRefuses(db, names, s, chain, outs, err)
    || (UnionBinds(db, names, s, chain, outs) && ExprsRefuse(db, names + UnionNames(s), s.orderBy, chain, 0, err))
  }

  ghost predicate UnionRefuses(
    db: Catalog, names: Names, s: Select, chain: Chain, outs: seq<OutColumn>, err: BinderError)
    decreases s, 0
  {
    && s.union.Some?
    && (|| SelectRefuses(db, names, s.union.value, chain, err)
        || (err == DatatypeMismatch &&
            exists inner, others :: SelectMeans(db, names, s.union.value, chain, inner, others) &&
                                    !SameTypes(outs, others)))
  }

  /** An expression that was visited `n` times before. */
  ghost predicate ExprRefuses(db: Catalog, names: Names, e: Expr, chain: Chain, n: nat, err: BinderError)
    decreases e
  {
    match e
    case ColumnValue(ref) => Bind(chain, After(chain, ref, n)) == Throw(err)
    case Operator(es, twice) =>
      || ExprsRefuse(db, names, es, chain, Visits(e, n), err)
      || (twice && ExprsBind(db, names, es, chain, Visits(e, n)) &&
          ExprsRefuse(db, names + ExprsNames(es), es, chain, Visits(e, n) + 1, err))
    case Subquery(s) => SelectRefuses(db, names, s, chain, err)
  }

  ghost predicate ExprsRefuse(db: Catalog, names: Names, es: seq<Expr>, chain: Chain, n: nat, err: BinderError)
    decreases es
  {
    exists i :: 0 <= i < |es| && ExprsBind(db, names, es[..i], chain, n) &&
                ExprRefuses(db, names + ExprsNames(es[..i]), es[i], chain, n, err)
  }

  // ---- WITH and FROM ----

  ghost predicate SourceRefuses(db: Catalog, names: Names, s: Select, outer: Chain, err: BinderError)
    decreases s, 1
  {
    || CtesRefuse(db, names, s.ctes, outer, err)
    || exists ctes :: CtesBuild(db, names, s.ctes, outer, ctes) &&
                      FromRefuses(db, names + CtesNames(s.ctes), s, outer, ctes, err)
  }

  ghost predicate FromRefuses(db: Catalog, names: Names, s: Select, outer: Chain, before: Scope, err: BinderError)
    decreases s, 0
  {
    s.from.Some? && TableRefuses(db, names, s.from.value, outer, before, err)
  }

  ghost predicate CtesRefuse(db: Catalog, names: Names, cs: seq<Cte>, outer: Chain, err: BinderError)
    decreases cs
  {
    exists i, mid :: 0 <= i < |cs| && CtesBuild(db, names, cs[..i], outer, mid) &&
                     CteRefuses(db, names + CtesNames(cs[..i]), cs[i], outer, mid, err)
  }

  /** Its columns cannot be found, or not be registered, or the second visit fails. */
  ghost predicate CteRefuses(db: Catalog, names: Names, c: Cte, outer: Chain, before: Scope, err: BinderError)
    decreases c, 2
  {
    || OpenRefuses(db, names, c, outer, before, err)
    || exists outs, counter, after :: CteMeans(db, names + {c.alias}, c, [before] + outer, outs) &&
                                      CteAs(before, c, outs, counter, after) &&
                                      AgainRefuses(db, names + {c.alias} + CteSourceNames(c), c, [after] + outer, err)
  }

  ghost predicate OpenRefuses(db: Catalog, names: Names, c: Cte, outer: Chain, before: Scope, err: BinderError)
    decreases c, 1
  {
    || CteSourceRefuses(db, names + {c.alias}, c, [before] + outer, err)
    || exists outs :: CteMeans(db, names + {c.alias}, c, [before] + outer, outs) &&
                      RegisterRefuses(before, c, outs, err)
  }

  ghost predicate CteSourceRefuses(db: Catalog, names: Names, c: Cte, chain: Chain, err: BinderError)
    decreases c, 0
  {
    if !c.recursive then AgainRefuses(db, names, c, chain, err)
    else c.select.union.Some? && SelectRefuses(db, names, c.select.union.value, chain, err)
  }

  ghost predicate AgainRefuses(db: Catalog, names: Names, c: Cte, chain: Chain, err: BinderError)
    decreases c.select, 5
  {
    if c.alias == "" then err == UndefinedTable else SelectRefuses(db, names, c.select, chain, err)
  }

  /** More names than columns, or a CTE of that name in the same WITH. */
  ghost predicate RegisterRefuses(before: Scope, c: Cte, outs: seq<OutColumn>, err: BinderError) {
    if |c.names| > |outs| then err == InvalidSchemaDefinition
    else c.alias in before.nested && err == DuplicateTable
  }

  ghost predicate TableRefuses(db: Catalog, names: Names, t: TableRef, outer: Chain, before: Scope, err: BinderError)
    decreases t
  {
    match t
    case Named(name, alias) => NamedBuilds(db, names, name, alias, outer, before) == Throw(err)
    case Derived(alias, s) =>
      if alias == "" then err == UndefinedTable
      else
        || SelectRefuses(db, names, s, [before] + outer, err)
        || (err == DuplicateAlias && HasAlias(before, alias) &&
            exists inner, outs :: SelectMeans(db, names, s, [before] + outer, inner, outs))
    case Join(l, r, on) =>
      || TableRefuses(db, names, l, outer, before, err)
      || (exists mid :: TableBuilds(db, names, l, outer, before, mid) &&
                        TableRefuses(db, names + TableNames(l), r, outer, mid, err))
      || (exists mid, after :: TableBuilds(db, names, l, outer, before, mid) &&
                               TableBuilds(db, names + TableNames(l), r, outer, mid, after) &&
                               ExprRefuses(db, names + TableNames(l) + TableNames(r), on, [after] + outer, 0, err))
    case Tables(list) => TablesRefuse(db, names, list, outer, before, err)
  }

  ghost predicate TablesRefuse(
    db: Catalog, names: Names, ts: seq<TableRef>, outer: Chain, before: Scope, err: BinderError)
    decreases ts
  {
    exists i, mid :: 0 <= i < |ts| && TablesBuild(db, names, ts[..i], outer, before, mid) &&
                     TableRefuses(db, names + TablesNames(ts[..i]), ts[i], outer, mid, err)
  }

  // ---- Putting the parts together ----

  lemma {:induction false} SelectRefused(
    db: Catalog, names: Names, s: Select, outer: Chain, inner: Scope, err: BinderError)
    requires SourceBuilds(db, names, s, outer, inner)
    requires QueryRefuses(db, names + SourceNames(s), s, [inner] + outer, err)
    ensures SelectRefuses(db, names, s, outer, err)
  {
  }

  lemma {:induction false} QueryRefused(
    db: Catalog, names: Names, later: Names, s: Select, chain: Chain, outs: seq<OutColumn>, err: BinderError)
    requires ListBinds(db, names, s, chain, outs) && later == names + ListNames(s)
    requires RestRefuses(db, later, s, chain, outs, err)
    ensures QueryRefuses(db, names, s, chain, err)
  {
  }

  lemma {:induction false} ItemsRefused(
    db: Catalog, names: Names, s: Select, i: nat, chain: Chain, outs: seq<OutColumn>, err: BinderError)
    requires i < |s.items| && ListMeans(db, names, s.items[..i], chain, outs)
    requires HasStar(s.items[..i]) ==> s.from.Some?
    requires ItemRefuses(db, names + ItemsNames(s.items[..i]), s.items[i], s.from.Some?, chain, err)
    ensures ItemsRefuse(db, names, s, chain, err)
  {
  }

  lemma {:induction false} UnionRefused(
    db: Catalog, names: Names, s: Select, chain: Chain, outs: seq<OutColumn>, inner: Scope, others: seq<OutColumn>)
    requires s.union.Some? && SelectMeans(db, names, s.union.value, chain, inner, others) && !SameTypes(outs, others)
    ensures UnionRefuses(db, names, s, chain, outs, DatatypeMismatch)
  {
  }

  lemma {:induction false} TwiceRefused(
    db: Catalog, names: Names, later: Names, e: Expr, chain: Chain, n: nat, err: BinderError)
    requires e.Operator? && e.twice && ExprsBind(db, names, e.children, chain, Visits(e, n))
    requires later == names + ExprsNames(e.children)
    requires ExprsRefuse(db, later, e.children, chain, Visits(e, n) + 1, err)
    ensures ExprRefuses(db, names, e, chain, n, err)
  {
  }

  lemma {:induction false} ExprsRefused(
    db: Catalog, names: Names, es: seq<Expr>, i: nat, chain: Chain, n: nat, err: BinderError)
    requires i < |es| && ExprsBind(db, names, es[..i], chain, n)
    requires ExprRefuses(db, names + ExprsNames(es[..i]), es[i], chain, n, err)
    ensures ExprsRefuse(db, names, es, chain, n, err)
  {
  }

  lemma {:induction false} SourceRefused(
    db: Catalog, names: Names, later: Names, s: Select, outer: Chain, ctes: Scope, err: BinderError)
    requires CtesBuild(db, names, s.ctes, outer, ctes) && later == names + CtesNames(s.ctes)
    requires FromRefuses(db, later, s, outer, ctes, err)
    ensures SourceRefuses(db, names, s, outer, err)
  {
  }

  lemma {:induction false} CtesRefused(
    db: Catalog, names: Names, cs: seq<Cte>, i: nat, outer: Chain, mid: Scope, err: BinderError)
    requires i < |cs| && CtesBuild(db, names, cs[..i], outer, mid)
    requires CteRefuses(db, names + CtesNames(cs[..i]), cs[i], outer, mid, err)
    ensures CtesRefuse(db, names, cs, outer, err)
  {
  }

  lemma {:induction false} OpenRefused(
    db: Catalog, names: Names, c: Cte, outer: Chain, before: Scope, outs: seq<OutColumn>, err: BinderError)
    requires CteMeans(db, names + {c.alias}, c, [before] + outer, outs) && RegisterRefuses(before, c, outs, err)
    ensures OpenRefuses(db, names, c, outer, before, err)
  {
  }

  lemma {:induction false} CteRefused(
    db: Catalog, names: Names, later: Names, c: Cte, outer: Chain, before: Scope,
    outs: seq<OutColumn>, counter: nat, after: Scope, err: BinderError)
    requires CteMeans(db, names + {c.alias}, c, [before] + outer, outs) && CteAs(before, c, outs, counter, after)
    requires later == names + ({c.alias} + CteSourceNames(c)) && AgainRefuses(db, later, c, [after] + outer, err)
    ensures CteRefuses(db, names, c, outer, before, err)
  {
    assert later == names + {c.alias} + CteSourceNames(c);
  }

  lemma {:induction false} DerivedRefused(
    db: Catalog, names: Names, t: TableRef, outer: Chain, before: Scope, inner: Scope, outs: seq<OutColumn>)
    requires t.Derived? && t.alias != "" && HasAlias(before, t.alias)
    requires SelectMeans(db, names, t.select, [before] + outer, inner, outs)
    ensures TableRefuses(db, names, t, outer, before, DuplicateAlias)
  {
  }

  lemma {:induction false} RightRefused(
    db: Catalog, names: Names, later: Names, t: TableRef, outer: Chain, before: Scope, mid: Scope, err: BinderError)
    requires t.Join? && TableBuilds(db, names, t.left, outer, before, mid) && later == names + TableNames(t.left)
    requires TableRefuses(db, later, t.right, outer, mid, err)
    ensures TableRefuses(db, names, t, outer, before, err)
  {
  }

  lemma {:induction false} OnRefused(
    db: Catalog, names: Names, later: Names, t: TableRef, outer: Chain, before: Scope, mid: Scope, after: Scope,
    err: BinderError)
    requires t.Join? && TableBuilds(db, names, t.left, outer, before, mid)
    requires TableBuilds(db, names + TableNames(t.left), t.right, outer, mid, after)
    requires later == names + (TableNames(t.left) + TableNames(t.right))
    requires ExprRefuses(db, later, t.on, [after] + outer, 0, err)
    ensures TableRefuses(db, names, t, outer, before, err)
  {
    assert later == names + TableNames(t.left) + TableNames(t.right);
  }

  lemma {:induction false} TablesRefused(
    db: Catalog, names: Names, ts: seq<TableRef>, i: nat, outer: Chain, before: Scope, mid: Scope, err: BinderError)
    requires i < |ts| && TablesBuild(db, names, ts[..i], outer, before, mid)
    requires TableRefuses(db, names + TablesNames(ts[..i]), ts[i], outer, mid, err)
    ensures TablesRefuse(db, names, ts, outer, before, err)
  {
  }
}
