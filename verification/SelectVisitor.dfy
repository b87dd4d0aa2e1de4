/** The visits of src/binder/bind_node_visitor.cpp that open and leave scopes: SELECT
    with its CTEs, tables, expressions and unions. The parse tree is a value; what the
    visitor changes in it, the depth of each select, is kept in a map.
 */
module SelectVisitor {
  import opened Basics
  import opened SqlTypes
  import opened Scope
  import opened ColumnBinding
  import opened BinderContext
  import opened BinderSherpa
  import opened StarExpansion
  import opened SelectTree
  import opened SelectDepths
  import opened SelectMeaning
  import opened SelectRefusals

  /** A scope in the WITH phase: no regular tables yet. */
  ghost predicate OnlyCtes(s: Scope) {
    s.regular == map[] && s.list == []
  }

  /** Each scope that was left in between is sound. */
  ghost predicate LeftSound(before: seq<Scope>, after: seq<Scope>) {
    after == before || (after != [] && LeftSound(before, Front(after)) && Sound(Last(after)))
  }

  lemma {:induction false} LeftThen(a: seq<Scope>, b: seq<Scope>, c: seq<Scope>)
    requires LeftSound(a, b) && LeftSound(b, c)
    ensures LeftSound(a, c)
    decreases |c|
  {
    if c != b { LeftThen(a, b, Front(c)); }
  }

  lemma {:induction false} LeftOne(a: seq<Scope>, b: seq<Scope>, s: Scope)
    requires LeftSound(a, b) && Sound(s)
    ensures LeftSound(a, b + [s])
  {
    assert Front(b + [s]) == b;
  }

  /** What a visitor has done so far. */
  datatype Record = Record(depths: Depths, names: Names, left: seq<Scope>)

  /** A visit that wrote the depths `ws`, in order, and announced the names `ns`. */
  ghost predicate Visiting(a: Record, ws: Writes, ns: Names, b: Record) {
    Wrote(a.depths, ws, b.depths) && b.names == a.names + ns && LeftSound(a.left, b.left)
  }

  lemma {:induction false} VisitingNone(a: Record)
    ensures Visiting(a, [], {}, a)
  {
  }

  /** One visit after the other. */
  lemma {:induction false} VisitingThen(a: Record, u: Writes, m: Names, b: Record, v: Writes, n: Names, c: Record)
    requires Visiting(a, u, m, b) && Visiting(b, v, n, c)
    ensures Visiting(a, u + v, m + n, c)
  {
    WroteThen(a.depths, u, b.depths, v, c.depths);
    LeftThen(a.left, b.left, c.left);
  }

  class BindNodeVisitor {
    var context: BinderContext?
    /** The depth assigned to each select. */
    var depths: Depths
    /** The names of all CTEs announced so far, in whatever scope. */
    var cteTableNames: Names
    /** The scopes left so far, as they were. */
    ghost var left: seq<Scope>
    const accessor: CatalogAccessor
    /** The tables the catalog knows. */
    const tables: Catalog

    constructor (accessor: CatalogAccessor, tables: Catalog)
      ensures context == null && depths == map[] && cteTableNames == {} && left == []
      ensures this.accessor == accessor && this.tables == tables
    {
      this.accessor, this.tables := accessor, tables;
      context, depths, cteTableNames, left := null, map[], {}, [];
    }

    ghost predicate Ready()
      reads this, accessor
    {
      && accessor.tempOidCounter < OIDS
      && (context != null ==> context.Linked() && context !in context.above)
    }

    /** The depth of a select that is visited here. */
    function Depth(): (n: nat)
      reads this
    {
      if context == null then 0 else context.depth + 1
    }

    ghost function Now(): (a: Record)
      reads this
    {
      Record(depths, cteTableNames, left)
    }

    /** A visit that came to its end: the scope is the one before, the depths `ws` were
        written, exactly the names `ns` were announced, and the scopes opened in between
        were sound. */
    twostate predicate Visited(new ws: Writes, new ns: Names)
      reads this, accessor
    {
      Ready() && context == old(context) && Visiting(old(Now()), ws, ns, Now())
    }

    /** What happens to one scope does not change those around it. */
    static twostate lemma UpperKept(c: BinderContext)
      requires c.Linked() && c !in c.above && forall o :: o in c.above ==> unchanged(o)
      ensures ScopesOf(c.upper) == old(ScopesOf(c.upper))
    {
      c.ScopesAround();
      if c.upper != null {
        assert c.above == [c.upper] + c.upper.above;
        forall k | 0 <= k <= |c.upper.above| ensures c.upper.Scopes()[k] == old(c.upper.Scopes())[k] {
          assert c.upper.At(k) == c.above[k] && c.above[k] in c.above;
        }
        assert c.upper.Scopes() == old(c.upper.Scopes());
      }
    }

    lemma {:induction false} HereAnd(outer: Chain)
      requires Ready() && context != null && ScopesOf(context.upper) == outer
      ensures ScopesOf(context) == [context.Here()] + outer
    {
      context.ScopesAround();
    }

    /** An expression that is what `seen` visits made of `p`. */
    method VisitExpr(e: Expr, ghost p: Expr, ghost seen: nat, ghost chain: Chain) returns (r: Result<Expr>)
      requires Ready() && ScopesOf(context) == chain && e == Seen(chain, p, seen)
      modifies this, accessor
      ensures r.Ok? ==> Visited(ExprWrites(p, old(Depth())), ExprNames(p)) && ScopesOf(context) == chain
      ensures r.Ok? ==> ExprBinds(tables, old(cteTableNames), p, chain, seen) && r.value == Seen(chain, p, seen + 1)
      ensures r.Throw? ==> ExprRefuses(tables, old(cteTableNames), p, chain, seen, r.error)
      decreases p, 1
    {
      match e
      case ColumnValue(ref) =>
        var expr := new ColumnValueExpression(ref);
        var bound := BindColumn(context, expr);
        if bound.Throw? { return Throw(bound.error); }
        VisitingNone(Now());
        return Ok(ColumnValue(expr.Value()));
      case Operator(_, _) =>
        r := VisitOperator(e, p, seen, chain);
      case Subquery(select) =>
        ghost var inner;
        var columns;
        columns, inner := VisitSelect(select, chain);
        if columns.Throw? { return Throw(columns.error); }
        return Ok(e);
    }

    /** The children of an operator, which some operators visit twice. */
    method VisitOperator(e: Expr, ghost p: Expr, ghost seen: nat, ghost chain: Chain) returns (r: Result<Expr>)
      requires e.Operator? && Ready() && ScopesOf(context) == chain && e == Seen(chain, p, seen)
      modifies this, accessor
      ensures r.Ok? ==> Visited(ExprWrites(p, old(Depth())), ExprNames(p)) && ScopesOf(context) == chain
      ensures r.Ok? ==> ExprBinds(tables, old(cteTableNames), p, chain, seen) && r.value == Seen(chain, p, seen + 1)
      ensures r.Throw? ==> ExprRefuses(tables, old(cteTableNames), p, chain, seen, r.error)
      decreases p, 0
    {
      ghost var n, a, k := Depth(), Now(), Visits(p, seen);
      var first := VisitExprs(e.children, p.children, k, chain);
      if first.Throw? { return Throw(first.error); }
      if !e.twice { return Ok(Operator(first.value, false)); }
      ghost var b := Now();
      var second := VisitExprs(first.value, p.children, k + 1, chain);
      if second.Throw? {
        TwiceRefused(tables, a.names, b.names, p, chain, seen, second.error);
        return Throw(second.error);
      }
      TwiceVisited(p, n, a, b, Now());
      TwiceBound(tables, a.names, b.names, p, chain, seen);
      return Ok(Operator(second.value, true));
    }

    method VisitExprs(es: seq<Expr>, ghost ps: seq<Expr>, ghost seen: nat, ghost chain: Chain)
      returns (r: Result<seq<Expr>>)
      requires Ready() && ScopesOf(context) == chain && es == SeenAll(chain, ps, seen)
      modifies this, accessor
      ensures r.Ok? ==> Visited(ExprsWrites(ps, old(Depth())), ExprsNames(ps)) && ScopesOf(context) == chain
      ensures r.Ok? ==>
                ExprsBind(tables, old(cteTableNames), ps, chain, seen) && r.value == SeenAll(chain, ps, seen + 1)
      ensures r.Throw? ==> ExprsRefuse(tables, old(cteTableNames), ps, chain, seen, r.error)
      decreases ps
    {
      ghost var n, a := Depth(), Now();
      VisitingNone(a);
      var rs := [];
      for i := 0 to |es|
        invariant Visited(ExprsWrites(ps[..i], n), ExprsNames(ps[..i])) && ScopesOf(context) == chain
        invariant ExprsBind(tables, a.names, ps[..i], chain, seen)
        invariant |rs| == i && forall j :: 0 <= j < i ==> rs[j] == Seen(chain, ps[j], seen + 1)
      {
        ghost var b := Now();
        var one := VisitExpr(es[i], ps[i], seen, chain);
        if one.Throw? {
          ExprsRefused(tables, a.names, ps, i, chain, seen, one.error);
          return Throw(one.error);
        }
        ExprsVisited(ps, i, n, a, b, Now());
        ExprsBound(tables, a.names, ps, i, chain, seen);
        rs := rs + [one.value];
      }
      assert ps[..|ps|] == ps && rs == SeenAll(chain, ps, seen + 1);
      return Ok(rs);
    }

    /** The select list. */
    method VisitItems(s: Select, ghost chain: Chain) returns (r: Result<seq<OutColumn>>)
      requires Ready() && ScopesOf(context) == chain && chain != [] && Listed(chain[0])
      modifies this, accessor
      ensures r.Ok? ==> Visited(ItemsWrites(s.items, old(Depth())), ItemsNames(s.items)) && ScopesOf(context) == chain
      ensures r.Ok? ==> ItemsBind(tables, old(cteTableNames), s, chain, r.value)
      ensures r.Throw? ==> ItemsRefuse(tables, old(cteTableNames), s, chain, r.error)
      decreases s, 0
    {
      ghost var n, a := Depth(), Now();
      VisitingNone(a);
      var outs := [];
      for i := 0 to |s.items|
        invariant Visited(ItemsWrites(s.items[..i], n), ItemsNames(s.items[..i])) && ScopesOf(context) == chain
        invariant ListMeans(tables, a.names, s.items[..i], chain, outs) && (HasStar(s.items[..i]) ==> s.from.Some?)
      {
        ghost var b := Now();
        var one := VisitItem(s.items[i], s.from.Some?, chain);
        if one.Throw? {
          ItemsRefused(tables, a.names, s, i, chain, outs, one.error);
          return one;
        }
        ListBound(tables, a.names, s.items, i, chain, outs, one.value);
        ItemsVisited(s.items, i, n, a, b, Now());
        outs := outs + one.value;
      }
      assert s.items[..|s.items|] == s.items;
      return Ok(outs);
    }

    method VisitItem(item: Item, hasFrom: bool, ghost chain: Chain) returns (r: Result<seq<OutColumn>>)
      requires Ready() && ScopesOf(context) == chain && chain != [] && Listed(chain[0])
      modifies this, accessor
      ensures r.Ok? ==> Visited(ItemWrites(item, old(Depth())), ItemNames(item)) && ScopesOf(context) == chain
      ensures r.Ok? ==> ItemMeans(tables, old(cteTableNames), item, chain, r.value) && (item.Star? ==> hasFrom)
      ensures r.Throw? ==> ItemRefuses(tables, old(cteTableNames), item, hasFrom, chain, r.error)
      decreases item
    {
      match item
      case Star(target) =>
        if !hasFrom { return Throw(SyntaxError); }
        var refs := GenerateAllColumnExpressions(context, target, []);
        if refs.Throw? { return Throw(refs.error); }
        VisitingNone(Now());
        assert refs.value[0..] == refs.value && [] + refs.value == refs.value;
        return Ok(StarColumns(refs.value));
      case Element(expr, alias, serial, name, typ) =>
        SeenNone(chain, expr);
        var bound := VisitExpr(expr, expr, 0, chain);
        if bound.Throw? { return Throw(bound.error); }
        match bound.value
        case ColumnValue(ref) => return Ok([BoundColumn(ref, alias, serial)]);
        case _ => return Ok([OutColumn(AliasOf(alias, serial), None, NameOr(alias, name), typ)]);
    }

    /** Visit(TableRef): the scope gets the tables that the reference stands for. */
    method VisitTableRef(t: TableRef, ghost outer: Chain) returns (r: Result<()>)
      requires Ready() && context != null && Sound(context.Here()) && ScopesOf(context.upper) == outer
      modifies this, context, accessor
      ensures r.Ok? ==> Visited(TableWrites(t, old(Depth())), TableNames(t)) && ScopesOf(context.upper) == outer
      ensures r.Ok? ==> Sound(context.Here())
      ensures r.Ok? ==>
                TableBuilds(tables, old(cteTableNames), t, outer, old(context.Here()), context.Here())
      ensures r.Throw? ==> TableRefuses(tables, old(cteTableNames), t, outer, old(context.Here()), r.error)
      decreases t
    {
      match t
      case Named(name, alias) =>
        r := VisitNamed(name, alias, outer);
      case Derived(_, _) =>
        r := VisitDerived(t, outer);
      case Join(_, _, _) =>
        r := VisitJoin(t, outer);
      case Tables(list) =>
        r := VisitTables(list, outer);
    }

    /** A derived table: its columns are those of its select, which does not see it. */
    method VisitDerived(t: TableRef, ghost outer: Chain) returns (r: Result<()>)
      requires t.Derived?
      requires Ready() && context != null && Sound(context.Here()) && ScopesOf(context.upper) == outer
      modifies this, context, accessor
      ensures r.Ok? ==> Visited(TableWrites(t, old(Depth())), TableNames(t)) && ScopesOf(context.upper) == outer
      ensures r.Ok? ==> Sound(context.Here())
      ensures r.Ok? ==>
                TableBuilds(tables, old(cteTableNames), t, outer, old(context.Here()), context.Here())
      ensures r.Throw? ==> TableRefuses(tables, old(cteTableNames), t, outer, old(context.Here()), r.error)
      decreases t, 0
    {
      if t.alias == "" { return Throw(UndefinedTable); }
      ghost var before, names := context.Here(), cteTableNames;
      HereAnd(outer);
      ghost var inner;
      var columns;
      columns, inner := VisitBelow(t.select, outer);
      if columns.Throw? { return Throw(columns.error); }
      assert SelectMeans(tables, names, t.select, [before] + outer, inner, columns.value);
      r := Register(t.alias, columns.value, outer);
      if r.Ok? {
        DerivedBuilt(tables, names, t, outer, before, inner, columns.value, context.Here());
      } else {
        DerivedRefused(tables, names, t, outer, before, inner, columns.value);
      }
    }

    /** A select inside a table reference, with the scope kept and put back. */
    method VisitBelow(s: Select, ghost outer: Chain) returns (r: Result<seq<OutColumn>>, ghost inner: Scope)
      requires Ready() && context != null && ScopesOf(context.upper) == outer
      modifies this, accessor
      ensures r.Ok? ==> Visited(SelectWrites(s, old(Depth())), SelectNames(s)) && ScopesOf(context.upper) == outer
      ensures r.Ok? ==> context.Here() == old(context.Here())
      ensures r.Ok? ==> SelectMeans(tables, old(cteTableNames), s, [context.Here()] + outer, inner, r.value)
      ensures r.Throw? ==> SelectRefuses(tables, old(cteTableNames), s, [old(context.Here())] + outer, r.error)
      decreases s, 7
    {
      var preContext := context;
      ghost var upper := context.upper;
      context.ScopesAround();
      r, inner := VisitSelect(s, ScopesOf(context));
      if r.Throw? { return; }
      context := preContext;
      assert ScopesOf(upper) == outer;
    }

    /** The columns of a derived table become those of a nested table. */
    method Register(alias: string, outs: seq<OutColumn>, ghost outer: Chain) returns (r: Result<()>)
      requires Ready() && context != null && Sound(context.Here()) && ScopesOf(context.upper) == outer
      modifies context
      ensures Ready() && ScopesOf(context.upper) == outer
      ensures r.Ok? ==> Sound(context.Here()) && NestedAs(old(context.Here()), alias, outs, context.Here())
      ensures r.Throw? ==>
                r.error == DuplicateAlias && context.Here() == old(context.Here()) && HasAlias(context.Here(), alias)
    {
      r := context.AddNestedTable(alias, NestedColumns(outs));
      UpperKept(context);
    }

    /** A single table: a CTE if one of that name was announced, else a table of the
        catalog. */
    method VisitNamed(name: string, alias: string, ghost outer: Chain) returns (r: Result<()>)
      requires Ready() && context != null && Sound(context.Here()) && ScopesOf(context.upper) == outer
      modifies this, context
      ensures r.Ok? ==> Visited([], {}) && ScopesOf(context.upper) == outer && Sound(context.Here())
      ensures NamedBuilds(tables, old(cteTableNames), name, alias, outer, old(context.Here()))
              == if r.Ok? then Ok(context.Here()) else Throw(r.error)
    {
      VisitingNone(Now());
      ghost var s := context.Here();
      HereAnd(outer);
      if name in cteTableNames {
        r := context.AddCTETableAlias(name, alias);
        if r.Ok? { SoundAlias(s, context.Here(), alias); }
      } else if name !in tables {
        return Throw(UndefinedTable);
      } else {
        r := context.AddRegularTable(alias, tables[name]);
      }
      UpperKept(context);
    }

    /** Visit(JoinDefinition) */
    method VisitJoin(t: TableRef, ghost outer: Chain) returns (r: Result<()>)
      requires t.Join?
      requires Ready() && context != null && Sound(context.Here()) && ScopesOf(context.upper) == outer
      modifies this, context, accessor
      ensures r.Ok? ==> Visited(TableWrites(t, old(Depth())), TableNames(t)) && ScopesOf(context.upper) == outer
      ensures r.Ok? ==> Sound(context.Here())
      ensures r.Ok? ==>
                TableBuilds(tables, old(cteTableNames), t, outer, old(context.Here()), context.Here())
      ensures r.Throw? ==> TableRefuses(tables, old(cteTableNames), t, outer, old(context.Here()), r.error)
      decreases t, 1
    {
      ghost var n, a, before := Depth(), Now(), context.Here();
      ghost var mid;
      r, mid := VisitSides(t, outer);
      if r.Throw? { return; }
      ghost var b, after := Now(), context.Here();
      r := VisitOn(t.on, outer);
      if r.Throw? {
        OnRefused(tables, a.names, b.names, t, outer, before, mid, after, r.error);
        return;
      }
      assert context.Here() == after;
      JoinDone(tables, t, n, a, b, Now(), outer, before, mid, after);
    }

    /** The two sides of a join, the left one first. */
    method VisitSides(t: TableRef, ghost outer: Chain) returns (r: Result<()>, ghost mid: Scope)
      requires t.Join?
      requires Ready() && context != null && Sound(context.Here()) && ScopesOf(context.upper) == outer
      modifies this, context, accessor
      ensures r.Ok? ==> Visited(TableWrites(t.left, old(Depth())) + TableWrites(t.right, old(Depth())),
                                TableNames(t.left) + TableNames(t.right))
      ensures r.Ok? ==> ScopesOf(context.upper) == outer && Sound(context.Here())
      ensures r.Ok? ==>
                && TableBuilds(tables, old(cteTableNames), t.left, outer, old(context.Here()), mid)
                && TableBuilds(tables, old(cteTableNames) + TableNames(t.left), t.right, outer, mid, context.Here())
      ensures r.Throw? ==> TableRefuses(tables, old(cteTableNames), t, outer, old(context.Here()), r.error)
      decreases t, 0
    {
      ghost var n, a, before := Depth(), Now(), context.Here();
      mid := EMPTY;
      r := VisitTableRef(t.left, outer);
      if r.Throw? { return; }
      ghost var b := Now();
      mid := context.Here();
      r := VisitTableRef(t.right, outer);
      if r.Throw? {
        RightRefused(tables, a.names, b.names, t, outer, before, mid, r.error);
        return;
      }
      VisitingThen(a, TableWrites(t.left, n), TableNames(t.left), b,
                   TableWrites(t.right, n), TableNames(t.right), Now());
    }

    /** The condition of a join, in the scope that both sides built. */
    method VisitOn(e: Expr, ghost outer: Chain) returns (r: Result<()>)
      requires Ready() && context != null && Sound(context.Here()) && ScopesOf(context.upper) == outer
      modifies this, accessor
      ensures r.Ok? ==> Visited(ExprWrites(e, old(Depth())), ExprNames(e)) && ScopesOf(context.upper) == outer
      ensures r.Ok? ==> context.Here() == old(context.Here())
      ensures r.Ok? ==> ExprBinds(tables, old(cteTableNames), e, [context.Here()] + outer, 0)
      ensures r.Throw? ==> ExprRefuses(tables, old(cteTableNames), e, [old(context.Here())] + outer, 0, r.error)
      decreases e, 2
    {
      ghost var upper := context.upper;
      context.ScopesAround();
      SeenNone(ScopesOf(context), e);
      var bound := VisitExpr(e, e, 0, ScopesOf(context));
      if bound.Throw? { return Throw(bound.error); }
      assert ScopesOf(upper) == outer;
      return Ok(());
    }

    method VisitTables(ts: seq<TableRef>, ghost outer: Chain) returns (r: Result<()>)
      requires Ready() && context != null && Sound(context.Here()) && ScopesOf(context.upper) == outer
      modifies this, context, accessor
      ensures r.Ok? ==> Visited(TablesWrites(ts, old(Depth())), TablesNames(ts)) && ScopesOf(context.upper) == outer
      ensures r.Ok? ==> Sound(context.Here())
      ensures r.Ok? ==>
                TablesBuild(tables, old(cteTableNames), ts, outer, old(context.Here()), context.Here())
      ensures r.Throw? ==> TablesRefuse(tables, old(cteTableNames), ts, outer, old(context.Here()), r.error)
      decreases ts
    {
      ghost var n, a, before := Depth(), Now(), context.Here();
      VisitingNone(a);
      for i := 0 to |ts|
        invariant Visited(TablesWrites(ts[..i], n), TablesNames(ts[..i])) && ScopesOf(context.upper) == outer
        invariant Sound(context.Here()) && TablesBuild(tables, a.names, ts[..i], outer, before, context.Here())
      {
        ghost var b, mid := Now(), context.Here();
        r := VisitTableRef(ts[i], outer);
        if r.Throw? {
          TablesRefused(tables, a.names, ts, i, outer, before, mid, r.error);
          return;
        }
        TablesVisited(ts, i, n, a, b, Now());
        TablesBuilt(tables, a.names, ts, i, outer, before, mid, context.Here());
      }
      assert ts[..|ts|] == ts;
      return Ok(());
    }

    /** Visit(TableRef) of a CTE: its select, and nothing is registered. */
    method VisitCteRef(c: Cte, ghost outer: Chain) returns (r: Result<seq<OutColumn>>, ghost inner: Scope)
      requires Ready() && context != null && ScopesOf(context.upper) == outer
      modifies this, accessor
      ensures r.Ok? ==> Visited(SelectWrites(c.select, old(Depth())), SelectNames(c.select))
      ensures r.Ok? ==> c.alias != "" && ScopesOf(context.upper) == outer && context.Here() == old(context.Here())
      ensures r.Ok? ==>
                SelectMeans(tables, old(cteTableNames), c.select, [context.Here()] + outer, inner, r.value)
      ensures r.Throw? ==> AgainRefuses(tables, old(cteTableNames), c, [old(context.Here())] + outer, r.error)
      decreases c, 0
    {
      inner := EMPTY;
      if c.alias == "" { return Throw(UndefinedTable), inner; }
      r, inner := VisitBelow(c.select, outer);
    }

    /** The columns of a CTE before it is registered: its own, or those of its base case. */
    method VisitCteSource(c: Cte, ghost outer: Chain) returns (r: Result<seq<OutColumn>>)
      requires Ready() && context != null && ScopesOf(context.upper) == outer
      modifies this, accessor
      ensures r.Ok? ==> Visited(CteSourceWrites(c, old(Depth())), CteSourceNames(c))
      ensures r.Ok? ==> ScopesOf(context.upper) == outer && context.Here() == old(context.Here())
      ensures r.Ok? ==> CteMeans(tables, old(cteTableNames), c, [context.Here()] + outer, r.value)
      ensures r.Throw? ==> CteSourceRefuses(tables, old(cteTableNames), c, [old(context.Here())] + outer, r.error)
      decreases c, 1
    {
      VisitingNone(Now());
      ghost var inner;
      r := Ok(Unvisited(c.select.items));
      if !c.recursive {
        r, inner := VisitCteRef(c, outer);
      } else if c.select.union.Some? {
        assert UnionWrites(c.select, Depth()) == SelectWrites(c.select.union.value, Depth());
        r, inner := VisitBelow(c.select.union.value, outer);
      }
    }

    /** The name of the entry becomes that of a CTE before its select is visited. */
    method AnnounceCte(c: Cte, ghost outer: Chain) returns (r: Result<seq<OutColumn>>)
      requires Ready() && context != null && ScopesOf(context.upper) == outer
      modifies this, accessor
      ensures r.Ok? ==> Visited(CteSourceWrites(c, old(Depth())), {c.alias} + CteSourceNames(c))
      ensures r.Ok? ==> ScopesOf(context.upper) == outer && context.Here() == old(context.Here())
      ensures r.Ok? ==>
                CteMeans(tables, old(cteTableNames) + {c.alias}, c, [context.Here()] + outer, r.value)
      ensures r.Throw? ==>
                CteSourceRefuses(tables, old(cteTableNames) + {c.alias}, c, [old(context.Here())] + outer, r.error)
      decreases c, 2
    {
      cteTableNames := cteTableNames + {c.alias};
      r := VisitCteSource(c, outer);
    }

    method RegisterCte(c: Cte, outs: seq<OutColumn>, ghost outer: Chain) returns (r: Result<()>)
      requires Ready() && context != null && OnlyCtes(context.Here()) && ScopesOf(context.upper) == outer
      modifies context, accessor
      ensures r.Ok? ==> Ready() && OnlyCtes(context.Here()) && ScopesOf(context.upper) == outer
      ensures r.Ok? ==> CteAs(old(context.Here()), c, outs, old(accessor.tempOidCounter), context.Here())
      ensures r.Throw? ==> RegisterRefuses(old(context.Here()), c, outs, r.error)
    {
      ghost var upper := context.upper;
      context.ScopesAround();
      var columns := NameCteColumns(accessor, c.names, SelectColumns(outs));
      if columns.Throw? { return Throw(columns.error); }
      r := context.AddCTETable(c.alias, columns.value);
      assert ScopesOf(upper) == outer;
    }

    /** The first half of a round of the loop over the WITH entries: the columns are found,
        in scopes where the entry is not yet known, and registered. */
    method OpenCte(c: Cte, ghost outer: Chain)
      returns (r: Result<()>, ghost columns: seq<OutColumn>, ghost counter: nat)
      requires Ready() && context != null && OnlyCtes(context.Here()) && ScopesOf(context.upper) == outer
      modifies this, context, accessor
      ensures r.Ok? ==> Visited(CteSourceWrites(c, old(Depth())), {c.alias} + CteSourceNames(c))
      ensures r.Ok? ==> OnlyCtes(context.Here()) && ScopesOf(context.upper) == outer
      ensures r.Ok? ==>
                && CteMeans(tables, old(cteTableNames) + {c.alias}, c, [old(context.Here())] + outer, columns)
                && CteAs(old(context.Here()), c, columns, counter, context.Here())
      ensures r.Throw? ==> OpenRefuses(tables, old(cteTableNames), c, outer, old(context.Here()), r.error)
      decreases c, 3
    {
      ghost var names, before := cteTableNames, context.Here();
      columns, counter := [], 0;
      var outs := AnnounceCte(c, outer);
      if outs.Throw? { return Throw(outs.error), columns, counter; }
      columns, counter := outs.value, accessor.tempOidCounter;
      r := RegisterCte(c, outs.value, outer);
      if r.Throw? { OpenRefused(tables, names, c, outer, before, outs.value, r.error); }
    }

    /** One round of the loop over the WITH entries. The select of the entry sees the
        entries before it, and itself only in the last visit. */
    method VisitCte(c: Cte, ghost outer: Chain) returns (r: Result<()>)
      requires Ready() && context != null && OnlyCtes(context.Here()) && ScopesOf(context.upper) == outer
      modifies this, context, accessor
      ensures r.Ok? ==> Visited(CteWrites(c, old(Depth())), CteNames(c))
      ensures r.Ok? ==> OnlyCtes(context.Here()) && ScopesOf(context.upper) == outer
      ensures r.Ok? ==>
                CteBuilds(tables, old(cteTableNames), c, outer, old(context.Here()), context.Here())
      ensures r.Throw? ==> CteRefuses(tables, old(cteTableNames), c, outer, old(context.Here()), r.error)
      decreases c, 4
    {
      ghost var n, a, before := Depth(), Now(), context.Here();
      ghost var columns, counter;
      r, columns, counter := OpenCte(c, outer);
      if r.Throw? { return; }
      ghost var b, after := Now(), context.Here();
      ghost var inner;
      var again;
      again, inner := VisitCteRef(c, outer);
      if again.Throw? {
        CteRefused(tables, a.names, b.names, c, outer, before, columns, counter, after, again.error);
        return Throw(again.error);
      }
      CteDone(tables, a.names, b.names, c, outer, before, columns, counter, after, inner, again.value);
      CteVisited(c, n, a, b, Now());
    }

    method VisitCtes(cs: seq<Cte>, ghost outer: Chain) returns (r: Result<()>)
      requires Ready() && context != null && context.Here() == EMPTY && ScopesOf(context.upper) == outer
      modifies this, context, accessor
      ensures r.Ok? ==> Visited(CtesWrites(cs, old(Depth())), CtesNames(cs))
      ensures r.Ok? ==> OnlyCtes(context.Here()) && ScopesOf(context.upper) == outer
      ensures r.Ok? ==> CtesBuild(tables, old(cteTableNames), cs, outer, context.Here())
      ensures r.Throw? ==> CtesRefuse(tables, old(cteTableNames), cs, outer, r.error)
      decreases cs
    {
      ghost var n, a := Depth(), Now();
      VisitingNone(a);
      for i := 0 to |cs|
        invariant Visited(CtesWrites(cs[..i], n), CtesNames(cs[..i]))
        invariant OnlyCtes(context.Here()) && ScopesOf(context.upper) == outer
        invariant CtesBuild(tables, a.names, cs[..i], outer, context.Here())
      {
        ghost var b, mid := Now(), context.Here();
        r := VisitCte(cs[i], outer);
        if r.Throw? {
          CtesRefused(tables, a.names, cs, i, outer, mid, r.error);
          return;
        }
        CtesVisited(cs, i, n, a, b, Now());
        CtesBuilt(tables, a.names, cs, i, outer, mid, context.Here());
      }
      assert cs[..|cs|] == cs;
      return Ok(());
    }

    method VisitFrom(s: Select, ghost outer: Chain) returns (r: Result<()>)
      requires Ready() && context != null && Sound(context.Here()) && ScopesOf(context.upper) == outer
      modifies this, context, accessor
      ensures r.Ok? ==> Visited(FromWrites(s, old(Depth())), FromNames(s)) && ScopesOf(context.upper) == outer
      ensures r.Ok? ==> Sound(context.Here())
      ensures r.Ok? ==>
                FromBuilds(tables, old(cteTableNames), s, outer, old(context.Here()), context.Here())
      ensures r.Throw? ==> FromRefuses(tables, old(cteTableNames), s, outer, old(context.Here()), r.error)
      decreases s, 0
    {
      if s.from.Some? {
        r := VisitTableRef(s.from.value, outer);
      } else {
        VisitingNone(Now());
        r := Ok(());
      }
    }

    /** WITH and FROM: all that registers tables. */
    method VisitSources(s: Select, ghost outer: Chain) returns (r: Result<()>)
      requires Ready() && context != null && context.Here() == EMPTY && ScopesOf(context.upper) == outer
      modifies this, context, accessor
      ensures r.Ok? ==> Visited(SourceWrites(s, old(Depth())), SourceNames(s)) && ScopesOf(context.upper) == outer
      ensures r.Ok? ==> Sound(context.Here())
      ensures r.Ok? ==> SourceBuilds(tables, old(cteTableNames), s, outer, context.Here())
      ensures r.Throw? ==> SourceRefuses(tables, old(cteTableNames), s, outer, r.error)
      decreases s, 1
    {
      ghost var n, a := Depth(), Now();
      r := VisitCtes(s.ctes, outer);
      if r.Throw? { return; }
      ghost var b, mid := Now(), context.Here();
      r := VisitFrom(s, outer);
      if r.Throw? {
        SourceRefused(tables, a.names, b.names, s, outer, mid, r.error);
        return;
      }
      SourceVisited(s, n, a, b, Now());
      SourceBuilt(tables, a.names, s, outer, mid, context.Here());
    }

    /** WHERE, LIMIT and GROUP BY. */
    method VisitConditions(s: Select, ghost chain: Chain) returns (r: Result<()>)
      requires Ready() && ScopesOf(context) == chain
      modifies this, accessor
      ensures r.Ok? ==>
                Visited(ExprsWrites(s.conditions, old(Depth())), ExprsNames(s.conditions)) && ScopesOf(context) == chain
      ensures r.Ok? ==> ConditionsBind(tables, old(cteTableNames), s, chain)
      ensures r.Throw? ==> ConditionsRefuse(tables, old(cteTableNames), s, chain, r.error)
      decreases s, 0
    {
      SeenNoneAll(chain, s.conditions);
      var bound := VisitExprs(s.conditions, s.conditions, 0, chain);
      return if bound.Throw? then Throw(bound.error) else Ok(());
    }

    /** The conditions, and the select list. */
    method VisitLists(s: Select, ghost chain: Chain) returns (r: Result<seq<OutColumn>>)
      requires Ready() && ScopesOf(context) == chain && chain != [] && Listed(chain[0])
      modifies this, accessor
      ensures r.Ok? ==> Visited(ListWrites(s, old(Depth())), ListNames(s)) && ScopesOf(context) == chain
      ensures r.Ok? ==> ListBinds(tables, old(cteTableNames), s, chain, r.value)
      ensures r.Throw? ==> ListRefuses(tables, old(cteTableNames), s, chain, r.error)
      decreases s, 1
    {
      ghost var n, a := Depth(), Now();
      var conditions := VisitConditions(s, chain);
      if conditions.Throw? { return Throw(conditions.error); }
      ghost var b := Now();
      r := VisitItems(s, chain);
      if r.Throw? { return; }
      ListVisited(s, n, a, b, Now());
    }

    /** The union, with the check that its columns have the same types. */
    method VisitUnion(s: Select, outs: seq<OutColumn>, ghost chain: Chain) returns (r: Result<()>)
      requires Ready() && ScopesOf(context) == chain
      modifies this, accessor
      ensures r.Ok? ==> Visited(UnionWrites(s, old(Depth())), UnionNames(s)) && ScopesOf(context) == chain
      ensures r.Ok? ==> UnionBinds(tables, old(cteTableNames), s, chain, outs)
      ensures r.Throw? ==> UnionRefuses(tables, old(cteTableNames), s, chain, outs, r.error)
      decreases s, 0
    {
      VisitingNone(Now());
      if s.union.None? { return Ok(()); }
      ghost var inner;
      var others;
      others, inner := VisitSelect(s.union.value, chain);
      if others.Throw? { return Throw(others.error); }
      if !SameTypes(outs, others.value) {
        UnionRefused(tables, old(cteTableNames), s, chain, outs, inner, others.value);
        return Throw(DatatypeMismatch);
      }
      return Ok(());
    }

    /** What follows the select list: the union, the depth, and ORDER BY. */
    method VisitRest(s: Select, outs: seq<OutColumn>, ghost chain: Chain) returns (r: Result<()>)
      requires Ready() && context != null && ScopesOf(context) == chain
      modifies this, accessor
      ensures r.Ok? ==> Visited(RestWrites(s, old(Depth()) - 1), RestNames(s)) && ScopesOf(context) == chain
      ensures r.Ok? ==> RestBinds(tables, old(cteTableNames), s, chain, outs)
      ensures r.Throw? ==> RestRefuses(tables, old(cteTableNames), s, chain, outs, r.error)
      decreases s, 1
    {
      ghost var n, a := context.depth, Now();
      r := VisitUnion(s, outs, chain);
      if r.Throw? { return; }
      ghost var b := Now();
      depths := depths[s.id := context.depth];
      assert ScopesOf(context) == chain;
      ghost var c := Now();
      SeenNoneAll(chain, s.orderBy);
      var ordered := VisitExprs(s.orderBy, s.orderBy, 0, chain);
      if ordered.Throw? { return Throw(ordered.error); }
      RestVisited(s, n, a, b, c, Now());
    }

    /** All that follows once the tables are registered. */
    method VisitQuery(s: Select, ghost chain: Chain) returns (r: Result<seq<OutColumn>>)
      requires Ready() && ScopesOf(context) == chain && chain != [] && Listed(chain[0])
      modifies this, accessor
      ensures r.Ok? ==> Visited(QueryWrites(s, old(Depth()) - 1), QueryNames(s)) && ScopesOf(context) == chain
      ensures r.Ok? ==> QueryMeans(tables, old(cteTableNames), s, chain, r.value)
      ensures r.Throw? ==> QueryRefuses(tables, old(cteTableNames), s, chain, r.error)
      decreases s, 2
    {
      ghost var n, a := context.depth, Now();
      r := VisitLists(s, chain);
      if r.Throw? { return; }
      ghost var b := Now();
      var rest := VisitRest(s, r.value, chain);
      if rest.Throw? {
        QueryRefused(tables, a.names, b.names, s, chain, r.value, rest.error);
        return Throw(rest.error);
      }
      QueryVisited(s, n, a, b, Now());
    }

    /** The same, said about the scopes around. */
    method VisitQueryAround(s: Select, ghost outer: Chain) returns (r: Result<seq<OutColumn>>)
      requires Ready() && context != null && Sound(context.Here()) && ScopesOf(context.upper) == outer
      modifies this, accessor
      ensures r.Ok? ==> Visited(QueryWrites(s, old(Depth()) - 1), QueryNames(s))
      ensures r.Ok? ==> context.Here() == old(context.Here())
      ensures r.Ok? ==> QueryMeans(tables, old(cteTableNames), s, [context.Here()] + outer, r.value)
      ensures r.Throw? ==> QueryRefuses(tables, old(cteTableNames), s, [old(context.Here())] + outer, r.error)
      decreases s, 3
    {
      HereAnd(outer);
      r := VisitQuery(s, ScopesOf(context));
    }

    /** All of Visit(SelectStatement) that happens in its own scope. */
    method VisitOwnScope(s: Select, ghost outer: Chain) returns (r: Result<seq<OutColumn>>)
      requires Ready() && context != null && context.Here() == EMPTY && ScopesOf(context.upper) == outer
      modifies this, context, accessor
      ensures r.Ok? ==> Visited(SelectWrites(s, old(context).depth), SelectNames(s)) && Sound(context.Here())
      ensures r.Ok? ==> SelectMeans(tables, old(cteTableNames), s, outer, context.Here(), r.value)
      ensures r.Throw? ==> SelectRefuses(tables, old(cteTableNames), s, outer, r.error)
      decreases s, 4
    {
      ghost var n, a := context.depth, Now();
      var sources := VisitSources(s, outer);
      if sources.Throw? { return Throw(sources.error); }
      ghost var b, here := Now(), context.Here();
      r := VisitQueryAround(s, outer);
      if r.Throw? {
        SelectRefused(tables, a.names, s, outer, here, r.error);
        return;
      }
      SelectVisited(s, n, a, b, Now());
    }

    /** Visit(SelectStatement) up to its last line, which leaves the new scope. */
    method VisitInScope(s: Select, ghost chain: Chain) returns (r: Result<seq<OutColumn>>, ghost inner: Scope)
      requires Ready() && ScopesOf(context) == chain
      modifies this, accessor
      ensures r.Ok? ==> Ready() && context != null && context.upper == old(context) && context.depth == old(Depth())
      ensures r.Ok? ==> Sound(inner)
      ensures r.Ok? ==> Visiting(old(Now()), SelectWrites(s, old(Depth())), SelectNames(s), Now())
      ensures r.Ok? ==> SelectMeans(tables, old(cteTableNames), s, chain, inner, r.value)
      ensures r.Throw? ==> SelectRefuses(tables, old(cteTableNames), s, chain, r.error)
      ensures r.Ok? ==> ScopesOf(old(context)) == chain
      decreases s, 5
    {
      ghost var before := context;
      context := new BinderContext(context);
      assert ScopesOf(context.upper) == chain;
      r := VisitOwnScope(s, chain);
      inner := if r.Ok? then context.Here() else EMPTY;
      assert ScopesOf(before) == chain;
    }

    /** Visit(SelectStatement): the columns are what the select list means in the scope that
        WITH and FROM of the select build, inside the scopes around it. */
    method VisitSelect(s: Select, ghost chain: Chain) returns (r: Result<seq<OutColumn>>, ghost inner: Scope)
      requires Ready() && ScopesOf(context) == chain
      modifies this, accessor
      ensures r.Ok? ==> Visited(SelectWrites(s, old(Depth())), SelectNames(s)) && ScopesOf(context) == chain
      ensures r.Ok? ==> SelectMeans(tables, old(cteTableNames), s, chain, inner, r.value)
      ensures r.Throw? ==> SelectRefuses(tables, old(cteTableNames), s, chain, r.error)
      decreases s, 6
    {
      ghost var a := Now();
      r, inner := VisitInScope(s, chain);
      if r.Throw? { return; }
      ScopeVisited(s, Depth() - 1, a, Now(), inner);
      Leave(inner);
    }

    /** BindNameToNode, for a SELECT: it is accepted and means something, or it is refused for
        a reason. */
    method BindNameToNode(s: Select) returns (r: Result<seq<OutColumn>>, ghost inner: Scope)
      requires Ready() && context == null
      modifies this, accessor
      ensures r.Ok? ==> SelectMeans(tables, {}, s, [], inner, r.value) && cteTableNames == SelectNames(s)
      ensures r.Ok? ==> context == null && Wrote(old(depths), SelectWrites(s, 0), depths)
      ensures r.Throw? ==> SelectRefuses(tables, {}, s, [], r.error)
    {
      cteTableNames := {};
      r, inner := VisitSelect(s, []);
    }

    method Leave(ghost inner: Scope)
      requires Ready() && context != null
      modifies this
      ensures Ready() && context == old(context).upper && Now() == old(Now()).(left := old(left) + [inner])
    {
      left := left + [inner];
      if context.upper != null { context.UpperLinked(); }
      context := context.upper;
    }
  }

  // ---- Visits in parts ----

  lemma {:induction false} ExprsVisited(es: seq<Expr>, i: nat, n: nat, a: Record, b: Record, c: Record)
    requires i < |es| && Visiting(a, ExprsWrites(es[..i], n), ExprsNames(es[..i]), b)
    requires Visiting(b, ExprWrites(es[i], n), ExprNames(es[i]), c)
    ensures Visiting(a, ExprsWrites(es[..i + 1], n), ExprsNames(es[..i + 1]), c)
  {
    assert Front(es[..i + 1]) == es[..i];
    VisitingThen(a, ExprsWrites(es[..i], n), ExprsNames(es[..i]), b, ExprWrites(es[i], n), ExprNames(es[i]), c);
  }

  lemma {:induction false} ItemsVisited(items: seq<Item>, i: nat, n: nat, a: Record, b: Record, c: Record)
    requires i < |items| && Visiting(a, ItemsWrites(items[..i], n), ItemsNames(items[..i]), b)
    requires Visiting(b, ItemWrites(items[i], n), ItemNames(items[i]), c)
    ensures Visiting(a, ItemsWrites(items[..i + 1], n), ItemsNames(items[..i + 1]), c)
  {
    assert Front(items[..i + 1]) == items[..i];
    VisitingThen(a, ItemsWrites(items[..i], n), ItemsNames(items[..i]), b,
                 ItemWrites(items[i], n), ItemNames(items[i]), c);
  }

  lemma {:induction false} TablesVisited(ts: seq<TableRef>, i: nat, n: nat, a: Record, b: Record, c: Record)
    requires i < |ts| && Visiting(a, TablesWrites(ts[..i], n), TablesNames(ts[..i]), b)
    requires Visiting(b, TableWrites(ts[i], n), TableNames(ts[i]), c)
    ensures Visiting(a, TablesWrites(ts[..i + 1], n), TablesNames(ts[..i + 1]), c)
  {
    assert Front(ts[..i + 1]) == ts[..i];
    VisitingThen(a, TablesWrites(ts[..i], n), TablesNames(ts[..i]), b, TableWrites(ts[i], n), TableNames(ts[i]), c);
  }

  lemma {:induction false} CtesVisited(cs: seq<Cte>, i: nat, n: nat, a: Record, b: Record, c: Record)
    requires i < |cs| && Visiting(a, CtesWrites(cs[..i], n), CtesNames(cs[..i]), b)
    requires Visiting(b, CteWrites(cs[i], n), CteNames(cs[i]), c)
    ensures Visiting(a, CtesWrites(cs[..i + 1], n), CtesNames(cs[..i + 1]), c)
  {
    assert Front(cs[..i + 1]) == cs[..i];
    VisitingThen(a, CtesWrites(cs[..i], n), CtesNames(cs[..i]), b, CteWrites(cs[i], n), CteNames(cs[i]), c);
  }

  lemma {:induction false} JoinVisited(t: TableRef, n: nat, a: Record, b: Record, c: Record)
    requires t.Join?
    requires Visiting(a, TableWrites(t.left, n) + TableWrites(t.right, n), TableNames(t.left) + TableNames(t.right), b)
    requires Visiting(b, ExprWrites(t.on, n), ExprNames(t.on), c)
    ensures Visiting(a, TableWrites(t, n), TableNames(t), c)
  {
    VisitingThen(a, TableWrites(t.left, n) + TableWrites(t.right, n), TableNames(t.left) + TableNames(t.right),
                 b, ExprWrites(t.on, n), ExprNames(t.on), c);
  }

  lemma {:induction false} CteDone(
    db: Catalog, names: Names, later: Names, c: Cte, outer: Chain, before: Scope,
    outs: seq<OutColumn>, counter: nat, after: Scope, inner: Scope, again: seq<OutColumn>)
    requires c.alias != "" && CteMeans(db, names + {c.alias}, c, [before] + outer, outs)
    requires CteAs(before, c, outs, counter, after) && later == names + ({c.alias} + CteSourceNames(c))
    requires SelectMeans(db, later, c.select, [after] + outer, inner, again)
    ensures CteBuilds(db, names, c, outer, before, after)
  {
    assert later == names + {c.alias} + CteSourceNames(c);
    CteBuilt(db, names, c, outer, before, outs, counter, after);
  }

  lemma {:induction false} JoinDone(
    db: Catalog, t: TableRef, n: nat, a: Record, b: Record, c: Record, outer: Chain,
    before: Scope, mid: Scope, after: Scope)
    requires t.Join?
    requires Visiting(a, TableWrites(t.left, n) + TableWrites(t.right, n), TableNames(t.left) + TableNames(t.right), b)
    requires Visiting(b, ExprWrites(t.on, n), ExprNames(t.on), c)
    requires TableBuilds(db, a.names, t.left, outer, before, mid)
    requires TableBuilds(db, a.names + TableNames(t.left), t.right, outer, mid, after)
    requires ExprBinds(db, b.names, t.on, [after] + outer, 0)
    ensures Visiting(a, TableWrites(t, n), TableNames(t), c) && TableBuilds(db, a.names, t, outer, before, after)
  {
    JoinVisited(t, n, a, b, c);
    JoinOf(db, a.names, b.names, t, outer, before, mid, after);
  }

  lemma {:induction false} JoinOf(
    db: Catalog, names: Names, later: Names, t: TableRef, outer: Chain, before: Scope, mid: Scope, after: Scope)
    requires t.Join? && TableBuilds(db, names, t.left, outer, before, mid)
    requires TableBuilds(db, names + TableNames(t.left), t.right, outer, mid, after)
    requires later == names + (TableNames(t.left) + TableNames(t.right))
    requires ExprBinds(db, later, t.on, [after] + outer, 0)
    ensures TableBuilds(db, names, t, outer, before, after)
  {
    assert later == names + TableNames(t.left) + TableNames(t.right);
    JoinBuilt(db, names, t, outer, before, mid, after);
  }

  lemma {:induction false} SourceVisited(s: Select, n: nat, a: Record, b: Record, c: Record)
    requires Visiting(a, CtesWrites(s.ctes, n), CtesNames(s.ctes), b)
    requires Visiting(b, FromWrites(s, n), FromNames(s), c)
    ensures Visiting(a, SourceWrites(s, n), SourceNames(s), c)
  {
    VisitingThen(a, CtesWrites(s.ctes, n), CtesNames(s.ctes), b, FromWrites(s, n), FromNames(s), c);
  }

  lemma {:induction false} ListVisited(s: Select, n: nat, a: Record, b: Record, c: Record)
    requires Visiting(a, ExprsWrites(s.conditions, n), ExprsNames(s.conditions), b)
    requires Visiting(b, ItemsWrites(s.items, n), ItemsNames(s.items), c)
    ensures Visiting(a, ListWrites(s, n), ListNames(s), c)
  {
    VisitingThen(a, ExprsWrites(s.conditions, n), ExprsNames(s.conditions), b,
                 ItemsWrites(s.items, n), ItemsNames(s.items), c);
  }

  lemma {:induction false} QueryVisited(s: Select, n: nat, a: Record, b: Record, c: Record)
    requires Visiting(a, ListWrites(s, n + 1), ListNames(s), b)
    requires Visiting(b, RestWrites(s, n), RestNames(s), c)
    ensures Visiting(a, QueryWrites(s, n), QueryNames(s), c)
  {
    VisitingThen(a, ListWrites(s, n + 1), ListNames(s), b, RestWrites(s, n), RestNames(s), c);
  }

  lemma {:induction false} SelectVisited(s: Select, n: nat, a: Record, b: Record, c: Record)
    requires Visiting(a, SourceWrites(s, n + 1), SourceNames(s), b)
    requires Visiting(b, QueryWrites(s, n), QueryNames(s), c)
    ensures Visiting(a, SelectWrites(s, n), SelectNames(s), c)
  {
    VisitingThen(a, SourceWrites(s, n + 1), SourceNames(s), b, QueryWrites(s, n), QueryNames(s), c);
  }

  lemma {:induction false} ScopeVisited(s: Select, n: nat, a: Record, b: Record, inner: Scope)
    requires Visiting(a, SelectWrites(s, n), SelectNames(s), b) && Sound(inner)
    ensures Visiting(a, SelectWrites(s, n), SelectNames(s), b.(left := b.left + [inner]))
  {
    LeftOne(a.left, b.left, inner);
  }

  lemma {:induction false} TwiceVisited(e: Expr, n: nat, a: Record, b: Record, c: Record)
    requires e.Operator? && e.twice
    requires Visiting(a, ExprsWrites(e.children, n), ExprsNames(e.children), b)
    requires Visiting(b, ExprsWrites(e.children, n), ExprsNames(e.children), c)
    ensures Visiting(a, ExprWrites(e, n), ExprNames(e), c)
  {
    var ns := ExprsNames(e.children);
    VisitingThen(a, ExprsWrites(e.children, n), ns, b, ExprsWrites(e.children, n), ns, c);
    assert ns + ns == ns;
  }

  /** The second visit of a CTE announces what the first one did, and more. */
  lemma {:induction false} CteVisited(c: Cte, n: nat, a: Record, b: Record, d: Record)
    requires Visiting(a, CteSourceWrites(c, n), {c.alias} + CteSourceNames(c), b)
    requires Visiting(b, SelectWrites(c.select, n), SelectNames(c.select), d)
    ensures Visiting(a, CteWrites(c, n), CteNames(c), d)
  {
    SourceNamesWithin(c);
    VisitingThen(a, CteSourceWrites(c, n), {c.alias} + CteSourceNames(c), b,
                 SelectWrites(c.select, n), SelectNames(c.select), d);
    assert {c.alias} + CteSourceNames(c) + SelectNames(c.select) == CteNames(c);
  }

  lemma {:induction false} RestVisited(s: Select, n: nat, a: Record, b: Record, c: Record, d: Record)
    requires Visiting(a, UnionWrites(s, n + 1), UnionNames(s), b) && c == b.(depths := b.depths[s.id := n])
    requires Visiting(c, ExprsWrites(s.orderBy, n + 1), ExprsNames(s.orderBy), d)
    ensures Visiting(a, RestWrites(s, n), RestNames(s), d)
  {
    var u, id, v := UnionWrites(s, n + 1), [(s.id, n)], ExprsWrites(s.orderBy, n + 1);
    assert id[1..] == [] && Wrote(b.depths, id, c.depths) && LeftSound(b.left, b.left);
    VisitingThen(a, u, UnionNames(s), b, id, {}, c);
    assert UnionNames(s) + {} == UnionNames(s);
    VisitingThen(a, u + id, UnionNames(s), c, v, ExprsNames(s.orderBy), d);
  }
}
