/** How deep each select in a parse tree is, and that the depths which the visits of
    src/binder/bind_node_visitor.cpp assign, some of them more than once, come to that.
 */
module SelectDepths {
  import opened Basics
  import opened SelectTree

  // ---- How deep each select is ----

  type Levels = set<(nat, nat)>

  /** The selects in a select at level `n`, and itself, each with its level. */
  function SelectLevels(s: Select, n: nat): (ls: Levels)
    decreases s, 4
  {
    SourceLevels(s, n + 1) + QueryLevels(s, n)
  }

  /** Those in WITH and FROM. */
  function SourceLevels(s: Select, n: nat): (ls: Levels)
    decreases s, 1
  {
    CtesLevels(s.ctes, n) + FromLevels(s, n)
  }

  function FromLevels(s: Select, n: nat): (ls: Levels)
    decreases s, 0
  {
    if s.from.Some? then TableLevels(s.from.value, n) else {}
  }

  function QueryLevels(s: Select, n: nat): (ls: Levels)
    decreases s, 3
  {
    ListLevels(s, n + 1) + RestLevels(s, n)
  }

  /** Those in the conditions and the select list. */
  function ListLevels(s: Select, n: nat): (ls: Levels)
    decreases s, 0
  {
    ExprsLevels(s.conditions, n) + ItemsLevels(s.items, n)
  }

  /** The union, the select itself, and those in ORDER BY. */
  function RestLevels(s: Select, n: nat): (ls: Levels)
    decreases s, 2
  {
    UnionLevels(s, n + 1) + {(s.id, n)} + ExprsLevels(s.orderBy, n + 1)
  }

  function UnionLevels(s: Select, n: nat): (ls: Levels)
    decreases s, 0
  {
    if s.union.Some? then SelectLevels(s.union.value, n) else {}
  }

  function CtesLevels(cs: seq<Cte>, n: nat): (ls: Levels)
    decreases cs
  {
    if cs == [] then {} else CtesLevels(Front(cs), n) + SelectLevels(Last(cs).select, n)
  }

  function TableLevels(t: TableRef, n: nat): (ls: Levels)
    decreases t
  {
    match t
    case Named(_, _) => {}
    case Derived(_, s) => SelectLevels(s, n)
    case Join(l, r, on) => TableLevels(l, n) + TableLevels(r, n) + ExprLevels(on, n)
    case Tables(list) => TablesLevels(list, n)
  }

  function TablesLevels(ts: seq<TableRef>, n: nat): (ls: Levels)
    decreases ts
  {
    if ts == [] then {} else TablesLevels(Front(ts), n) + TableLevels(Last(ts), n)
  }

  function ExprLevels(e: Expr, n: nat): (ls: Levels)
    decreases e
  {
    match e
    case ColumnValue(_) => {}
    case Operator(children, _) => ExprsLevels(children, n)
    case Subquery(s) => SelectLevels(s, n)
  }

  function ExprsLevels(es: seq<Expr>, n: nat): (ls: Levels)
    decreases es
  {
    if es == [] then {} else ExprsLevels(Front(es), n) + ExprLevels(Last(es), n)
  }

  function ItemsLevels(items: seq<Item>, n: nat): (ls: Levels)
    decreases items
  {
    if items == [] then {} else ItemsLevels(Front(items), n) + ItemLevels(Last(items), n)
  }

  function ItemLevels(item: Item, n: nat): (ls: Levels)
    decreases item
  {
    if item.Star? then {} else ExprLevels(item.expr, n)
  }

  // ---- What a visit writes ----

  /** The depths that a visit assigns, in order. */
  type Writes = seq<(nat, nat)>

  function SelectWrites(s: Select, n: nat): (ws: Writes)
    decreases s, 4
  {
    SourceWrites(s, n + 1) + QueryWrites(s, n)
  }

  function SourceWrites(s: Select, n: nat): (ws: Writes)
    decreases s, 1
  {
    CtesWrites(s.ctes, n) + FromWrites(s, n)
  }

  function FromWrites(s: Select, n: nat): (ws: Writes)
    decreases s, 0
  {
    if s.from.Some? then TableWrites(s.from.value, n) else []
  }

  function QueryWrites(s: Select, n: nat): (ws: Writes)
    decreases s, 3
  {
    ListWrites(s, n + 1) + RestWrites(s, n)
  }

  function ListWrites(s: Select, n: nat): (ws: Writes)
    decreases s, 0
  {
    ExprsWrites(s.conditions, n) + ItemsWrites(s.items, n)
  }

  function RestWrites(s: Select, n: nat): (ws: Writes)
    decreases s, 2
  {
    UnionWrites(s, n + 1) + [(s.id, n)] + ExprsWrites(s.orderBy, n + 1)
  }

  function UnionWrites(s: Select, n: nat): (ws: Writes)
    decreases s, 0
  {
    if s.union.Some? then SelectWrites(s.union.value, n) else []
  }

  function CtesWrites(cs: seq<Cte>, n: nat): (ws: Writes)
    decreases cs
  {
    if cs == [] then [] else CtesWrites(Front(cs), n) + CteWrites(Last(cs), n)
  }

  /** What is visited before the entry is registered, and the select of the entry. */
  function CteWrites(c: Cte, n: nat): (ws: Writes)
    decreases c, 1
  {
    CteSourceWrites(c, n) + SelectWrites(c.select, n)
  }

  function CteSourceWrites(c: Cte, n: nat): (ws: Writes)
    decreases c, 0
  {
    if !c.recursive then SelectWrites(c.select, n) else UnionWrites(c.select, n)
  }

  function TableWrites(t: TableRef, n: nat): (ws: Writes)
    decreases t
  {
    match t
    case Named(_, _) => []
    case Derived(_, s) => SelectWrites(s, n)
    case Join(l, r, on) => TableWrites(l, n) + TableWrites(r, n) + ExprWrites(on, n)
    case Tables(list) => TablesWrites(list, n)
  }

  function TablesWrites(ts: seq<TableRef>, n: nat): (ws: Writes)
    decreases ts
  {
    if ts == [] then [] else TablesWrites(Front(ts), n) + TableWrites(Last(ts), n)
  }

  function ExprWrites(e: Expr, n: nat): (ws: Writes)
    decreases e
  {
    match e
    case ColumnValue(_) => []
    case Operator(children, twice) =>
      if twice then ExprsWrites(children, n) + ExprsWrites(children, n) else ExprsWrites(children, n)
    case Subquery(s) => SelectWrites(s, n)
  }

  function ExprsWrites(es: seq<Expr>, n: nat): (ws: Writes)
    decreases es
  {
    if es == [] then [] else ExprsWrites(Front(es), n) + ExprWrites(Last(es), n)
  }

  function ItemsWrites(items: seq<Item>, n: nat): (ws: Writes)
    decreases items
  {
    if items == [] then [] else ItemsWrites(Front(items), n) + ItemWrites(Last(items), n)
  }

  function ItemWrites(item: Item, n: nat): (ws: Writes)
    decreases item
  {
    if item.Star? then [] else ExprWrites(item.expr, n)
  }

  type Depths = map<nat, nat>

  /** The depths `d` come from `m` by some writes, one after the other. */
  ghost predicate Wrote(m: Depths, ws: Writes, d: Depths)
    decreases ws
  {
    if ws == [] then d == m else Wrote(m[ws[0].0 := ws[0].1], ws[1..], d)
  }

  lemma {:induction false} WroteThen(a: Depths, u: Writes, b: Depths, v: Writes, c: Depths)
    requires Wrote(a, u, b) && Wrote(b, v, c)
    ensures Wrote(a, u + v, c)
    decreases |u|
  {
    if u == [] { assert u + v == v; }
    else {
      assert (u + v)[0] == u[0] && (u + v)[1..] == u[1..] + v;
      WroteThen(a[u[0].0 := u[0].1], u[1..], b, v, c);
    }
  }

  lemma {:induction false} WroteParts(a: Depths, u: Writes, v: Writes, c: Depths) returns (b: Depths)
    requires Wrote(a, u + v, c)
    ensures Wrote(a, u, b) && Wrote(b, v, c)
    decreases |u|
  {
    if u == [] {
      assert u + v == v;
      b := a;
    } else {
      assert (u + v)[0] == u[0] && (u + v)[1..] == u[1..] + v;
      b := WroteParts(a[u[0].0 := u[0].1], u[1..], v, c);
    }
  }

  function CteSourceLevels(c: Cte, n: nat): (ls: Levels) {
    if CteSource(c).Some? then SelectLevels(CteSource(c).value, n) else {}
  }

  // ---- What a visit does to the depths ----

  predicate HasId(ls: Levels, id: nat) {
    exists p :: p in ls && p.0 == id
  }

  /** Exactly the selects of `ls` were assigned a depth, and that is their level. */
  ghost predicate Applied(before: map<nat, nat>, ls: Levels, after: map<nat, nat>) {
    && (forall id :: HasId(ls, id) ==> id in after && (id, after[id]) in ls)
    && (forall id :: !HasId(ls, id) && id in before ==> id in after && after[id] == before[id])
    && (forall id :: !HasId(ls, id) && id in after ==> id in before)
  }

  lemma {:induction false} AppliedNone(m: map<nat, nat>)
    ensures Applied(m, {}, m)
  {
  }

  lemma {:induction false} HasEither(u: Levels, v: Levels, id: nat)
    ensures HasId(u + v, id) <==> HasId(u, id) || HasId(v, id)
  {
  }

  /** One visit after the other. */
  lemma {:induction false} AppliedThen(a: map<nat, nat>, u: Levels, b: map<nat, nat>, v: Levels, c: map<nat, nat>)
    requires Applied(a, u, b) && Applied(b, v, c)
    ensures Applied(a, u + v, c)
  {
    forall id ensures HasId(u + v, id) <==> HasId(u, id) || HasId(v, id) { HasEither(u, v, id); }
  }

  /** A visit hides an earlier one of selects that it visits again. */
  lemma {:induction false} AppliedOver(a: map<nat, nat>, u: Levels, b: map<nat, nat>, v: Levels, c: map<nat, nat>)
    requires Applied(a, u, b) && Applied(b, v, c) && forall id :: HasId(u, id) ==> HasId(v, id)
    ensures Applied(a, v, c)
  {
  }

  /** If no two selects share an id, each has got its own level as depth. */
  lemma {:induction false} EachItsOwnDepth(before: map<nat, nat>, ls: Levels, after: map<nat, nat>)
    requires Applied(before, ls, after)
    requires forall p, q :: p in ls && q in ls && p.0 == q.0 ==> p == q
    ensures forall p :: p in ls ==> p.0 in after && after[p.0] == p.1
  {
    forall p | p in ls ensures p.0 in after && after[p.0] == p.1 { assert HasId(ls, p.0); }
  }

  // ---- The selects of a part are the same at every level ----

  lemma {:induction false} SelectDeeper(s: Select, n: nat, p: (nat, nat))
    requires p in SelectLevels(s, n)
    ensures (p.0, p.1 + 1) in SelectLevels(s, n + 1)
    decreases s, 4
  {
    if p in SourceLevels(s, n + 1) { SourceDeeper(s, n + 1, p); }
    else if p in ListLevels(s, n + 1) { ListDeeper(s, n + 1, p); }
    else { RestDeeper(s, n, p); }
    assert SelectLevels(s, n + 1) == SourceLevels(s, n + 2) + (ListLevels(s, n + 2) + RestLevels(s, n + 1));
  }

  lemma {:induction false} SourceDeeper(s: Select, n: nat, p: (nat, nat))
    requires p in SourceLevels(s, n)
    ensures (p.0, p.1 + 1) in SourceLevels(s, n + 1)
    decreases s, 0
  {
    if p in CtesLevels(s.ctes, n) { CtesDeeper(s.ctes, n, p); } else { TableDeeper(s.from.value, n, p); }
  }

  lemma {:induction false} ListDeeper(s: Select, n: nat, p: (nat, nat))
    requires p in ListLevels(s, n)
    ensures (p.0, p.1 + 1) in ListLevels(s, n + 1)
    decreases s, 0
  {
    if p in ExprsLevels(s.conditions, n) { ExprsDeeper(s.conditions, n, p); } else { ItemsDeeper(s.items, n, p); }
  }

  lemma {:induction false} RestDeeper(s: Select, n: nat, p: (nat, nat))
    requires p in RestLevels(s, n)
    ensures (p.0, p.1 + 1) in RestLevels(s, n + 1)
    decreases s, 0
  {
    if p in UnionLevels(s, n + 1) { SelectDeeper(s.union.value, n + 1, p); }
    else if p in ExprsLevels(s.orderBy, n + 1) { ExprsDeeper(s.orderBy, n + 1, p); }
  }

  lemma {:induction false} CtesDeeper(cs: seq<Cte>, n: nat, p: (nat, nat))
    requires p in CtesLevels(cs, n)
    ensures (p.0, p.1 + 1) in CtesLevels(cs, n + 1)
    decreases cs
  {
    if p in CtesLevels(Front(cs), n) { CtesDeeper(Front(cs), n, p); }
    else { SelectDeeper(Last(cs).select, n, p); }
  }

  lemma {:induction false} TableDeeper(t: TableRef, n: nat, p: (nat, nat))
    requires p in TableLevels(t, n)
    ensures (p.0, p.1 + 1) in TableLevels(t, n + 1)
    decreases t
  {
    match t
    case Named(_, _) =>
    case Derived(_, s) => SelectDeeper(s, n, p);
    case Join(l, r, on) =>
      if p in TableLevels(l, n) { TableDeeper(l, n, p); }
      else if p in TableLevels(r, n) { TableDeeper(r, n, p); }
      else { ExprDeeper(on, n, p); }
    case Tables(list) => TablesDeeper(list, n, p);
  }

  lemma {:induction false} TablesDeeper(ts: seq<TableRef>, n: nat, p: (nat, nat))
    requires p in TablesLevels(ts, n)
    ensures (p.0, p.1 + 1) in TablesLevels(ts, n + 1)
    decreases ts
  {
    if p in TablesLevels(Front(ts), n) { TablesDeeper(Front(ts), n, p); }
    else { TableDeeper(Last(ts), n, p); }
  }

  lemma {:induction false} ExprDeeper(e: Expr, n: nat, p: (nat, nat))
    requires p in ExprLevels(e, n)
    ensures (p.0, p.1 + 1) in ExprLevels(e, n + 1)
    decreases e
  {
    match e
    case ColumnValue(_) =>
    case Operator(children, _) => ExprsDeeper(children, n, p);
    case Subquery(s) => SelectDeeper(s, n, p);
  }

  lemma {:induction false} ExprsDeeper(es: seq<Expr>, n: nat, p: (nat, nat))
    requires p in ExprsLevels(es, n)
    ensures (p.0, p.1 + 1) in ExprsLevels(es, n + 1)
    decreases es
  {
    if p in ExprsLevels(Front(es), n) { ExprsDeeper(Front(es), n, p); }
    else { ExprDeeper(Last(es), n, p); }
  }

  lemma {:induction false} ItemsDeeper(items: seq<Item>, n: nat, p: (nat, nat))
    requires p in ItemsLevels(items, n)
    ensures (p.0, p.1 + 1) in ItemsLevels(items, n + 1)
    decreases items
  {
    if p in ItemsLevels(Front(items), n) { ItemsDeeper(Front(items), n, p); }
    else if Last(items).Element? { ExprDeeper(Last(items).expr, n, p); }
  }

  /** The base case of a recursive CTE, visited first on its own, is visited again with
      the select that it belongs to. */
  lemma {:induction false} BaseIsWithin(s: Select, n: nat, id: nat)
    requires s.union.Some? && HasId(SelectLevels(s.union.value, n), id)
    ensures HasId(SelectLevels(s, n), id)
  {
    var p :| p in SelectLevels(s.union.value, n) && p.0 == id;
    SelectDeeper(s.union.value, n, p);
    assert UnionLevels(s, n + 1) == SelectLevels(s.union.value, n + 1);
    assert (p.0, p.1 + 1) in RestLevels(s, n) && (p.0, p.1 + 1) in QueryLevels(s, n);
    assert (p.0, p.1 + 1) in SelectLevels(s, n);
  }

  lemma {:induction false} CteSourceWithin(c: Cte, n: nat)
    ensures forall id :: HasId(CteSourceLevels(c, n), id) ==> HasId(SelectLevels(c.select, n), id)
  {
    if c.recursive && c.select.union.Some? {
      forall id | HasId(CteSourceLevels(c, n), id) ensures HasId(SelectLevels(c.select, n), id) {
        BaseIsWithin(c.select, n, id);
      }
    }
  }

  lemma {:induction false} AppliedOne(m: map<nat, nat>, id: nat, n: nat)
    ensures Applied(m, {(id, n)}, m[id := n])
  {
    assert (id, n) in {(id, n)};
  }

  // ---- Each select gets its level ----

  /** Writing `ws` over any depths gives exactly the selects of `ls` their levels. */
  ghost predicate Gives(ws: Writes, ls: Levels) {
    forall m: Depths, d: Depths :: Wrote(m, ws, d) ==> Applied(m, ls, d)
  }

  lemma {:induction false} GivesNone()
    ensures Gives([], {})
  {
    forall m: Depths, d: Depths | Wrote(m, [], d) ensures Applied(m, {}, d) { AppliedNone(m); }
  }

  lemma {:induction false} GivesOne(id: nat, n: nat)
    ensures Gives([(id, n)], {(id, n)})
  {
    forall m: Depths, d: Depths | Wrote(m, [(id, n)], d) ensures Applied(m, {(id, n)}, d) {
      assert [(id, n)][1..] == [] && Wrote(m[id := n], [], d);
      AppliedOne(m, id, n);
    }
  }

  lemma {:induction false} GivesThen(u: Writes, ls: Levels, v: Writes, ks: Levels)
    requires Gives(u, ls) && Gives(v, ks)
    ensures Gives(u + v, ls + ks)
  {
    forall m: Depths, d: Depths | Wrote(m, u + v, d) ensures Applied(m, ls + ks, d) {
      var mid := WroteParts(m, u, v, d);
      AppliedThen(m, ls, mid, ks, d);
    }
  }

  /** Selects that are visited again get their depths from the last visit. */
  lemma {:induction false} GivesOver(u: Writes, ls: Levels, v: Writes, ks: Levels)
    requires Gives(u, ls) && Gives(v, ks) && forall id :: HasId(ls, id) ==> HasId(ks, id)
    ensures Gives(u + v, ks)
  {
    forall m: Depths, d: Depths | Wrote(m, u + v, d) ensures Applied(m, ks, d) {
      var mid := WroteParts(m, u, v, d);
      AppliedOver(m, ls, mid, ks, d);
    }
  }

  lemma {:induction false} SelectGives(s: Select, n: nat)
    ensures Gives(SelectWrites(s, n), SelectLevels(s, n))
    decreases s, 4
  {
    SourceGives(s, n + 1);
    QueryGives(s, n);
    GivesThen(SourceWrites(s, n + 1), SourceLevels(s, n + 1), QueryWrites(s, n), QueryLevels(s, n));
  }

  lemma {:induction false} SourceGives(s: Select, n: nat)
    ensures Gives(SourceWrites(s, n), SourceLevels(s, n))
    decreases s, 1
  {
    CtesGive(s.ctes, n);
    if s.from.Some? { TableGives(s.from.value, n); } else { GivesNone(); }
    GivesThen(CtesWrites(s.ctes, n), CtesLevels(s.ctes, n), FromWrites(s, n), FromLevels(s, n));
  }

  lemma {:induction false} QueryGives(s: Select, n: nat)
    ensures Gives(QueryWrites(s, n), QueryLevels(s, n))
    decreases s, 3
  {
    ListGives(s, n + 1);
    RestGives(s, n);
    GivesThen(ListWrites(s, n + 1), ListLevels(s, n + 1), RestWrites(s, n), RestLevels(s, n));
  }

  lemma {:induction false} ListGives(s: Select, n: nat)
    ensures Gives(ListWrites(s, n), ListLevels(s, n))
    decreases s, 0
  {
    ExprsGive(s.conditions, n);
    ItemsGive(s.items, n);
    GivesThen(ExprsWrites(s.conditions, n), ExprsLevels(s.conditions, n),
              ItemsWrites(s.items, n), ItemsLevels(s.items, n));
  }

  lemma {:induction false} RestGives(s: Select, n: nat)
    ensures Gives(RestWrites(s, n), RestLevels(s, n))
    decreases s, 2
  {
    UnionGives(s, n + 1);
    GivesOne(s.id, n);
    ExprsGive(s.orderBy, n + 1);
    var u, v := UnionWrites(s, n + 1), UnionLevels(s, n + 1);
    GivesThen(u, v, [(s.id, n)], {(s.id, n)});
    GivesThen(u + [(s.id, n)], v + {(s.id, n)}, ExprsWrites(s.orderBy, n + 1), ExprsLevels(s.orderBy, n + 1));
  }

  lemma {:induction false} UnionGives(s: Select, n: nat)
    ensures Gives(UnionWrites(s, n), UnionLevels(s, n))
    decreases s, 0
  {
    if s.union.Some? { SelectGives(s.union.value, n); } else { GivesNone(); }
  }

  lemma {:induction false} CtesGive(cs: seq<Cte>, n: nat)
    ensures Gives(CtesWrites(cs, n), CtesLevels(cs, n))
    decreases cs
  {
    if cs == [] { GivesNone(); }
    else {
      CtesGive(Front(cs), n);
      CteGives(Last(cs), n);
      GivesThen(CtesWrites(Front(cs), n), CtesLevels(Front(cs), n),
                CteWrites(Last(cs), n), SelectLevels(Last(cs).select, n));
    }
  }

  lemma {:induction false} CteGives(c: Cte, n: nat)
    ensures Gives(CteWrites(c, n), SelectLevels(c.select, n))
    decreases c, 1
  {
    SelectGives(c.select, n);
    if c.recursive { UnionGives(c.select, n); }
    CteSourceWithin(c, n);
    GivesOver(CteSourceWrites(c, n), CteSourceLevels(c, n), SelectWrites(c.select, n), SelectLevels(c.select, n));
  }

  lemma {:induction false} TableGives(t: TableRef, n: nat)
    ensures Gives(TableWrites(t, n), TableLevels(t, n))
    decreases t
  {
    match t
    case Named(_, _) => GivesNone();
    case Derived(_, s) => SelectGives(s, n);
    case Join(l, r, on) =>
      TableGives(l, n);
      TableGives(r, n);
      ExprGives(on, n);
      GivesThen(TableWrites(l, n), TableLevels(l, n), TableWrites(r, n), TableLevels(r, n));
      GivesThen(TableWrites(l, n) + TableWrites(r, n), TableLevels(l, n) + TableLevels(r, n),
                ExprWrites(on, n), ExprLevels(on, n));
    case Tables(list) => TablesGive(list, n);
  }

  lemma {:induction false} TablesGive(ts: seq<TableRef>, n: nat)
    ensures Gives(TablesWrites(ts, n), TablesLevels(ts, n))
    decreases ts
  {
    if ts == [] { GivesNone(); }
    else {
      TablesGive(Front(ts), n);
      TableGives(Last(ts), n);
      GivesThen(TablesWrites(Front(ts), n), TablesLevels(Front(ts), n),
                TableWrites(Last(ts), n), TableLevels(Last(ts), n));
    }
  }

  lemma {:induction false} ExprGives(e: Expr, n: nat)
    ensures Gives(ExprWrites(e, n), ExprLevels(e, n))
    decreases e
  {
    match e
    case ColumnValue(_) => GivesNone();
    case Operator(children, twice) =>
      ExprsGive(children, n);
      var ws, ls := ExprsWrites(children, n), ExprsLevels(children, n);
      if twice { GivesOver(ws, ls, ws, ls); }
    case Subquery(s) => SelectGives(s, n);
  }

  lemma {:induction false} ExprsGive(es: seq<Expr>, n: nat)
    ensures Gives(ExprsWrites(es, n), ExprsLevels(es, n))
    decreases es
  {
    if es == [] { GivesNone(); }
    else {
      ExprsGive(Front(es), n);
      ExprGives(Last(es), n);
      GivesThen(ExprsWrites(Front(es), n), ExprsLevels(Front(es), n), ExprWrites(Last(es), n), ExprLevels(Last(es), n));
    }
  }

  lemma {:induction false} ItemsGive(items: seq<Item>, n: nat)
    ensures Gives(ItemsWrites(items, n), ItemsLevels(items, n))
    decreases items
  {
    if items == [] { GivesNone(); }
    else {
      ItemsGive(Front(items), n);
      var item := Last(items);
      if item.Star? { GivesNone(); } else { ExprGives(item.expr, n); }
      GivesThen(ItemsWrites(Front(items), n), ItemsLevels(Front(items), n), ItemWrites(item, n), ItemLevels(item, n));
    }
  }

  /** After a visit each select in the tree has its level as depth, and no other select has
      changed, if no two selects share an id. */
  lemma {:induction false} DepthIsLevel(s: Select, n: nat, m: Depths, d: Depths)
    requires Wrote(m, SelectWrites(s, n), d)
    requires forall p, q :: p in SelectLevels(s, n) && q in SelectLevels(s, n) && p.0 == q.0 ==> p == q
    ensures forall p :: p in SelectLevels(s, n) ==> p.0 in d && d[p.0] == p.1
    ensures forall id :: !HasId(SelectLevels(s, n), id) ==> (id in d <==> id in m) && (id in m ==> d[id] == m[id])
  {
    SelectGives(s, n);
    assert Applied(m, SelectLevels(s, n), d);
    EachItsOwnDepth(m, SelectLevels(s, n), d);
  }
}
