/** Statements at which the binder does something unexpected, and what every visit of them
    comes to: they are accepted, or refused with a certain exception.
 */
module Statements {
  import opened Basics
  import opened SqlTypes
  import opened Scope
  import opened ColumnBinding
  import opened BinderContext
  import opened StarExpansion
  import opened SelectTree
  import opened SelectMeaning
  import opened SelectRefusals
  import opened SelectVisitor
  import opened FromAndStar
  import opened DerivedTables

  // ---- Plain selects ----

  /** A list of one element means what the element means. */
  lemma {:induction false} OneItemMeans(db: Catalog, names: Names, item: Item, chain: Chain, outs: seq<OutColumn>)
    ensures ListMeans(db, names, [item], chain, outs) <==> ItemMeans(db, names, item, chain, outs)
    ensures HasStar([item]) <==> item.Star?
  {
    assert Front([item]) == [] && Last([item]) == item && ItemsNames([]) == {} && names + {} == names;
    if ListMeans(db, names, [item], chain, outs) {
      var k :| 0 <= k <= |outs| && ListMeans(db, names, [], chain, outs[..k]) &&
               ItemMeans(db, names, item, chain, outs[k..]);
      assert outs[k..] == outs;
    }
    if ItemMeans(db, names, item, chain, outs) {
      assert outs[..0] == [] && outs[0..] == outs;
      assert ListMeans(db, names, [], chain, outs[..0]) && ItemMeans(db, names, item, chain, outs[0..]);
    }
  }

  /** A select with one element and neither conditions nor union nor ORDER BY. */
  predicate Plain(s: Select) {
    s.conditions == [] && |s.items| == 1 && (s.items[0].Star? ==> s.from.Some?) && s.union.None? && s.orderBy == []
  }

  lemma {:induction false} PlainMeans(db: Catalog, names: Names, s: Select, chain: Chain, outs: seq<OutColumn>)
    requires Plain(s)
    ensures QueryMeans(db, names, s, chain, outs) <==> ItemMeans(db, names, s.items[0], chain, outs)
  {
    assert s.items == [s.items[0]] && ExprsNames([]) == {} && names + {} == names;
    OneItemMeans(db, names, s.items[0], chain, outs);
    assert ExprsBind(db, names, [], chain, 0) && ExprsBind(db, names + ListNames(s) + UnionNames(s), [], chain, 0);
    assert RestBinds(db, names + ListNames(s), s, chain, outs);
    assert ConditionsBind(db, names, s, chain);
    assert ItemsBind(db, names, s, chain, outs) <==> ItemMeans(db, names, s.items[0], chain, outs);
  }

  lemma {:induction false} PlainRest(
    db: Catalog, names: Names, s: Select, chain: Chain, outs: seq<OutColumn>, err: BinderError)
    requires Plain(s)
    ensures !RestRefuses(db, names, s, chain, outs, err)
  {
    assert !ExprsRefuse(db, names + UnionNames(s), [], chain, 0, err);
  }

  /** Such a select can be refused only for its one element. */
  lemma {:induction false} PlainRefuses(db: Catalog, names: Names, s: Select, chain: Chain, err: BinderError)
    requires Plain(s) && QueryRefuses(db, names, s, chain, err)
    ensures ItemRefuses(db, names, s.items[0], s.from.Some?, chain, err)
  {
    forall outs ensures !RestRefuses(db, names + ListNames(s), s, chain, outs, err) {
      PlainRest(db, names + ListNames(s), s, chain, outs, err);
    }
    assert ListRefuses(db, names, s, chain, err);
    assert !ExprsRefuse(db, names, [], chain, 0, err) && !ConditionsRefuse(db, names, s, chain, err);
    assert ExprsNames([]) == {} && names + {} == names;
    PlainListRefuses(db, names, s, chain, err);
  }

  lemma {:induction false} PlainListRefuses(db: Catalog, names: Names, s: Select, chain: Chain, err: BinderError)
    requires Plain(s) && ItemsRefuse(db, names, s, chain, err)
    ensures ItemRefuses(db, names, s.items[0], s.from.Some?, chain, err)
  {
    var i, outs :| 0 <= i < |s.items| && ListMeans(db, names, s.items[..i], chain, outs) &&
                   (HasStar(s.items[..i]) ==> s.from.Some?) &&
                   ItemRefuses(db, names + ItemsNames(s.items[..i]), s.items[i], s.from.Some?, chain, err);
    assert s.items[..0] == [] && names + ItemsNames([]) == names;
  }

  /** An element that is never refused: a star, or an expression without columns. */
  predicate Harmless(item: Item) {
    item == Star(None) || (item.Element? && item.expr == Operator([], false))
  }

  lemma {:induction false} HarmlessQuery(db: Catalog, names: Names, s: Select, chain: Chain, err: BinderError)
    requires Plain(s) && Harmless(s.items[0])
    ensures !QueryRefuses(db, names, s, chain, err)
  {
    assert !ExprsRefuse(db, names, [], chain, 0, err) && !ExprRefuses(db, names, Operator([], false), chain, 0, err);
    if QueryRefuses(db, names, s, chain, err) { PlainRefuses(db, names, s, chain, err); }
  }

  /** A plain select whose element is not refused can be refused only for its WITH and FROM. */
  lemma {:induction false} HarmlessRefuses(db: Catalog, names: Names, s: Select, outer: Chain, err: BinderError)
    requires Plain(s) && Harmless(s.items[0])
    ensures SelectRefuses(db, names, s, outer, err) <==> SourceRefuses(db, names, s, outer, err)
  {
    forall inner ensures !QueryRefuses(db, names + SourceNames(s), s, [inner] + outer, err) {
      HarmlessQuery(db, names + SourceNames(s), s, [inner] + outer, err);
    }
  }

  // ---- Short lists of entries ----

  lemma {:induction false} NoCtes(db: Catalog, names: Names, outer: Chain, after: Scope)
    ensures CtesBuild(db, names, [], outer, after) <==> after == EMPTY
    ensures CtesNames([]) == {} && names + CtesNames([]) == names
  {
  }

  lemma {:induction false} OneCte(db: Catalog, names: Names, c: Cte, outer: Chain, after: Scope)
    ensures CtesBuild(db, names, [c], outer, after) <==> CteBuilds(db, names, c, outer, EMPTY, after)
    ensures CtesNames([c]) == CteNames(c)
  {
    assert Front([c]) == [] && Last([c]) == c;
    NoCtes(db, names, outer, EMPTY);
  }

  lemma {:induction false} TwoCtes(
    db: Catalog, names: Names, c: Cte, d: Cte, outer: Chain, after: Scope)
    returns (mid: Scope)
    requires CtesBuild(db, names, [c, d], outer, after)
    ensures CteBuilds(db, names, c, outer, EMPTY, mid) && CteBuilds(db, names + CteNames(c), d, outer, mid, after)
  {
    var cs := [c, d];
    assert Front(cs) == [c] && Last(cs) == d;
    mid := CtesParts(db, names, cs, outer, after);
    OneCte(db, names, c, outer, mid);
  }

  lemma {:induction false} OneTable(db: Catalog, names: Names, t: TableRef, outer: Chain, before: Scope, after: Scope)
    ensures TablesBuild(db, names, [t], outer, before, after) <==> TableBuilds(db, names, t, outer, before, after)
    ensures TablesNames([t]) == TableNames(t)
  {
    assert Front([t]) == [] && Last([t]) == t && TablesNames([]) == {} && names + {} == names;
    assert TablesBuild(db, names, [], outer, before, before);
    if TablesBuild(db, names, [t], outer, before, after) {
      var mid := TablesParts(db, names, [t], outer, before, after);
    }
  }

  lemma {:induction false} TwoTables(
    db: Catalog, names: Names, t: TableRef, u: TableRef, outer: Chain, before: Scope, after: Scope)
    ensures TablesBuild(db, names, [t, u], outer, before, after) <==>
              exists mid :: TableBuilds(db, names, t, outer, before, mid) &&
                            TableBuilds(db, names + TableNames(t), u, outer, mid, after)
  {
    var ts := [t, u];
    assert Front(ts) == [t] && Last(ts) == u;
    forall mid
      ensures TablesBuild(db, names, Front(ts), outer, before, mid) <==> TableBuilds(db, names, t, outer, before, mid)
      ensures TablesNames(Front(ts)) == TableNames(t)
    {
      OneTable(db, names, t, outer, before, mid);
    }
    OneTable(db, names, t, outer, before, before);
    if TablesBuild(db, names, ts, outer, before, after) {
      var mid := TablesParts(db, names, ts, outer, before, after);
      assert TableBuilds(db, names, t, outer, before, mid);
    }
  }

  lemma {:induction false} OneCteRefuses(db: Catalog, names: Names, c: Cte, outer: Chain, err: BinderError)
    requires CtesRefuse(db, names, [c], outer, err)
    ensures CteRefuses(db, names, c, outer, EMPTY, err)
  {
    var i, mid :| 0 <= i < |[c]| && CtesBuild(db, names, [c][..i], outer, mid) &&
                  CteRefuses(db, names + CtesNames([c][..i]), [c][i], outer, mid, err);
    assert [c][..0] == [];
    NoCtes(db, names, outer, mid);
  }

  lemma {:induction false} TwoCtesRefuse(db: Catalog, names: Names, c: Cte, d: Cte, outer: Chain, err: BinderError)
    returns (mid: Scope)
    requires CtesRefuse(db, names, [c, d], outer, err) && !CteRefuses(db, names, c, outer, EMPTY, err)
    ensures CteBuilds(db, names, c, outer, EMPTY, mid) && CteRefuses(db, names + CteNames(c), d, outer, mid, err)
  {
    var cs, i := [c, d], 0;
    i, mid :| 0 <= i < |cs| && CtesBuild(db, names, cs[..i], outer, mid) &&
              CteRefuses(db, names + CtesNames(cs[..i]), cs[i], outer, mid, err);
    assert cs[..0] == [] && cs[..1] == [c];
    if i == 0 { NoCtes(db, names, outer, mid); }
    OneCte(db, names, c, outer, mid);
  }

  lemma {:induction false} TwoTablesRefuse(
    db: Catalog, names: Names, t: TableRef, u: TableRef, outer: Chain, before: Scope, err: BinderError)
    returns (mid: Scope)
    requires TablesRefuse(db, names, [t, u], outer, before, err) && !TableRefuses(db, names, t, outer, before, err)
    ensures TableBuilds(db, names, t, outer, before, mid)
    ensures TableRefuses(db, names + TableNames(t), u, outer, mid, err)
  {
    var ts, i := [t, u], 0;
    i, mid :| 0 <= i < |ts| && TablesBuild(db, names, ts[..i], outer, before, mid) &&
              TableRefuses(db, names + TablesNames(ts[..i]), ts[i], outer, mid, err);
    assert ts[..0] == [] && ts[..1] == [t] && TablesNames([]) == {} && names + {} == names;
    assert TablesBuild(db, names, [], outer, before, mid) <==> mid == before;
    OneTable(db, names, t, outer, before, mid);
  }

  // ---- WITH and FROM of which one is missing ----

  lemma {:induction false} FromOnly(db: Catalog, names: Names, s: Select, outer: Chain, inner: Scope)
    requires s.ctes == []
    ensures SourceBuilds(db, names, s, outer, inner) <==> FromBuilds(db, names, s, outer, EMPTY, inner)
  {
    NoCtes(db, names, outer, EMPTY);
    if SourceBuilds(db, names, s, outer, inner) {
      var ctes := SourceParts(db, names, s, outer, inner);
      NoCtes(db, names, outer, ctes);
    }
    if FromBuilds(db, names, s, outer, EMPTY, inner) { SourceBuilt(db, names, s, outer, EMPTY, inner); }
  }

  lemma {:induction false} FromOnlyRefuses(db: Catalog, names: Names, s: Select, outer: Chain, err: BinderError)
    requires s.ctes == [] && SourceRefuses(db, names, s, outer, err)
    ensures FromRefuses(db, names, s, outer, EMPTY, err)
  {
    assert !CtesRefuse(db, names, [], outer, err);
    var ctes :| CtesBuild(db, names, s.ctes, outer, ctes) &&
                FromRefuses(db, names + CtesNames(s.ctes), s, outer, ctes, err);
    NoCtes(db, names, outer, ctes);
  }

  lemma {:induction false} WithRefuses(db: Catalog, names: Names, s: Select, outer: Chain, err: BinderError)
    returns (ctes: Scope)
    requires SourceRefuses(db, names, s, outer, err) && !CtesRefuse(db, names, s.ctes, outer, err)
    ensures CtesBuild(db, names, s.ctes, outer, ctes)
    ensures FromRefuses(db, names + CtesNames(s.ctes), s, outer, ctes, err)
  {
    ctes :| CtesBuild(db, names, s.ctes, outer, ctes) &&
            FromRefuses(db, names + CtesNames(s.ctes), s, outer, ctes, err);
  }

  // ---- SELECT * FROM c ----

  /** SELECT * FROM name */
  function StarOf(id: nat, name: string): (s: Select) {
    Select(id, [], Some(Named(name, name)), [], [Star(None)], None, [])
  }

  lemma {:induction false} NoBlocks(blocks: seq<Block>)
    ensures BlocksOf(map[], {}, blocks) <==> blocks == []
  {
    var none: map<string, NestedTable> := map[];
    assert blocks != [] ==> blocks[0].alias !in none;
  }

  lemma {:induction false} EmptyExpansion(depth: int, refs: seq<ColumnRef>)
    ensures Expansion(EMPTY, depth, refs) <==> refs == []
  {
    assert EMPTY.nested.Keys == {} && RegularAll(EMPTY, [], None, depth) == [];
    forall blocks ensures BlocksOf(EMPTY.nested, {}, blocks) <==> blocks == [] { NoBlocks(blocks); }
    assert NestedAll([], depth) == [] && BlocksOf(EMPTY.nested, EMPTY.nested.Keys, []);
  }

  lemma {:induction false} EmptyStarMeans(outer: Chain, outs: seq<OutColumn>)
    ensures StarMeans(None, [EMPTY] + outer, outs) <==> outs == []
  {
    var depth := DepthOf([EMPTY] + outer, 0);
    forall refs ensures Expansion(EMPTY, depth, refs) <==> refs == [] { EmptyExpansion(depth, refs); }
    assert StarColumns([]) == [];
    assert Expansion(EMPTY, depth, []);
  }

  /** SELECT * from a CTE of an enclosing select, or any other name announced before, under
      its own name: it is accepted, the scope stays empty, and there are no columns. */
  lemma {:induction false} StarOfOuterCte(
    db: Catalog, names: Names, id: nat, c: string, outer: Chain, inner: Scope, outs: seq<OutColumn>)
    requires c in names
    ensures SelectMeans(db, names, StarOf(id, c), outer, inner, outs) <==> inner == EMPTY && outs == []
    ensures forall err :: !SelectRefuses(db, names, StarOf(id, c), outer, err)
  {
    var s := StarOf(id, c);
    assert AddCteAlias([EMPTY] + outer, c, c) == Ok(EMPTY);
    FromOnly(db, names, s, outer, inner);
    PlainMeans(db, names + SourceNames(s), s, [EMPTY] + outer, outs);
    EmptyStarMeans(outer, outs);
    forall err ensures !SelectRefuses(db, names, s, outer, err) { StarOfNotRefused(db, names, id, c, outer, err); }
  }

  lemma {:induction false} StarOfNotRefused(
    db: Catalog, names: Names, id: nat, c: string, outer: Chain, err: BinderError)
    requires c in names
    ensures !SelectRefuses(db, names, StarOf(id, c), outer, err)
  {
    var s := StarOf(id, c);
    HarmlessRefuses(db, names, s, outer, err);
    assert AddCteAlias([EMPTY] + outer, c, c) == Ok(EMPTY);
    if SourceRefuses(db, names, s, outer, err) { FromOnlyRefuses(db, names, s, outer, err); }
  }

  // ---- SELECT 1 ----

  /** SELECT 1 AS alias, of some type; without an alias if that is empty */
  function Constant(id: nat, alias: string, serial: nat, typ: TypeId): (s: Select) {
    Select(id, [], None, [], [Element(Operator([], false), alias, serial, "", typ)], None, [])
  }

  function ConstantColumn(alias: string, serial: nat, typ: TypeId): (o: OutColumn) {
    OutColumn(AliasOf(alias, serial), None, alias, typ)
  }

  lemma {:induction false} ConstantMeans(
    db: Catalog, names: Names, id: nat, alias: string, serial: nat, typ: TypeId, outer: Chain,
    inner: Scope, outs: seq<OutColumn>)
    ensures SelectMeans(db, names, Constant(id, alias, serial, typ), outer, inner, outs) <==>
              inner == EMPTY && outs == [ConstantColumn(alias, serial, typ)]
  {
    var s := Constant(id, alias, serial, typ);
    FromOnly(db, names, s, outer, inner);
    PlainMeans(db, names + SourceNames(s), s, [inner] + outer, outs);
    assert ExprsBind(db, names + SourceNames(s), [], [inner] + outer, 0);
    assert ExprBinds(db, names + SourceNames(s), Operator([], false), [inner] + outer, 0);
  }

  lemma {:induction false} ConstantAccepted(
    db: Catalog, names: Names, id: nat, alias: string, serial: nat, typ: TypeId, outer: Chain, err: BinderError)
    ensures !SelectRefuses(db, names, Constant(id, alias, serial, typ), outer, err)
  {
    var s := Constant(id, alias, serial, typ);
    HarmlessRefuses(db, names, s, outer, err);
    if SourceRefuses(db, names, s, outer, err) { FromOnlyRefuses(db, names, s, outer, err); }
  }

  lemma {:induction false} ConstantNames(id: nat, alias: string, serial: nat, typ: TypeId)
    ensures SelectNames(Constant(id, alias, serial, typ)) == {}
  {
    var s := Constant(id, alias, serial, typ);
    var e := Operator([], false);
    assert ExprNames(e) == {} && Front(s.items) == [] && Last(s.items).expr == e;
    assert ItemNames(Last(s.items)) == {} && ItemsNames(s.items) == {} && ExprsNames([]) == {};
    assert ListNames(s) == {} && UnionNames(s) == {} && RestNames(s) == {};
    assert CtesNames(s.ctes) == {} && FromNames(s) == {} && SourceNames(s) == {};
    assert QueryNames(s) == {};
  }

  // ---- WITH c AS (SELECT 1) ----

  function WithConstant(c: string, columns: seq<string>, id: nat, alias: string, serial: nat, typ: TypeId): (e: Cte) {
    WithEntry(c, columns, Constant(id, alias, serial, typ), false)
  }

  lemma {:induction false} ConstantCteMeans(
    db: Catalog, names: Names, c: string, columns: seq<string>, id: nat, alias: string, serial: nat, typ: TypeId,
    chain: Chain, outs: seq<OutColumn>)
    requires CteMeans(db, names, WithConstant(c, columns, id, alias, serial, typ), chain, outs)
    ensures outs == [ConstantColumn(alias, serial, typ)]
  {
    var inner := CteSelect(db, names, WithConstant(c, columns, id, alias, serial, typ), chain, outs);
    ConstantMeans(db, names, id, alias, serial, typ, chain, inner, outs);
  }

  lemma {:induction false} ConstantCteAccepted(
    db: Catalog, names: Names, c: string, columns: seq<string>, id: nat, alias: string, serial: nat, typ: TypeId,
    outer: Chain, err: BinderError)
    requires c != "" && |columns| <= 1
    ensures !CteRefuses(db, names, WithConstant(c, columns, id, alias, serial, typ), outer, EMPTY, err)
  {
    var cte := WithConstant(c, columns, id, alias, serial, typ);
    ConstantCteOpens(db, names, c, columns, id, alias, serial, typ, outer, err);
    forall after ensures !AgainRefuses(db, names + {c} + CteSourceNames(cte), cte, [after] + outer, err) {
      ConstantAccepted(db, names + {c} + CteSourceNames(cte), id, alias, serial, typ, [after] + outer, err);
    }
  }

  lemma {:induction false} ConstantCteOpens(
    db: Catalog, names: Names, c: string, columns: seq<string>, id: nat, alias: string, serial: nat, typ: TypeId,
    outer: Chain, err: BinderError)
    requires c != "" && |columns| <= 1
    ensures !OpenRefuses(db, names, WithConstant(c, columns, id, alias, serial, typ), outer, EMPTY, err)
  {
    var cte, chain := WithConstant(c, columns, id, alias, serial, typ), [EMPTY] + outer;
    ConstantAccepted(db, names + {c}, id, alias, serial, typ, chain, err);
    assert !AgainRefuses(db, names + {c}, cte, chain, err) && !CteSourceRefuses(db, names + {c}, cte, chain, err);
    forall outs | CteMeans(db, names + {c}, cte, chain, outs) ensures !RegisterRefuses(EMPTY, cte, outs, err) {
      ConstantCteMeans(db, names + {c}, c, columns, id, alias, serial, typ, chain, outs);
    }
  }

  /** However it is bound, it has one column. */
  lemma {:induction false} ConstantCteScope(
    db: Catalog, names: Names, c: string, columns: seq<string>, id: nat, alias: string, serial: nat, typ: TypeId,
    outer: Chain, after: Scope)
    requires CteBuilds(db, names, WithConstant(c, columns, id, alias, serial, typ), outer, EMPTY, after)
    ensures after.regular == map[] && after.list == [] && after.nested.Keys == {c} && |after.nested[c]| == 1
  {
    var cte := WithConstant(c, columns, id, alias, serial, typ);
    var outs, counter := CteParts(db, names, cte, outer, EMPTY, after);
    ConstantCteMeans(db, names + {c}, c, columns, id, alias, serial, typ, [EMPTY] + outer, outs);
    OneColumnStored(EMPTY, cte, outs[0], counter, after);
  }

  lemma {:induction false} StoredOne(c: NestedColumn, t: NestedTable)
    requires StoredAs([c], t)
    ensures t == [c]
  {
    assert multiset(t) == multiset{c};
    assert |t| == |multiset(t)| == 1;
    assert t[0] in multiset(t);
  }

  lemma {:induction false} OneColumnStored(before: Scope, c: Cte, o: OutColumn, counter: nat, after: Scope)
    requires CteAs(before, c, [o], counter, after)
    ensures after.regular == before.regular && after.list == before.list
    ensures after.nested.Keys == before.nested.Keys + {c.alias} && |after.nested[c.alias]| == 1
    ensures after.nested[c.alias][0].alias.name == CteName(c.names, SelectColumns([o]), 0)
    ensures after.nested[c.alias][0].typ == o.typ
  {
    var cs := CteColumns(c.names, SelectColumns([o]), counter);
    var stored :| StoredAs(cs, stored) && AddCte(before, c.alias, stored) == Ok(after);
    assert cs == [cs[0]];
    StoredOne(cs[0], stored);
  }

  // ---- A CTE that is not in FROM ----

  /** WITH c AS (SELECT 1 AS x) SELECT * FROM t */
  function Unused(c: string, t: string, x: string, typ: TypeId): (s: Select) {
    Select(0, [WithConstant(c, [], 1, x, 0, typ)], Some(Named(t, t)), [], [Star(None)], None, [])
  }

  lemma {:induction false} UnusedNames(c: string, t: string, x: string, typ: TypeId)
    ensures {} + CtesNames(Unused(c, t, x, typ).ctes) == {c}
  {
    var cte := WithConstant(c, [], 1, x, 0, typ);
    ConstantNames(1, x, 0, typ);
    OneCte(map[], {}, cte, [], EMPTY);
  }

  lemma {:induction false} UnusedCteAccepted(
    db: Catalog, c: string, t: string, x: string, typ: TypeId, err: BinderError)
    requires t in db && c != t && c != ""
    ensures !SelectRefuses(db, {}, Unused(c, t, x, typ), [], err)
  {
    var s, cte := Unused(c, t, x, typ), WithConstant(c, [], 1, x, 0, typ);
    HarmlessRefuses(db, {}, s, [], err);
    ConstantCteAccepted(db, {}, c, [], 1, x, 0, typ, [], err);
    UnusedNames(c, t, x, typ);
    if CtesRefuse(db, {}, s.ctes, [], err) { OneCteRefuses(db, {}, cte, [], err); }
    forall ctes | CtesBuild(db, {}, s.ctes, [], ctes) ensures AddRegular(ctes, t, db[t]).Ok? {
      OneCte(db, {}, cte, [], ctes);
      ConstantCteScope(db, {}, c, [], 1, x, 0, typ, [], ctes);
      assert ctes.nested.Keys == {c};
    }
    if SourceRefuses(db, {}, s, [], err) { var ctes := WithRefuses(db, {}, s, [], err); }
  }

  /** It also emits the columns of c, which is not in its FROM. */
  lemma {:induction false} UnusedCteIsEmitted(
    db: Catalog, c: string, t: string, x: string, typ: TypeId, inner: Scope, depth: int, refs: seq<ColumnRef>)
    requires t in db && c != t && c != ""
    requires SourceBuilds(db, {}, Unused(c, t, x, typ), [], inner) && Listed(inner) && Expansion(inner, depth, refs)
    ensures Emits(refs, c) && !InFrom(FromEntries({}, Unused(c, t, x, typ)), c)
    ensures forall err :: !SelectRefuses(db, {}, Unused(c, t, x, typ), [], err)
  {
    var s := Unused(c, t, x, typ);
    UnusedScope(db, c, t, x, typ, inner);
    UnusedNames(c, t, x, typ);
    StarEmits(inner, depth, refs, c);
    assert FromEntries({}, s) == [Entry(t, false)];
    forall err ensures !SelectRefuses(db, {}, s, [], err) { UnusedCteAccepted(db, c, t, x, typ, err); }
  }

  lemma {:induction false} UnusedScope(db: Catalog, c: string, t: string, x: string, typ: TypeId, inner: Scope)
    requires t in db && c != t && SourceBuilds(db, {}, Unused(c, t, x, typ), [], inner)
    ensures HasColumns(inner, c)
  {
    var s, cte := Unused(c, t, x, typ), WithConstant(c, [], 1, x, 0, typ);
    var ctes := SourceParts(db, {}, s, [], inner);
    OneCte(db, {}, cte, [], ctes);
    ConstantCteScope(db, {}, c, [], 1, x, 0, typ, [], ctes);
    UnusedNames(c, t, x, typ);
    assert AddRegular(ctes, t, db[t]) == Ok(inner);
  }

  // ---- A derived table without columns ----

  /** SELECT * FROM (SELECT 1) a */
  function Nameless(a: string, typ: TypeId): (s: Select) {
    Select(0, [], Some(Derived(a, Constant(1, "", 0, typ))), [], [Star(None)], None, [])
  }

  lemma {:induction false} NamelessAccepted(db: Catalog, a: string, typ: TypeId, err: BinderError)
    requires a != ""
    ensures !SelectRefuses(db, {}, Nameless(a, typ), [], err)
  {
    var s := Nameless(a, typ);
    HarmlessRefuses(db, {}, s, [], err);
    ConstantAccepted(db, {}, 1, "", 0, typ, [EMPTY] + [], err);
    if SourceRefuses(db, {}, s, [], err) { FromOnlyRefuses(db, {}, s, [], err); }
  }

  /** The column of the derived table has no name and is not stored: nothing is emitted, though
      no other condition of StarIsFromIff fails. */
  lemma {:induction false} NamelessIsNotEmitted(
    db: Catalog, a: string, typ: TypeId, inner: Scope, depth: int, refs: seq<ColumnRef>)
    requires a != ""
    requires SourceBuilds(db, {}, Nameless(a, typ), [], inner) && Listed(inner) && Expansion(inner, depth, refs)
    ensures InFrom(FromEntries({}, Nameless(a, typ)), a) && forall b :: !Emits(refs, b)
    ensures forall err :: !SelectRefuses(db, {}, Nameless(a, typ), [], err)
  {
    var s, sub := Nameless(a, typ), Constant(1, "", 0, typ);
    FromOnly(db, {}, s, [], inner);
    NamelessScope(db, a, typ, inner);
    forall b ensures !Emits(refs, b) { StarEmits(inner, depth, refs, b); }
    assert FromEntries({}, s)[0] == Entry(a, false);
    forall err ensures !SelectRefuses(db, {}, s, [], err) { NamelessAccepted(db, a, typ, err); }
  }

  lemma {:induction false} NamelessScope(db: Catalog, a: string, typ: TypeId, inner: Scope)
    requires TableBuilds(db, {}, Derived(a, Constant(1, "", 0, typ)), [], EMPTY, inner)
    ensures inner == EMPTY.(nested := map[a := []])
  {
    var below, outs := DerivedParts(db, {}, a, Constant(1, "", 0, typ), [], EMPTY, inner);
    ConstantMeans(db, {}, 1, "", 0, typ, [EMPTY] + [], below, outs);
    NothingStored(a, outs, inner);
  }

  lemma {:induction false} NothingStored(a: string, outs: seq<OutColumn>, after: Scope)
    requires |outs| == 1 && !Nameable(outs[0]) && NestedAs(EMPTY, a, outs, after)
    ensures after == EMPTY.(nested := map[a := []])
  {
    NamedAreStored(outs);
    var t :| StoredAs(NestedColumns(outs), t) && AddNested(EMPTY, a, t) == Ok(after);
    assert |multiset(t)| == |t|;
  }

  // ---- SELECT * from a CTE of the same WITH ----

  /** WITH x AS (...), y(i, ...) AS (SELECT * FROM x) is refused, whatever x is: y has more
      names than columns. */
  lemma {:induction false} StarredCteIsRefused(
    db: Catalog, names: Names, x: Cte, y: string, columns: seq<string>, id: nat, outer: Chain, after: Scope)
    requires columns != []
    ensures !CtesBuild(db, names, [x, WithEntry(y, columns, StarOf(id, x.alias), false)], outer, after)
  {
    var c := WithEntry(y, columns, StarOf(id, x.alias), false);
    if CtesBuild(db, names, [x, c], outer, after) {
      var mid := TwoCtes(db, names, x, c, outer, after);
      StarredHasNoColumns(db, names + CteNames(x), c, x.alias, id, outer, mid, after);
    }
  }

  lemma {:induction false} StarredHasNoColumns(
    db: Catalog, names: Names, c: Cte, x: string, id: nat, outer: Chain, before: Scope, after: Scope)
    requires x in names && !c.recursive && c.select == StarOf(id, x) && CteBuilds(db, names, c, outer, before, after)
    ensures c.names == []
  {
    var outs, counter := CteParts(db, names, c, outer, before, after);
    var inner := CteSelect(db, names + {c.alias}, c, [before] + outer, outs);
    StarOfOuterCte(db, names + {c.alias}, id, x, [before] + outer, inner, outs);
  }

  /** WITH x(i) AS (SELECT 1), y(i) AS (SELECT * FROM x) SELECT * FROM y */
  function Starred(x: string, y: string, i: string, typ: TypeId): (s: Select) {
    Select(0, [WithConstant(x, [i], 1, "", 0, typ), WithEntry(y, [i], StarOf(2, x), false)],
           Some(Named(y, y)), [], [Star(None)], None, [])
  }

  /** Every visit of it ends with the exception for more names than columns. */
  lemma {:induction false} StarredStatement(
    db: Catalog, x: string, y: string, i: string, typ: TypeId, inner: Scope, outs: seq<OutColumn>, err: BinderError)
    requires x != "" && y != "" && x != y
    ensures !SelectMeans(db, {}, Starred(x, y, i, typ), [], inner, outs)
    ensures SelectRefuses(db, {}, Starred(x, y, i, typ), [], err) ==> err == InvalidSchemaDefinition
  {
    var s := Starred(x, y, i, typ);
    forall ctes ensures !CtesBuild(db, {}, s.ctes, [], ctes) {
      StarredCteIsRefused(db, {}, s.ctes[0], y, [i], 2, [], ctes);
    }
    assert !SourceBuilds(db, {}, s, [], inner);
    HarmlessRefuses(db, {}, s, [], err);
    if CtesRefuse(db, {}, s.ctes, [], err) {
      ConstantCteAccepted(db, {}, x, [i], 1, "", 0, typ, [], err);
      var mid := TwoCtesRefuse(db, {}, s.ctes[0], s.ctes[1], [], err);
      StarredRefusal(db, {} + CteNames(s.ctes[0]), s.ctes[1], x, 2, [], mid, err);
    }
  }

  lemma {:induction false} StarredRefusal(
    db: Catalog, names: Names, c: Cte, x: string, id: nat, outer: Chain, before: Scope, err: BinderError)
    requires x in names && !c.recursive && c.select == StarOf(id, x) && c.alias != "" && c.names != []
    requires CteRefuses(db, names, c, outer, before, err)
    ensures err == InvalidSchemaDefinition
  {
    var chain := [before] + outer;
    StarOfNotRefused(db, names + {c.alias}, id, x, chain, err);
    assert !AgainRefuses(db, names + {c.alias}, c, chain, err);
    forall outs | CteMeans(db, names + {c.alias}, c, chain, outs) ensures outs == [] {
      var inner := CteSelect(db, names + {c.alias}, c, chain, outs);
      StarOfOuterCte(db, names + {c.alias}, id, x, chain, inner, outs);
    }
    assert !CteSourceRefuses(db, names + {c.alias}, c, chain, err);
    forall outs, counter, after | CteMeans(db, names + {c.alias}, c, chain, outs)
      ensures !CteAs(before, c, outs, counter, after)
    {
    }
    var outs := OpenParts(db, names, c, outer, before, err);
  }

  lemma {:induction false} OpenParts(
    db: Catalog, names: Names, c: Cte, outer: Chain, before: Scope, err: BinderError)
    returns (outs: seq<OutColumn>)
    requires OpenRefuses(db, names, c, outer, before, err)
    requires !CteSourceRefuses(db, names + {c.alias}, c, [before] + outer, err)
    ensures CteMeans(db, names + {c.alias}, c, [before] + outer, outs) && RegisterRefuses(before, c, outs, err)
  {
    outs :| CteMeans(db, names + {c.alias}, c, [before] + outer, outs) && RegisterRefuses(before, c, outs, err);
  }

  // ---- A catalog table behind a CTE ----

  /** So a CTE somewhere in an entry of FROM hides the catalog table from the entries after
      it: FROM l, t is then FROM l. */
  lemma {:induction false} AnnouncedHides(
    db: Catalog, names: Names, l: TableRef, t: string, outer: Chain, before: Scope, after: Scope)
    requires TableBuilds(db, names, Tables([l, Named(t, t)]), outer, before, after) && t in names + TableNames(l)
    ensures TableBuilds(db, names, l, outer, before, after)
  {
    TwoTables(db, names, l, Named(t, t), outer, before, after);
    var mid :| TableBuilds(db, names, l, outer, before, mid) &&
               TableBuilds(db, names + TableNames(l), Named(t, t), outer, mid, after);
    assert mid == after;
  }

  /** WITH t AS (SELECT 1 AS x) SELECT 2 AS x */
  function Announcing(t: string, x: string, typ: TypeId): (s: Select) {
    Select(1, [WithConstant(t, [], 2, x, 0, typ)], None, [], Constant(3, x, 0, typ).items, None, [])
  }

  lemma {:induction false} AnnouncingAccepted(
    db: Catalog, t: string, x: string, typ: TypeId, outer: Chain, err: BinderError)
    requires t != ""
    ensures !SelectRefuses(db, {}, Announcing(t, x, typ), outer, err)
  {
    var s := Announcing(t, x, typ);
    HarmlessRefuses(db, {}, s, outer, err);
    ConstantCteAccepted(db, {}, t, [], 2, x, 0, typ, outer, err);
    if CtesRefuse(db, {}, s.ctes, outer, err) { OneCteRefuses(db, {}, s.ctes[0], outer, err); }
    if SourceRefuses(db, {}, s, outer, err) { var ctes := WithRefuses(db, {}, s, outer, err); }
  }

  /** SELECT 3 AS y FROM (WITH t AS (SELECT 1 AS x) SELECT 2 AS x) a, t */
  function Hiding(a: string, t: string, x: string, y: string, typ: TypeId): (s: Select) {
    Select(0, [], Some(Tables([Derived(a, Announcing(t, x, typ)), Named(t, t)])), [],
           Constant(4, y, 0, typ).items, None, [])
  }

  lemma {:induction false} HidingEntries(a: string, t: string, x: string, typ: TypeId)
    ensures t in TableNames(Derived(a, Announcing(t, x, typ)))
    ensures ListEntries({}, [Derived(a, Announcing(t, x, typ)), Named(t, t)]) == [Entry(a, false), Entry(t, true)]
  {
    var s, l, n := Announcing(t, x, typ), Derived(a, Announcing(t, x, typ)), Named(t, t);
    OneCte(map[], {}, s.ctes[0], [], EMPTY);
    assert t in CteNames(s.ctes[0]) && t in CtesNames(s.ctes) && t in SourceNames(s) && t in SelectNames(s);
    var ts := [l, n];
    assert Front(ts) == [l] && Last(ts) == n && Front([l]) == [] && Last([l]) == l;
    assert TablesNames([l]) == TableNames(l);
    assert ListEntries({}, [l]) == [Entry(a, false)];
  }

  lemma {:induction false} HidingAccepted(
    db: Catalog, a: string, t: string, x: string, y: string, typ: TypeId, err: BinderError)
    requires a != "" && t != ""
    ensures !SelectRefuses(db, {}, Hiding(a, t, x, y, typ), [], err)
  {
    var s, l := Hiding(a, t, x, y, typ), Derived(a, Announcing(t, x, typ));
    HarmlessRefuses(db, {}, s, [], err);
    HidingEntries(a, t, x, typ);
    AnnouncingAccepted(db, t, x, typ, [EMPTY] + [], err);
    assert !TableRefuses(db, {}, l, [], EMPTY, err);
    forall mid ensures !TableRefuses(db, {} + TableNames(l), Named(t, t), [], mid, err) {
      assert AddCteAlias([mid] + [], t, t) == Ok(mid);
    }
    if SourceRefuses(db, {}, s, [], err) {
      FromOnlyRefuses(db, {}, s, [], err);
      var mid := TwoTablesRefuse(db, {}, l, Named(t, t), [], EMPTY, err);
    }
  }

  /** It is accepted and, however it is bound, registers only `a`, whether or not the catalog
      has a table t; columns of t are not found. */
  lemma {:induction false} HiddenTable(
    db: Catalog, a: string, t: string, x: string, y: string, typ: TypeId, inner: Scope, column: string, e: ColumnRef)
    requires a != "" && t != "" && a != t && SourceBuilds(db, {}, Hiding(a, t, x, y, typ), [], inner)
    ensures forall b :: HasAlias(inner, b) <==> b == a
    ensures BindQualified([inner], e, t, column) == Throw(UndefinedTable)
    ensures forall err :: !SelectRefuses(db, {}, Hiding(a, t, x, y, typ), [], err)
  {
    var s := Hiding(a, t, x, y, typ);
    FromOnly(db, {}, s, [], inner);
    TableAdds(db, {}, s.from.value, [], EMPTY, inner);
    HidingEntries(a, t, x, typ);
    var es := Entries({}, s.from.value);
    assert es == [Entry(a, false), Entry(t, true)] && es[0].alias == a && Registers(es, a);
    forall b ensures HasAlias(inner, b) <==> b == a { assert Registers(es, b) <==> b == a; }
    CteNameWithoutCte([inner], t, e, column);
    forall err ensures !SelectRefuses(db, {}, s, [], err) { HidingAccepted(db, a, t, x, y, typ, err); }
  }

  // ---- Columns of a catalog table ----

  function Column(x: string): (item: Item) {
    Element(ColumnValue(Written("", x)), "", 0, "", INVALID)
  }

  function TableScope(t: string, table: Table): (s: Scope) {
    Scope(map[t := table], [t], map[])
  }

  /** What x means where t is the only table. */
  function TableColumn(table: Table, x: string): (o: OutColumn)
    requires ColumnInSchema(table.schema, x)
  {
    OutColumn(NO_ALIAS, Some(x), x, GetColumn(table.schema, x).typ)
  }

  ghost predicate HasColumn(table: Table, x: string) {
    Lower(x) == x && x != "" && ColumnInSchema(table.schema, x)
  }

  lemma {:induction false} OnlyTable(table: Table, t: string, x: string, outer: Chain)
    requires HasColumn(table, x)
    ensures var chain := [TableScope(t, table)] + outer;
            Bind(chain, Written("", x)) == Ok(Take(chain, 0, FromRegular(t), Written("", x)))
  {
    var s := TableScope(t, table);
    var chain, e := [s] + outer, Written("", x);
    assert FromRegular(t) in Candidates(s, x);
    assert Candidates(s, x) == {FromRegular(t)};
    assert chain[0] == s && Innermost(chain, x) == Some(0);
    DecidedAt(chain, e, 0, FromRegular(t));
  }

  lemma {:induction false} ColumnMeans(
    db: Catalog, names: Names, table: Table, t: string, x: string, outer: Chain, outs: seq<OutColumn>, err: BinderError)
    requires HasColumn(table, x)
    ensures var chain := [TableScope(t, table)] + outer;
            && (ItemMeans(db, names, Column(x), chain, outs) <==> outs == [TableColumn(table, x)])
            && !ItemRefuses(db, names, Column(x), true, chain, err)
  {
    var chain := [TableScope(t, table)] + outer;
    OnlyTable(table, t, x, outer);
    assert After(chain, Written("", x), 0) == Written("", x);
    assert After(chain, Written("", x), 1) == Take(chain, 0, FromRegular(t), Written("", x));
    assert ExprBinds(db, names, ColumnValue(Written("", x)), chain, 0);
  }

  /** FROM t alone, with t from the catalog */
  lemma {:induction false} TableOnly(db: Catalog, names: Names, s: Select, t: string, outer: Chain, inner: Scope)
    requires t in db && t !in names && s.ctes == [] && s.from == Some(Named(t, t))
    ensures SourceBuilds(db, names, s, outer, inner) <==> inner == TableScope(t, db[t])
    ensures forall err :: !SourceRefuses(db, names, s, outer, err)
  {
    FromOnly(db, names, s, outer, inner);
    assert EMPTY.regular[t := db[t]] == map[t := db[t]] && EMPTY.list + [t] == [t];
    forall err ensures !SourceRefuses(db, names, s, outer, err) {
      if SourceRefuses(db, names, s, outer, err) { FromOnlyRefuses(db, names, s, outer, err); }
    }
  }

  /** SELECT x FROM t */
  function ColumnOf(id: nat, t: string, x: string): (s: Select) {
    Select(id, [], Some(Named(t, t)), [], [Column(x)], None, [])
  }

  lemma {:induction false} ColumnOfMeans(
    db: Catalog, names: Names, id: nat, t: string, x: string, outer: Chain, inner: Scope, outs: seq<OutColumn>)
    requires t in db && t !in names && HasColumn(db[t], x)
    requires SelectMeans(db, names, ColumnOf(id, t, x), outer, inner, outs)
    ensures outs == [TableColumn(db[t], x)]
  {
    var s := ColumnOf(id, t, x);
    TableOnly(db, names, s, t, outer, inner);
    PlainMeans(db, names + SourceNames(s), s, [inner] + outer, outs);
    ColumnMeans(db, names + SourceNames(s), db[t], t, x, outer, outs, UndefinedTable);
  }

  /** WITH c AS (SELECT x FROM t), where t is a table of the catalog: however it is bound, c
      has one column, x, of the type that it has in t. */
  lemma {:induction false} CteColumnIsTableColumn(
    db: Catalog, names: Names, c: string, id: nat, t: string, x: string, outer: Chain, before: Scope, after: Scope)
    requires t in db && t !in names + {c} && HasColumn(db[t], x)
    requires CteBuilds(db, names, WithEntry(c, [], ColumnOf(id, t, x), false), outer, before, after)
    ensures c in after.nested && |after.nested[c]| == 1
    ensures after.nested[c][0].alias.name == x && after.nested[c][0].typ == GetColumn(db[t].schema, x).typ
  {
    var cte := WithEntry(c, [], ColumnOf(id, t, x), false);
    var outs, counter := CteParts(db, names, cte, outer, before, after);
    var inner := CteSelect(db, names + {c}, cte, [before] + outer, outs);
    ColumnOfMeans(db, names + {c}, id, t, x, [before] + outer, inner, outs);
    OneColumnStored(before, cte, outs[0], counter, after);
  }

  // ---- The columns of a derived table ----

  /** SELECT a, b FROM t */
  function TwoOf(id: nat, t: string, a: string, b: string): (s: Select) {
    Select(id, [], Some(Named(t, t)), [], [Column(a), Column(b)], None, [])
  }

  /** SELECT * FROM (SELECT a, b FROM t) d */
  function StarOfTwo(t: string, a: string, b: string, d: string): (s: Select) {
    Select(0, [], Some(Derived(d, TwoOf(1, t, a, b))), [], [Star(None)], None, [])
  }

  lemma {:induction false} TwoOfMeans(db: Catalog, t: string, a: string, b: string, outer: Chain)
    requires t in db && HasColumn(db[t], a) && HasColumn(db[t], b)
    ensures SelectMeans(db, {}, TwoOf(1, t, a, b), outer, TableScope(t, db[t]),
                        [TableColumn(db[t], a), TableColumn(db[t], b)])
  {
    var s, inner := TwoOf(1, t, a, b), TableScope(t, db[t]);
    TableOnly(db, {}, s, t, outer, inner);
    TwoOfList(db, {} + SourceNames(s), db[t], t, a, b, outer);
    TwoItems(db, {} + SourceNames(s), s, [inner] + outer, [TableColumn(db[t], a), TableColumn(db[t], b)]);
  }

  lemma {:induction false} TwoOfList(
    db: Catalog, names: Names, table: Table, t: string, a: string, b: string, outer: Chain)
    requires HasColumn(table, a) && HasColumn(table, b)
    ensures ListMeans(db, names, [Column(a), Column(b)], [TableScope(t, table)] + outer,
                      [TableColumn(table, a), TableColumn(table, b)])
  {
    var chain, o, p := [TableScope(t, table)] + outer, TableColumn(table, a), TableColumn(table, b);
    ColumnMeans(db, names, table, t, a, outer, [o], UndefinedTable);
    ColumnMeans(db, names + ItemsNames([Column(a)]), table, t, b, outer, [p], UndefinedTable);
    TwoMean(db, names, Column(a), Column(b), chain, o, p);
  }

  lemma {:induction false} TwoMean(
    db: Catalog, names: Names, i: Item, j: Item, chain: Chain, o: OutColumn, p: OutColumn)
    requires ItemMeans(db, names, i, chain, [o]) && ItemMeans(db, names + ItemsNames([i]), j, chain, [p])
    ensures ListMeans(db, names, [i, j], chain, [o, p])
  {
    var items := [i, j];
    OneItemMeans(db, names, i, chain, [o]);
    assert items[..1] == [i] && items[..2] == items && [o] + [p] == [o, p];
    ListBound(db, names, items, 1, chain, [o], [p]);
  }

  lemma {:induction false} TwoItems(db: Catalog, names: Names, s: Select, chain: Chain, outs: seq<OutColumn>)
    requires s.conditions == [] && s.union.None? && s.orderBy == [] && s.from.Some?
    requires ListMeans(db, names, s.items, chain, outs)
    ensures QueryMeans(db, names, s, chain, outs)
  {
    assert ExprsNames([]) == {} && names + {} == names;
    assert ExprsBind(db, names, [], chain, 0) && ExprsBind(db, names + ListNames(s) + UnionNames(s), [], chain, 0);
    assert ConditionsBind(db, names, s, chain) && ItemsBind(db, names, s, chain, outs);
    assert RestBinds(db, names + ListNames(s), s, chain, outs);
  }

  function Unnumbered(o: OutColumn): (c: NestedColumn) {
    NestedColumn(Alias(o.name, None), o.typ)
  }

  function DerivedRef(d: string, o: OutColumn, depth: int): (r: ColumnRef) {
    ColumnRef(d, o.name, INVALID_OID, INVALID_OID, MakeTempOid(0), o.typ, depth)
  }

  /** The two columns of the derived table have no serial numbers: SELECT * may emit them in
      either order. */
  lemma {:induction false} EitherOrder(db: Catalog, t: string, a: string, b: string, d: string, depth: int)
    requires t in db && HasColumn(db[t], a) && HasColumn(db[t], b) && a != b && d != ""
    ensures var o, p := TableColumn(db[t], a), TableColumn(db[t], b);
            var inner := EMPTY.(nested := map[d := [Unnumbered(o), Unnumbered(p)]]);
            && SourceBuilds(db, {}, StarOfTwo(t, a, b, d), [], inner) && !KeepsOrder([o, p])
            && Expansion(inner, depth, [DerivedRef(d, o, depth), DerivedRef(d, p, depth)])
            && Expansion(inner, depth, [DerivedRef(d, p, depth), DerivedRef(d, o, depth)])
  {
    var s, o, p := StarOfTwo(t, a, b, d), TableColumn(db[t], a), TableColumn(db[t], b);
    var cs := [Unnumbered(o), Unnumbered(p)];
    var inner := EMPTY.(nested := map[d := cs]);
    TwoStored(o, p);
    TwoOfMeans(db, t, a, b, [EMPTY] + []);
    assert AddNested(EMPTY, d, cs) == Ok(inner) && NestedAs(EMPTY, d, [o, p], inner);
    DerivedBuilt(db, {}, s.from.value, [], EMPTY, TableScope(t, db[t]), [o, p], inner);
    FromOnly(db, {}, s, [], inner);
    TwoEmitted(d, o, p, depth);
  }

  lemma {:induction false} TwoEmitted(d: string, o: OutColumn, p: OutColumn, depth: int)
    ensures var inner := EMPTY.(nested := map[d := [Unnumbered(o), Unnumbered(p)]]);
            && Expansion(inner, depth, [DerivedRef(d, o, depth), DerivedRef(d, p, depth)])
            && Expansion(inner, depth, [DerivedRef(d, p, depth), DerivedRef(d, o, depth)])
  {
    var cs, sc := [Unnumbered(o), Unnumbered(p)], [Unnumbered(p), Unnumbered(o)];
    OneBlock(d, cs, cs, depth);
    OneBlock(d, cs, sc, depth);
    TwoRefs(d, o, p, depth);
    TwoRefs(d, p, o, depth);
  }

  lemma {:induction false} TwoRefs(d: string, o: OutColumn, p: OutColumn, depth: int)
    ensures BlockRefs(Block(d, [Unnumbered(o), Unnumbered(p)]), depth) ==
            [DerivedRef(d, o, depth), DerivedRef(d, p, depth)]
  {
  }

  lemma {:induction false} TwoStored(o: OutColumn, p: OutColumn)
    requires o.alias == p.alias == NO_ALIAS && o.column == Some(o.name) && p.column == Some(p.name) && o.name != p.name
    ensures NestedColumns([o, p]) == [Unnumbered(o), Unnumbered(p)]
    ensures StoredAs(NestedColumns([o, p]), [Unnumbered(o), Unnumbered(p)]) && !KeepsOrder([o, p])
  {
    var outs, cs := [o, p], [Unnumbered(o), Unnumbered(p)];
    assert outs[1..] == [p] && [p][1..] == [] && NestedColumns([p]) == [Unnumbered(p)];
    assert SerialNo(cs[0].alias) == SerialNo(cs[1].alias);
  }

  /** A scope with one nested table emits it in any order that the sort may leave. */
  lemma {:induction false} OneBlock(d: string, t: NestedTable, sorted: seq<NestedColumn>, depth: int)
    requires Ordering(t, sorted)
    ensures Expansion(EMPTY.(nested := map[d := t]), depth, BlockRefs(Block(d, sorted), depth))
  {
    var s, blocks := EMPTY.(nested := map[d := t]), [Block(d, sorted)];
    assert blocks[0].alias == d && s.nested.Keys == {d};
    assert BlocksOf(s.nested, s.nested.Keys, blocks);
    assert blocks[..0] == [] && NestedAll(blocks, depth) == [] + BlockRefs(blocks[0], depth);
    assert RegularAll(s, [], None, depth) == [];
    assert [] + BlockRefs(blocks[0], depth) == BlockRefs(blocks[0], depth);
  }

  lemma {:induction false} TwoOfAccepted(
    db: Catalog, t: string, a: string, b: string, outer: Chain, err: BinderError)
    requires t in db && HasColumn(db[t], a) && HasColumn(db[t], b)
    ensures !SelectRefuses(db, {}, TwoOf(1, t, a, b), outer, err)
  {
    var s, names := TwoOf(1, t, a, b), {} + SourceNames(TwoOf(1, t, a, b));
    var inner := TableScope(t, db[t]);
    forall other ensures SourceBuilds(db, {}, s, outer, other) <==> other == inner {
      TableOnly(db, {}, s, t, outer, other);
    }
    TableOnly(db, {}, s, t, outer, inner);
    TwoOfQuery(db, names, s, db[t], t, a, b, outer, err);
  }

  lemma {:induction false} TwoOfQuery(
    db: Catalog, names: Names, s: Select, table: Table, t: string, a: string, b: string, outer: Chain, err: BinderError)
    requires HasColumn(table, a) && HasColumn(table, b) && s == TwoOf(1, t, a, b)
    ensures !QueryRefuses(db, names, s, [TableScope(t, table)] + outer, err)
  {
    var chain := [TableScope(t, table)] + outer;
    forall i | 0 <= i < 2 ensures !ItemRefuses(db, names + ItemsNames(s.items[..i]), s.items[i], true, chain, err) {
      ColumnMeans(db, names + ItemsNames(s.items[..i]), table, t, if i == 0 then a else b, outer, [], err);
    }
    assert !ItemsRefuse(db, names, s, chain, err);
    assert ExprsNames([]) == {} && names + {} == names;
    assert !ExprsRefuse(db, names, [], chain, 0, err) && !ConditionsRefuse(db, names, s, chain, err);
    assert !ListRefuses(db, names, s, chain, err);
    forall outs ensures !RestRefuses(db, names + ListNames(s), s, chain, outs, err) {
      assert !ExprsRefuse(db, names + ListNames(s) + UnionNames(s), [], chain, 0, err);
    }
  }

  lemma {:induction false} EitherOrderAccepted(
    db: Catalog, t: string, a: string, b: string, d: string, err: BinderError)
    requires t in db && HasColumn(db[t], a) && HasColumn(db[t], b) && d != ""
    ensures !SelectRefuses(db, {}, StarOfTwo(t, a, b, d), [], err)
  {
    var s := StarOfTwo(t, a, b, d);
    HarmlessRefuses(db, {}, s, [], err);
    TwoOfAccepted(db, t, a, b, [EMPTY] + [], err);
    if SourceRefuses(db, {}, s, [], err) { FromOnlyRefuses(db, {}, s, [], err); }
  }

  /** SELECT * FROM (sub) d */
  function StarOfDerived(id: nat, sub: Select, d: string): (s: Select) {
    Select(id, [], Some(Derived(d, sub)), [], [Star(None)], None, [])
  }

  /** The columns of the one select are those of the other, in order. */
  predicate SameColumns(outs: seq<OutColumn>, subs: seq<OutColumn>) {
    && |outs| == |subs|
    && forall i :: 0 <= i < |subs| ==>
         && Nameable(subs[i]) && outs[i].column == Some(StoredColumn(subs[i]).alias.name)
         && outs[i].typ == subs[i].typ
  }

  /** For every select `sub`: what SELECT * stands for is the select list of `sub`, in order and
      complete, if that meets the condition of DerivedListIff. */
  lemma {:induction false} StarOfDerivedMeans(
    db: Catalog, names: Names, id: nat, sub: Select, d: string, outer: Chain, inner: Scope, outs: seq<OutColumn>)
    returns (below: Scope, subs: seq<OutColumn>)
    requires SelectMeans(db, names, StarOfDerived(id, sub, d), outer, inner, outs)
    ensures SelectMeans(db, names, sub, [EMPTY] + outer, below, subs)
    ensures KeepsOrder(subs) ==> SameColumns(outs, subs)
  {
    var s, depth := StarOfDerived(id, sub, d), DepthOf([inner] + outer, 0);
    FromOnly(db, names, s, outer, inner);
    below, subs := DerivedParts(db, names, d, sub, outer, EMPTY, inner);
    var t :| StoredAs(NestedColumns(subs), t) && AddNested(EMPTY, d, t) == Ok(inner);
    assert EMPTY.nested[d := t] == map[d := t];
    PlainMeans(db, names + SourceNames(s), s, [inner] + outer, outs);
    var refs :| Expansion(inner, depth, refs) && outs == StarColumns(refs);
    StarColumnsOf(d, t, subs, depth, refs);
  }

  lemma {:induction false} StarColumnsOf(
    d: string, t: NestedTable, subs: seq<OutColumn>, depth: int, refs: seq<ColumnRef>)
    requires StoredAs(NestedColumns(subs), t) && Expansion(EMPTY.(nested := map[d := t]), depth, refs)
    ensures KeepsOrder(subs) ==> SameColumns(StarColumns(refs), subs)
  {
    var sorted := OneBlockOnly(d, t, depth, refs);
    DerivedListIff(subs);
  }

  lemma {:induction false} OneBlockOnly(d: string, t: NestedTable, depth: int, refs: seq<ColumnRef>)
    returns (sorted: seq<NestedColumn>)
    requires Expansion(EMPTY.(nested := map[d := t]), depth, refs)
    ensures Ordering(t, sorted) && refs == BlockRefs(Block(d, sorted), depth)
  {
    var s := EMPTY.(nested := map[d := t]);
    var blocks: seq<Block> :| BlocksOf(s.nested, s.nested.Keys, blocks) &&
                              refs == RegularAll(s, s.list, None, depth) + NestedAll(blocks, depth);
    var k := BlockOf(s.nested, blocks, d);
    OnlyBlock(s.nested, blocks, d, k, 0);
    OnlyBlock(s.nested, blocks, d, k, |blocks| - 1);
    sorted := blocks[0].columns;
    assert blocks[..0] == [] && NestedAll(blocks, depth) == [] + BlockRefs(blocks[0], depth);
    assert RegularAll(s, s.list, None, depth) == [];
  }

  lemma {:induction false} OnlyBlock(nested: map<string, NestedTable>, blocks: seq<Block>, d: string, k: nat, i: nat)
    requires BlocksOf(nested, nested.Keys, blocks) && nested.Keys == {d} && k < |blocks| && i < |blocks|
    ensures i == k
  {
    assert blocks[i].alias in nested.Keys && blocks[k].alias in nested.Keys;
  }

  ghost predicate DistinctNames(cs: seq<NestedColumn>) {
    forall i, j :: 0 <= i < j < |cs| ==> cs[i].alias.name != cs[j].alias.name
  }

  /** In some run SELECT * FROM (...) d, with a select list `subs` in the parentheses, stands for
      the columns `outs`. */
  ghost predicate MayEmit(subs: seq<OutColumn>, d: string, outer: Chain, outs: seq<OutColumn>) {
    exists inner :: NestedAs(EMPTY, d, subs, inner) && StarMeans(None, [inner] + outer, outs)
  }

  /** If no name is repeated, SELECT * emits the select list of a derived table, in order and
      complete, in all runs, if and only if every column has a name and the serial numbers
      increase. */
  lemma {:induction false} StarOfDerivedIff(subs: seq<OutColumn>, d: string, outer: Chain)
    requires DistinctNames(NestedColumns(subs))
    ensures (forall outs :: MayEmit(subs, d, outer, outs) ==> SameColumns(outs, subs)) <==>
              AllNamed(subs) && Increasing(NestedColumns(subs))
  {
    if AllNamed(subs) && Increasing(NestedColumns(subs)) {
      forall outs | MayEmit(subs, d, outer, outs) ensures SameColumns(outs, subs) { EmitsList(subs, d, outer, outs); }
    } else {
      var outs := EmitsOther(subs, d, outer);
    }
  }

  lemma {:induction false} EmitsList(subs: seq<OutColumn>, d: string, outer: Chain, outs: seq<OutColumn>)
    requires KeepsOrder(subs) && MayEmit(subs, d, outer, outs)
    ensures SameColumns(outs, subs)
  {
    var inner :| NestedAs(EMPTY, d, subs, inner) && StarMeans(None, [inner] + outer, outs);
    var t :| StoredAs(NestedColumns(subs), t) && AddNested(EMPTY, d, t) == Ok(inner);
    assert EMPTY.nested[d := t] == map[d := t];
    var refs :| Expansion(inner, DepthOf([inner] + outer, 0), refs) && outs == StarColumns(refs);
    StarColumnsOf(d, t, subs, DepthOf([inner] + outer, 0), refs);
  }

  lemma {:induction false} EmitsOther(subs: seq<OutColumn>, d: string, outer: Chain) returns (outs: seq<OutColumn>)
    requires DistinctNames(NestedColumns(subs)) && !(AllNamed(subs) && Increasing(NestedColumns(subs)))
    ensures MayEmit(subs, d, outer, outs) && !SameColumns(outs, subs)
  {
    var t, sorted := OtherList(subs);
    var inner := EMPTY.(nested := map[d := t]);
    var depth := DepthOf([inner] + outer, 0);
    OneBlock(d, t, sorted, depth);
    var refs := BlockRefs(Block(d, sorted), depth);
    outs := StarColumns(refs);
    assert EMPTY.nested[d := t] == map[d := t] && AddNested(EMPTY, d, t) == Ok(inner);
    assert NestedAs(EMPTY, d, subs, inner) && StarMeans(None, [inner] + outer, outs);
    if SameColumns(outs, subs) { OtherNames(subs, d, sorted, depth); }
  }

  lemma {:induction false} OtherList(subs: seq<OutColumn>) returns (t: NestedTable, sorted: seq<NestedColumn>)
    requires !KeepsOrder(subs)
    ensures StoredAs(NestedColumns(subs), t) && Ordering(t, sorted) && !IsList(subs, sorted)
  {
    DerivedListIff(subs);
    t, sorted :| StoredAs(NestedColumns(subs), t) && Ordering(t, sorted) && !IsList(subs, sorted);
  }

  lemma {:induction false} OtherNames(subs: seq<OutColumn>, d: string, sorted: seq<NestedColumn>, depth: int)
    requires multiset(sorted) == multiset(NestedColumns(subs)) && DistinctNames(NestedColumns(subs))
    requires SameColumns(StarColumns(BlockRefs(Block(d, sorted), depth)), subs)
    ensures IsList(subs, sorted)
  {
    var cs := NestedColumns(subs);
    NamedAreStored(subs);
    assert AllNamed(subs) && |sorted| == |subs|;
    forall i | 0 <= i < |subs| ensures sorted[i] == cs[i] {
      assert BlockRefs(Block(d, sorted), depth)[i].column == sorted[i].alias.name;
      assert sorted[i] in multiset(sorted);
      var k :| 0 <= k < |cs| && cs[k] == sorted[i];
      assert cs[i] == StoredColumn(subs[i]);
    }
  }

  // ---- What a visitor does with them ----

  /** A statement that cannot be refused is accepted. */
  method BindAccepted(v: BindNodeVisitor, s: Select) returns (r: Result<seq<OutColumn>>, ghost inner: Scope)
    requires v.Ready() && v.context == null && forall err :: !SelectRefuses(v.tables, {}, s, [], err)
    modifies v, v.accessor
    ensures r.Ok? && SelectMeans(v.tables, {}, s, [], inner, r.value)
  {
    r, inner := v.BindNameToNode(s);
  }

  /** SELECT 3 AS y FROM (WITH t AS (SELECT 1 AS x) SELECT 2 AS x) a, t */
  method BindHiding(v: BindNodeVisitor, a: string, t: string, x: string, y: string, typ: TypeId)
    returns (r: Result<seq<OutColumn>>, ghost inner: Scope)
    requires v.Ready() && v.context == null && a != "" && t != "" && a != t
    modifies v, v.accessor
    ensures r.Ok? && SelectMeans(v.tables, {}, Hiding(a, t, x, y, typ), [], inner, r.value)
    ensures forall b :: HasAlias(inner, b) <==> b == a
  {
    forall err ensures !SelectRefuses(v.tables, {}, Hiding(a, t, x, y, typ), [], err) {
      HidingAccepted(v.tables, a, t, x, y, typ, err);
    }
    r, inner := BindAccepted(v, Hiding(a, t, x, y, typ));
    HiddenTable(v.tables, a, t, x, y, typ, inner, "", Written("", ""));
  }

  /** WITH x(i) AS (SELECT 1), y(i) AS (SELECT * FROM x) SELECT * FROM y */
  method BindStarred(v: BindNodeVisitor, x: string, y: string, i: string, typ: TypeId)
    returns (r: Result<seq<OutColumn>>)
    requires v.Ready() && v.context == null && x != "" && y != "" && x != y
    modifies v, v.accessor
    ensures r == Throw(InvalidSchemaDefinition)
  {
    ghost var inner;
    r, inner := v.BindNameToNode(Starred(x, y, i, typ));
    StarredStatement(v.tables, x, y, i, typ, inner, if r.Ok? then r.value else [],
                     if r.Throw? then r.error else SyntaxError);
  }
}
