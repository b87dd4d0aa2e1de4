/** UNION: the two sides of a union must have as many columns as each other, of the same
    types, and a union whose sides differ is refused.
 */
module Unions {
  import opened Basics
  import opened SqlTypes
  import opened Scope
  import opened StarExpansion
  import opened SelectTree
  import opened SelectMeaning
  import opened SelectRefusals
  import opened SelectVisitor
  import opened Statements

  // ---- When the sides of a union agree ----

  /** Each side by itself means something: `outs` are the columns of the select, bound in its
      scope `inner`, and `others` those of the union, bound inside of it in a scope `below`. */
  ghost predicate Sides(db: Catalog, names: Names, s: Select, outer: Chain,
                        inner: Scope, outs: seq<OutColumn>, below: Scope, others: seq<OutColumn>)
    requires s.union.Some?
  {
    && SourceBuilds(db, names, s, outer, inner)
    && ListBinds(db, names + SourceNames(s), s, [inner] + outer, outs)
    && SelectMeans(db, names + SourceNames(s) + ListNames(s), s.union.value, [inner] + outer, below, others)
  }

  ghost predicate OrderBinds(db: Catalog, names: Names, s: Select, chain: Chain) {
    ExprsBind(db, names + SourceNames(s) + ListNames(s) + UnionNames(s), s.orderBy, chain, 0)
  }

  /** They have different numbers of columns, or a column of one type faces one of another. */
  predicate Differ(outs: seq<OutColumn>, others: seq<OutColumn>) {
    |outs| != |others| || exists i :: 0 <= i < |outs| && outs[i].typ != others[i].typ
  }

  /** The two sides of every accepted union agree in the number and the types of columns. */
  lemma {:induction false} UnionAgrees(
    db: Catalog, names: Names, s: Select, outer: Chain, inner: Scope, outs: seq<OutColumn>)
    returns (below: Scope, others: seq<OutColumn>)
    requires s.union.Some? && SelectMeans(db, names, s, outer, inner, outs)
    ensures Sides(db, names, s, outer, inner, outs, below, others)
    ensures |others| == |outs| && forall i :: 0 <= i < |outs| ==> others[i].typ == outs[i].typ
    ensures OrderBinds(db, names, s, [inner] + outer)
  {
    var chain, ns := [inner] + outer, names + SourceNames(s) + ListNames(s);
    assert RestBinds(db, ns, s, chain, outs) && UnionBinds(db, ns, s, chain, outs);
    below, others :| SelectMeans(db, ns, s.union.value, chain, below, others) && SameTypes(outs, others);
  }

  /** A select with a union means something exactly if both sides do, agree, and ORDER BY can
      be bound. Its columns are those of the first side. */
  lemma {:induction false} UnionMeansIff(
    db: Catalog, names: Names, s: Select, outer: Chain, inner: Scope, outs: seq<OutColumn>)
    requires s.union.Some?
    ensures SelectMeans(db, names, s, outer, inner, outs) <==>
              && OrderBinds(db, names, s, [inner] + outer)
              && exists below, others :: Sides(db, names, s, outer, inner, outs, below, others) && !Differ(outs, others)
  {
    if SelectMeans(db, names, s, outer, inner, outs) {
      var below, others := UnionAgrees(db, names, s, outer, inner, outs);
      assert Sides(db, names, s, outer, inner, outs, below, others) && !Differ(outs, others);
    } else if OrderBinds(db, names, s, [inner] + outer) {
      forall below, others | Sides(db, names, s, outer, inner, outs, below, others) ensures Differ(outs, others) {
        if !Differ(outs, others) { AgreeingMeans(db, names, s, outer, inner, outs, below, others); }
      }
    }
  }

  lemma {:induction false} AgreeingMeans(db: Catalog, names: Names, s: Select, outer: Chain, inner: Scope,
                                         outs: seq<OutColumn>, below: Scope, others: seq<OutColumn>)
    requires s.union.Some? && OrderBinds(db, names, s, [inner] + outer)
    requires Sides(db, names, s, outer, inner, outs, below, others) && !Differ(outs, others)
    ensures SelectMeans(db, names, s, outer, inner, outs)
  {
    var chain, ns := [inner] + outer, names + SourceNames(s) + ListNames(s);
    assert SelectMeans(db, ns, s.union.value, chain, below, others) && SameTypes(outs, others);
    assert UnionBinds(db, ns, s, chain, outs);
    assert RestBinds(db, ns, s, chain, outs);
  }

  /** If the sides differ whatever they mean, the select means nothing. */
  lemma {:induction false} DifferingMeansNothing(
    db: Catalog, names: Names, s: Select, outer: Chain, inner: Scope, outs: seq<OutColumn>)
    requires s.union.Some?
    requires forall i, os, below, others :: Sides(db, names, s, outer, i, os, below, others) ==> Differ(os, others)
    ensures !SelectMeans(db, names, s, outer, inner, outs)
  {
    if SelectMeans(db, names, s, outer, inner, outs) {
      var below, others := UnionAgrees(db, names, s, outer, inner, outs);
    }
  }

  // ---- With what a union is refused ----

  /** One of the two sides is refused by itself, or ORDER BY is. */
  ghost predicate PartRefuses(db: Catalog, names: Names, s: Select, outer: Chain, err: BinderError)
    requires s.union.Some?
  {
    || SourceRefuses(db, names, s, outer, err)
    || exists inner :: SourceBuilds(db, names, s, outer, inner) && InnerRefuses(db, names, s, [inner] + outer, err)
  }

  ghost predicate InnerRefuses(db: Catalog, names: Names, s: Select, chain: Chain, err: BinderError)
    requires s.union.Some?
  {
    || ListRefuses(db, names + SourceNames(s), s, chain, err)
    || SelectRefuses(db, names + SourceNames(s) + ListNames(s), s.union.value, chain, err)
    || ExprsRefuse(db, names + SourceNames(s) + ListNames(s) + UnionNames(s), s.orderBy, chain, 0, err)
  }

  /** An exception that comes from none of the parts is a mismatch, and then there are sides
      that differ. */
  lemma {:induction false} UnionRefusedFor(db: Catalog, names: Names, s: Select, outer: Chain, err: BinderError)
    requires s.union.Some? && SelectRefuses(db, names, s, outer, err) && !PartRefuses(db, names, s, outer, err)
    ensures err == DatatypeMismatch
    ensures exists inner, outs, below, others ::
              Sides(db, names, s, outer, inner, outs, below, others) && Differ(outs, others)
  {
    var inner :| SourceBuilds(db, names, s, outer, inner) &&
                 QueryRefuses(db, names + SourceNames(s), s, [inner] + outer, err);
    assert !InnerRefuses(db, names, s, [inner] + outer, err);
    var outs, below, others := QueryRefusedFor(db, names + SourceNames(s), s, [inner] + outer, err);
    assert Sides(db, names, s, outer, inner, outs, below, others) && Differ(outs, others);
  }

  lemma {:induction false} QueryRefusedFor(db: Catalog, names: Names, s: Select, chain: Chain, err: BinderError)
    returns (outs: seq<OutColumn>, below: Scope, others: seq<OutColumn>)
    requires s.union.Some? && QueryRefuses(db, names, s, chain, err) && !ListRefuses(db, names, s, chain, err)
    requires !SelectRefuses(db, names + ListNames(s), s.union.value, chain, err)
    requires !ExprsRefuse(db, names + ListNames(s) + UnionNames(s), s.orderBy, chain, 0, err)
    ensures ListBinds(db, names, s, chain, outs)
    ensures SelectMeans(db, names + ListNames(s), s.union.value, chain, below, others)
    ensures Differ(outs, others) && err == DatatypeMismatch
  {
    outs :| ListBinds(db, names, s, chain, outs) && RestRefuses(db, names + ListNames(s), s, chain, outs, err);
    assert UnionRefuses(db, names + ListNames(s), s, chain, outs, err);
    below, others :| SelectMeans(db, names + ListNames(s), s.union.value, chain, below, others) &&
                     !SameTypes(outs, others);
  }

  /** Sides that differ are a reason to refuse. */
  lemma {:induction false} DifferingIsRefused(db: Catalog, names: Names, s: Select, outer: Chain, inner: Scope,
                                              outs: seq<OutColumn>, below: Scope, others: seq<OutColumn>)
    requires s.union.Some? && Sides(db, names, s, outer, inner, outs, below, others) && Differ(outs, others)
    ensures SelectRefuses(db, names, s, outer, DatatypeMismatch)
  {
    var chain, ns := [inner] + outer, names + SourceNames(s);
    UnionRefused(db, ns + ListNames(s), s, chain, outs, below, others);
    assert RestRefuses(db, ns + ListNames(s), s, chain, outs, DatatypeMismatch);
    QueryRefused(db, ns, ns + ListNames(s), s, chain, outs, DatatypeMismatch);
    SelectRefused(db, names, s, outer, inner, DatatypeMismatch);
  }

  // ---- SELECT 1 UNION SELECT 'a' ----

  /** SELECT 1 UNION SELECT 'a', for constants of some types */
  function UnionOf(typ: TypeId, other: TypeId): (s: Select) {
    Constant(0, "", 0, typ).(union := Some(Constant(1, "", 1, other)))
  }

  lemma {:induction false} OneItemBinds(db: Catalog, names: Names, s: Select, chain: Chain, outs: seq<OutColumn>)
    requires s.conditions == [] && |s.items| == 1 && s.items[0].Element?
    ensures ListBinds(db, names, s, chain, outs) <==> ItemMeans(db, names, s.items[0], chain, outs)
  {
    assert s.items == [s.items[0]] && ExprsNames([]) == {} && names + {} == names;
    OneItemMeans(db, names, s.items[0], chain, outs);
    assert ExprsBind(db, names, [], chain, 0) && ConditionsBind(db, names, s, chain);
  }

  lemma {:induction false} OneItemRefuses(db: Catalog, names: Names, s: Select, chain: Chain, err: BinderError)
    requires s.conditions == [] && |s.items| == 1 && s.items[0].Element? && ListRefuses(db, names, s, chain, err)
    ensures ItemRefuses(db, names, s.items[0], s.from.Some?, chain, err)
  {
    assert !ExprsRefuse(db, names, [], chain, 0, err) && !ConditionsRefuse(db, names, s, chain, err);
    assert ExprsNames([]) == {} && names + {} == names;
    var plain := s.(union := None, orderBy := []);
    assert ItemsRefuse(db, names, plain, chain, err);
    PlainListRefuses(db, names, plain, chain, err);
  }

  /** A select of one constant of some type, possibly with a union. */
  predicate SelectsConstant(s: Select, typ: TypeId) {
    && s.ctes == [] && s.from.None? && s.conditions == [] && s.orderBy == []
    && s.items == [Element(Operator([], false), "", 0, "", typ)]
  }

  lemma {:induction false} ConstantItem(
    db: Catalog, names: Names, item: Item, chain: Chain, outs: seq<OutColumn>, hasFrom: bool, err: BinderError)
    requires item.Element? && item.expr == Operator([], false)
    ensures ItemMeans(db, names, item, chain, outs) <==> outs == [ElementColumn(item, chain)]
    ensures !ItemRefuses(db, names, item, hasFrom, chain, err)
  {
    assert ExprsBind(db, names, [], chain, 0) && ExprBinds(db, names, item.expr, chain, 0);
    assert !ExprsRefuse(db, names, [], chain, 0, err) && !ExprRefuses(db, names, item.expr, chain, 0, err);
  }

  lemma {:induction false} ConstantList(
    db: Catalog, names: Names, s: Select, typ: TypeId, chain: Chain, outs: seq<OutColumn>, err: BinderError)
    requires SelectsConstant(s, typ)
    ensures ListBinds(db, names, s, chain, outs) <==> outs == [ConstantColumn("", 0, typ)]
    ensures !ListRefuses(db, names, s, chain, err)
  {
    OneItemBinds(db, names, s, chain, outs);
    ConstantItem(db, names, s.items[0], chain, outs, s.from.Some?, err);
    if ListRefuses(db, names, s, chain, err) { OneItemRefuses(db, names, s, chain, err); }
  }

  lemma {:induction false} ConstantSides(db: Catalog, s: Select, typ: TypeId, other: TypeId,
                                         inner: Scope, outs: seq<OutColumn>, below: Scope, others: seq<OutColumn>)
    requires SelectsConstant(s, typ) && s.union == Some(Constant(1, "", 1, other))
    ensures Sides(db, {}, s, [], inner, outs, below, others) <==>
              && inner == EMPTY && outs == [ConstantColumn("", 0, typ)]
              && below == EMPTY && others == [ConstantColumn("", 1, other)]
  {
    FromOnly(db, {}, s, [], inner);
    ConstantList(db, {} + SourceNames(s), s, typ, [inner] + [], outs, SyntaxError);
    ConstantMeans(db, {} + SourceNames(s) + ListNames(s), 1, "", 1, other, [inner] + [], below, others);
  }

  lemma {:induction false} ConstantParts(db: Catalog, s: Select, typ: TypeId, other: TypeId, err: BinderError)
    requires SelectsConstant(s, typ) && s.union == Some(Constant(1, "", 1, other))
    ensures !PartRefuses(db, {}, s, [], err)
  {
    if SourceRefuses(db, {}, s, [], err) { FromOnlyRefuses(db, {}, s, [], err); }
    forall inner: Scope ensures !InnerRefuses(db, {}, s, [inner] + [], err) {
      var chain, ns := [inner] + [], {} + SourceNames(s);
      ConstantList(db, ns, s, typ, chain, [], err);
      ConstantAccepted(db, ns + ListNames(s), 1, "", 1, other, chain, err);
      assert !ExprsRefuse(db, ns + ListNames(s) + UnionNames(s), [], chain, 0, err);
    }
  }

  lemma {:induction false} ConstantUnionMeans(
    db: Catalog, s: Select, typ: TypeId, other: TypeId, inner: Scope, outs: seq<OutColumn>)
    requires SelectsConstant(s, typ) && s.union == Some(Constant(1, "", 1, other))
    ensures SelectMeans(db, {}, s, [], inner, outs) <==>
              typ == other && inner == EMPTY && outs == [ConstantColumn("", 0, typ)]
  {
    var o, p := [ConstantColumn("", 0, typ)], [ConstantColumn("", 1, other)];
    forall below, others ensures Sides(db, {}, s, [], inner, outs, below, others) <==>
                                   inner == EMPTY && outs == o && below == EMPTY && others == p {
      ConstantSides(db, s, typ, other, inner, outs, below, others);
    }
    assert o[0].typ == typ && p[0].typ == other;
    assert OrderBinds(db, {}, s, [inner] + []);
    UnionMeansIff(db, {}, s, [], inner, outs);
    assert inner == EMPTY && outs == o ==> Sides(db, {}, s, [], inner, outs, EMPTY, p);
  }

  lemma {:induction false} ConstantUnionRefuses(
    db: Catalog, s: Select, typ: TypeId, other: TypeId, err: BinderError)
    requires SelectsConstant(s, typ) && s.union == Some(Constant(1, "", 1, other))
    ensures SelectRefuses(db, {}, s, [], err) <==> typ != other && err == DatatypeMismatch
  {
    var o, p := [ConstantColumn("", 0, typ)], [ConstantColumn("", 1, other)];
    assert o[0].typ == typ && p[0].typ == other;
    ConstantParts(db, s, typ, other, err);
    if SelectRefuses(db, {}, s, [], err) {
      UnionRefusedFor(db, {}, s, [], err);
      var i, os, below, others :| Sides(db, {}, s, [], i, os, below, others) && Differ(os, others);
      ConstantSides(db, s, typ, other, i, os, below, others);
    }
    if typ != other {
      ConstantSides(db, s, typ, other, EMPTY, o, EMPTY, p);
      DifferingIsRefused(db, {}, s, [], EMPTY, o, EMPTY, p);
    }
  }

  /** It is accepted if the types are the same, and otherwise refused as a mismatch. */
  lemma {:induction false} UnionOfIff(
    db: Catalog, typ: TypeId, other: TypeId, inner: Scope, outs: seq<OutColumn>, err: BinderError)
    ensures SelectMeans(db, {}, UnionOf(typ, other), [], inner, outs) <==>
              typ == other && inner == EMPTY && outs == [ConstantColumn("", 0, typ)]
    ensures SelectRefuses(db, {}, UnionOf(typ, other), [], err) <==> typ != other && err == DatatypeMismatch
  {
    ConstantUnionMeans(db, UnionOf(typ, other), typ, other, inner, outs);
    ConstantUnionRefuses(db, UnionOf(typ, other), typ, other, err);
  }

  /** Every visitor refuses SELECT 1 UNION SELECT 'a'. */
  method BindUnion(v: BindNodeVisitor, typ: TypeId, other: TypeId) returns (r: Result<seq<OutColumn>>)
    requires v.Ready() && v.context == null
    modifies v, v.accessor
    ensures r == if typ == other then Ok([ConstantColumn("", 0, typ)]) else Throw(DatatypeMismatch)
  {
    ghost var inner;
    r, inner := v.BindNameToNode(UnionOf(typ, other));
    UnionOfIff(v.tables, typ, other, inner, if r.Ok? then r.value else [], if r.Throw? then r.error else SyntaxError);
  }
}
