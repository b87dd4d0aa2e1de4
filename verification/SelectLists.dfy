/** The columns in a select and the columns of a select: every column that an accepted
    select mentions is found in its scopes; and what the columns of its select list are
    called and of which types they are, in the select itself, in a derived table made of
    it, and in a CTE.
 */
module SelectLists {
  import opened Basics
  import opened SqlTypes
  import opened Scope
  import opened ColumnBinding
  import opened BinderContext
  import Storing = BinderContext
  import opened StarExpansion
  import opened SelectTree
  import opened SelectMeaning
  import opened FromAndStar
  import opened DerivedTables
  import opened Statements

  // ---- Every column is found ----

  /** The reference stands in the expression, outside of any select in it. */
  predicate Occurs(e: Expr, ref: ColumnRef)
    decreases e
  {
    match e
    case ColumnValue(r) => r == ref
    case Operator(es, _) => OccursIn(es, ref)
    case Subquery(_) => false
  }

  predicate OccursIn(es: seq<Expr>, ref: ColumnRef)
    decreases es
  {
    exists i :: 0 <= i < |es| && Occurs(es[i], ref)
  }

  /** It stands in an operand of a comparison or a conjunction. */
  predicate OccursTwice(e: Expr, ref: ColumnRef)
    decreases e
  {
    e.Operator? && ((e.twice && OccursIn(e.children, ref)) ||
                    exists i :: 0 <= i < |e.children| && OccursTwice(e.children[i], ref))
  }

  /** It stands in WHERE, LIMIT, GROUP BY, HAVING, the select list or ORDER BY. */
  predicate Mentions(s: Select, ref: ColumnRef) {
    || OccursIn(s.conditions, ref) || OccursIn(s.orderBy, ref)
    || exists i :: 0 <= i < |s.items| && s.items[i].Element? && Occurs(s.items[i].expr, ref)
  }

  lemma {:induction false} ExprsBindAt(db: Catalog, names: Names, es: seq<Expr>, chain: Chain, n: nat, i: nat)
    requires ExprsBind(db, names, es, chain, n) && i < |es|
    ensures ExprBinds(db, names + ExprsNames(es[..i]), es[i], chain, n)
    decreases |es|
  {
    if i < |es| - 1 {
      ExprsBindAt(db, names, Front(es), chain, n, i);
      assert Front(es)[..i] == es[..i];
    }
  }

  lemma {:induction false} FoundIn(db: Catalog, names: Names, e: Expr, chain: Chain, ref: ColumnRef)
    requires ExprBinds(db, names, e, chain, 0) && Occurs(e, ref)
    ensures Bind(chain, ref).Ok?
    decreases e
  {
    match e
    case ColumnValue(r) => assert After(chain, ref, 0) == ref;
    case Operator(es, _) => FoundInAll(db, names, es, chain, ref);
  }

  lemma {:induction false} FoundInAll(db: Catalog, names: Names, es: seq<Expr>, chain: Chain, ref: ColumnRef)
    requires ExprsBind(db, names, es, chain, 0) && OccursIn(es, ref)
    ensures Bind(chain, ref).Ok?
    decreases es
  {
    var i :| 0 <= i < |es| && Occurs(es[i], ref);
    ExprsBindAt(db, names, es, chain, 0, i);
    FoundIn(db, names + ExprsNames(es[..i]), es[i], chain, ref);
  }

  /** A column in an expression that is visited twice is also found as the first lookup
      left it. */
  lemma {:induction false} FoundBoth(
    db: Catalog, names: Names, later: Names, e: Expr, chain: Chain, ref: ColumnRef)
    requires ExprBinds(db, names, e, chain, 0) && ExprBinds(db, later, e, chain, 1) && Occurs(e, ref)
    ensures Bind(chain, ref).Ok? && Bind(chain, Bind(chain, ref).value).Ok?
    decreases e
  {
    match e
    case ColumnValue(r) => assert After(chain, ref, 0) == ref;
    case Operator(es, twice) => FoundBothIn(db, names, if twice then names + ExprsNames(es) else later, es, chain, ref);
  }

  lemma {:induction false} FoundBothIn(
    db: Catalog, names: Names, later: Names, es: seq<Expr>, chain: Chain, ref: ColumnRef)
    requires ExprsBind(db, names, es, chain, 0) && ExprsBind(db, later, es, chain, 1) && OccursIn(es, ref)
    ensures Bind(chain, ref).Ok? && Bind(chain, Bind(chain, ref).value).Ok?
    decreases es
  {
    var i :| 0 <= i < |es| && Occurs(es[i], ref);
    ExprsBindAt(db, names, es, chain, 0, i);
    ExprsBindAt(db, later, es, chain, 1, i);
    FoundBoth(db, names + ExprsNames(es[..i]), later + ExprsNames(es[..i]), es[i], chain, ref);
  }

  lemma {:induction false} FoundAgain(db: Catalog, names: Names, e: Expr, chain: Chain, ref: ColumnRef)
    requires ExprBinds(db, names, e, chain, 0) && OccursTwice(e, ref)
    ensures Bind(chain, ref).Ok? && Bind(chain, Bind(chain, ref).value).Ok?
    decreases e
  {
    var es := e.children;
    if e.twice && OccursIn(es, ref) {
      FoundBothIn(db, names, names + ExprsNames(es), es, chain, ref);
    } else {
      var i :| 0 <= i < |es| && OccursTwice(es[i], ref);
      ExprsBindAt(db, names, es, chain, 0, i);
      FoundAgain(db, names + ExprsNames(es[..i]), es[i], chain, ref);
    }
  }

  lemma {:induction false} ItemAt(
    db: Catalog, names: Names, items: seq<Item>, chain: Chain, outs: seq<OutColumn>, i: nat)
    returns (p: nat, q: nat)
    requires ListMeans(db, names, items, chain, outs) && i < |items|
    ensures p <= q <= |outs| && ItemMeans(db, names + ItemsNames(items[..i]), items[i], chain, outs[p..q])
    decreases |items|
  {
    var k := ListParts(db, names, items, chain, outs);
    if i == |items| - 1 {
      p, q := k, |outs|;
      assert items[..i] == Front(items) && outs[p..q] == outs[k..];
    } else {
      p, q := ItemAt(db, names, Front(items), chain, outs[..k], i);
      assert Front(items)[..i] == items[..i] && outs[..k][p..q] == outs[p..q];
    }
  }

  lemma {:induction false} ListParts(db: Catalog, names: Names, items: seq<Item>, chain: Chain, outs: seq<OutColumn>)
    returns (k: nat)
    requires ListMeans(db, names, items, chain, outs) && items != []
    ensures k <= |outs| && ListMeans(db, names, Front(items), chain, outs[..k])
    ensures ItemMeans(db, names + ItemsNames(Front(items)), Last(items), chain, outs[k..])
    ensures Last(items).Element? ==> k == |outs| - 1
  {
    k :| 0 <= k <= |outs| && ListMeans(db, names, Front(items), chain, outs[..k]) &&
         ItemMeans(db, names + ItemsNames(Front(items)), Last(items), chain, outs[k..]);
    assert Last(items).Element? ==> |outs[k..]| == 1;
  }

  lemma {:induction false} ListLength(db: Catalog, names: Names, items: seq<Item>, chain: Chain, outs: seq<OutColumn>)
    requires ListMeans(db, names, items, chain, outs) && !HasStar(items)
    ensures |outs| == |items|
    decreases |items|
  {
    if items != [] {
      var k := ListParts(db, names, items, chain, outs);
      ListLength(db, names, Front(items), chain, outs[..k]);
    }
  }

  /** Without stars, every element stands for one column. */
  lemma {:induction false} StarlessItem(
    db: Catalog, names: Names, items: seq<Item>, chain: Chain, outs: seq<OutColumn>, i: nat)
    requires ListMeans(db, names, items, chain, outs) && !HasStar(items) && i < |items|
    ensures |outs| == |items| && items[i].Element?
    ensures ItemMeans(db, names + ItemsNames(items[..i]), items[i], chain, [outs[i]])
    decreases |items|
  {
    var k := ListParts(db, names, items, chain, outs);
    ListLength(db, names, Front(items), chain, outs[..k]);
    if i == |items| - 1 {
      assert items[..i] == Front(items) && outs[k..] == [outs[i]];
    } else {
      StarlessItem(db, names, Front(items), chain, outs[..k], i);
      assert Front(items)[..i] == items[..i];
    }
  }

  /** In every accepted select, every column in WHERE, LIMIT, GROUP BY, HAVING, the select
      list or ORDER BY can be found in the scope of the select or those around it. */
  lemma {:induction false} MentionedIsFound(
    db: Catalog, names: Names, s: Select, outer: Chain, inner: Scope, outs: seq<OutColumn>, ref: ColumnRef)
    requires SelectMeans(db, names, s, outer, inner, outs) && Mentions(s, ref)
    ensures Bind([inner] + outer, ref).Ok?
  {
    var chain, ns := [inner] + outer, names + SourceNames(s);
    assert ListBinds(db, ns, s, chain, outs) && RestBinds(db, ns + ListNames(s), s, chain, outs);
    assert ConditionsBind(db, ns, s, chain) && ItemsBind(db, ns + ExprsNames(s.conditions), s, chain, outs);
    if OccursIn(s.conditions, ref) {
      FoundInAll(db, ns, s.conditions, chain, ref);
    } else if OccursIn(s.orderBy, ref) {
      FoundInAll(db, ns + ListNames(s) + UnionNames(s), s.orderBy, chain, ref);
    } else {
      var i :| 0 <= i < |s.items| && s.items[i].Element? && Occurs(s.items[i].expr, ref);
      var items := ns + ExprsNames(s.conditions);
      var p, q := ItemAt(db, items, s.items, chain, outs, i);
      FoundIn(db, items + ItemsNames(s.items[..i]), s.items[i].expr, chain, ref);
    }
  }

  /** The same for the condition of a join and the scope that its two sides have built. */
  lemma {:induction false} JoinedIsFound(db: Catalog, names: Names, l: TableRef, r: TableRef, on: Expr, outer: Chain,
                                         before: Scope, after: Scope, ref: ColumnRef)
    requires TableBuilds(db, names, Join(l, r, on), outer, before, after) && Occurs(on, ref)
    ensures Bind([after] + outer, ref).Ok?
    ensures OccursTwice(on, ref) ==> Bind([after] + outer, Bind([after] + outer, ref).value).Ok?
  {
    var ns := names + TableNames(l) + TableNames(r);
    FoundIn(db, ns, on, [after] + outer, ref);
    if OccursTwice(on, ref) { FoundAgain(db, ns, on, [after] + outer, ref); }
  }

  // ---- The columns of a select list ----

  /** Column `i` of a select list without stars: a column of the list has the type of what
      it means in the scopes, anything else the type that was derived for it. The name is
      the alias if there is one, else that of the column or the expression. */
  lemma {:induction false} ElementAt(
    db: Catalog, names: Names, items: seq<Item>, chain: Chain, outs: seq<OutColumn>, i: nat)
    requires ListMeans(db, names, items, chain, outs) && !HasStar(items) && i < |items|
    ensures |outs| == |items| && items[i].Element?
    ensures var e, o := items[i], outs[i];
            && o.alias == (if e.alias == "" then Alias("", None) else Alias(e.alias, Some(e.serial)))
            && (e.expr.ColumnValue? ==>
                  var bound := Bind(chain, e.expr.ref);
                  && bound.Ok? && o.typ == bound.value.typ && o.column == Some(bound.value.column)
                  && o.name == if e.alias == "" then bound.value.column else e.alias)
            && (!e.expr.ColumnValue? ==>
                  o.typ == e.typ && o.column.None? && o.name == if e.alias == "" then e.name else e.alias)
  {
    StarlessItem(db, names, items, chain, outs, i);
    if items[i].expr.ColumnValue? { assert After(chain, items[i].expr.ref, 0) == items[i].expr.ref; }
  }

  lemma {:induction false} StarlessAt(items: seq<Item>, i: nat)
    requires !HasStar(items) && i < |items|
    ensures items[i].Element?
    decreases |items|
  {
    if i < |items| - 1 { StarlessAt(Front(items), i); }
  }

  // ---- Derived tables ----

  /** The name under which a derived table stores column `o`, if it does. */
  predicate GoesBy(o: OutColumn, name: string) {
    if o.alias.name != "" then o.alias.name == name else o.column == Some(name)
  }

  ghost predicate AnyGoesBy(outs: seq<OutColumn>, name: string, typ: TypeId) {
    exists i :: 0 <= i < |outs| && GoesBy(outs[i], name) && outs[i].typ == typ
  }

  lemma {:induction false} StoredFirst(c: NestedColumn, rest: seq<NestedColumn>, name: string, typ: TypeId)
    ensures NamedTyped([c] + rest, name, typ) <==> NamedTyped(rest, name, typ) || (c.alias.name == name && c.typ == typ)
  {
    var cs := [c] + rest;
    assert cs[0] == c && forall i :: 0 <= i < |rest| ==> rest[i] == cs[i + 1];
    if NamedTyped(cs, name, typ) {
      var i :| 0 <= i < |cs| && cs[i].alias.name == name && cs[i].typ == typ;
      if i > 0 { assert rest[i - 1] == cs[i]; }
    }
    if NamedTyped(rest, name, typ) {
      var i :| 0 <= i < |rest| && rest[i].alias.name == name && rest[i].typ == typ;
      assert cs[i + 1] == rest[i];
    }
  }

  lemma {:induction false} GoesByFirst(o: OutColumn, rest: seq<OutColumn>, name: string, typ: TypeId)
    ensures AnyGoesBy([o] + rest, name, typ) <==> AnyGoesBy(rest, name, typ) || (GoesBy(o, name) && o.typ == typ)
  {
    var outs := [o] + rest;
    assert outs[0] == o && forall i :: 0 <= i < |rest| ==> rest[i] == outs[i + 1];
    if AnyGoesBy(outs, name, typ) {
      var i :| 0 <= i < |outs| && GoesBy(outs[i], name) && outs[i].typ == typ;
      if i > 0 { assert rest[i - 1] == outs[i]; }
    }
    if AnyGoesBy(rest, name, typ) {
      var i :| 0 <= i < |rest| && GoesBy(rest[i], name) && rest[i].typ == typ;
      assert outs[i + 1] == rest[i];
    }
  }

  lemma {:induction false} StoredNames(outs: seq<OutColumn>, name: string, typ: TypeId)
    ensures NamedTyped(NestedColumns(outs), name, typ) <==> AnyGoesBy(outs, name, typ)
    decreases |outs|
  {
    if outs != [] {
      var o, rest := outs[0], outs[1..];
      StoredNames(rest, name, typ);
      assert outs == [o] + rest;
      GoesByFirst(o, rest, name, typ);
      if Nameable(o) { StoredFirst(StoredColumn(o), NestedColumns(rest), name, typ); }
    }
  }

  lemma {:induction false} NamedHasType(cs: seq<NestedColumn>, name: string)
    ensures Storing.Named(cs, name) <==> exists typ :: NamedTyped(cs, name, typ)
  {
    if Storing.Named(cs, name) {
      var i :| 0 <= i < |cs| && cs[i].alias.name == name;
      assert NamedTyped(cs, name, cs[i].typ);
    }
  }

  /** A qualified name finds a column in a derived table exactly if a column of the select
      list goes by that name: by its alias, and only without one by its own name. What it
      finds has the type of such a column. */
  lemma {:induction false} DerivedFindsIff(
    db: Catalog, names: Names, d: string, sub: Select, outer: Chain, before: Scope, after: Scope, name: string)
    returns (below: Scope, subs: seq<OutColumn>)
    requires TableBuilds(db, names, Derived(d, sub), outer, before, after)
    ensures SelectMeans(db, names, sub, [before] + outer, below, subs) && d in after.nested
    ensures FindNamed(after.nested[d], name).Some? <==> exists i :: 0 <= i < |subs| && GoesBy(subs[i], name)
    ensures FindNamed(after.nested[d], name).Some? ==> AnyGoesBy(subs, name, FindNamed(after.nested[d], name).value.typ)
  {
    below, subs := DerivedParts(db, names, d, sub, outer, before, after);
    var t := NestedTableOf(before, d, subs, after);
    FoundByName(subs, t, name);
  }

  lemma {:induction false} NestedTableOf(before: Scope, d: string, outs: seq<OutColumn>, after: Scope)
    returns (t: NestedTable)
    requires NestedAs(before, d, outs, after)
    ensures StoredAs(NestedColumns(outs), t) && d in after.nested && after.nested[d] == t
  {
    t :| StoredAs(NestedColumns(outs), t) && AddNested(before, d, t) == Ok(after);
  }

  lemma {:induction false} FoundByName(outs: seq<OutColumn>, t: NestedTable, name: string)
    requires StoredAs(NestedColumns(outs), t)
    ensures FindNamed(t, name).Some? <==> exists i :: 0 <= i < |outs| && GoesBy(outs[i], name)
    ensures FindNamed(t, name).Some? ==> AnyGoesBy(outs, name, FindNamed(t, name).value.typ)
  {
    var found := FindNamed(t, name);
    assert found.Some? <==> Storing.Named(t, name);
    NamedHasType(NestedColumns(outs), name);
    forall typ ensures NamedTyped(NestedColumns(outs), name, typ) <==> AnyGoesBy(outs, name, typ) {
      StoredNames(outs, name, typ);
    }
    if i :| 0 <= i < |outs| && GoesBy(outs[i], name) { assert AnyGoesBy(outs, name, outs[i].typ); }
    if found.Some? { assert NamedTyped(t, name, found.value.typ); }
  }

  // ---- SELECT * over aliases ----

  /** Every element has an alias, and the parser numbered them in order. */
  predicate Aliased(items: seq<Item>) {
    && !HasStar(items)
    && (forall i :: 0 <= i < |items| ==> items[i].Element? && items[i].alias != "")
    && (forall i, j :: 0 <= i < j < |items| ==> items[i].Element? && items[j].Element? &&
                                                items[i].serial < items[j].serial)
  }

  /** The aliases of the items, with their numbers. */
  ghost predicate CarryAliases(items: seq<Item>, outs: seq<OutColumn>) {
    && |outs| == |items|
    && forall i :: 0 <= i < |items| ==>
         items[i].Element? && outs[i].alias == Alias(items[i].alias, Some(items[i].serial))
  }

  lemma {:induction false} AliasesKeepOrder(items: seq<Item>, outs: seq<OutColumn>)
    requires Aliased(items) && CarryAliases(items, outs)
    ensures KeepsOrder(outs)
  {
    var cs := NestedColumns(outs);
    forall i | 0 <= i < |outs| ensures Nameable(outs[i]) {
      assert outs[i].alias == Alias(items[i].alias, Some(items[i].serial));
    }
    NamedAreStored(outs);
    forall i | 0 <= i < |cs| ensures cs[i].alias == Alias(items[i].alias, Some(items[i].serial)) {
      assert cs[i] == StoredColumn(outs[i]) && outs[i].alias == Alias(items[i].alias, Some(items[i].serial));
    }
  }

  lemma {:induction false} SelectList(
    db: Catalog, names: Names, s: Select, outer: Chain, inner: Scope, outs: seq<OutColumn>)
    requires SelectMeans(db, names, s, outer, inner, outs)
    ensures ListMeans(db, names + SourceNames(s) + ExprsNames(s.conditions), s.items, [inner] + outer, outs)
  {
    assert ListBinds(db, names + SourceNames(s), s, [inner] + outer, outs);
    assert ItemsBind(db, names + SourceNames(s) + ExprsNames(s.conditions), s, [inner] + outer, outs);
  }

  /** SELECT * FROM (sub) d, for every select whose elements all have aliases: it stands for
      exactly these aliases, in order, with the types of the elements. */
  lemma {:induction false} StarOfAliases(
    db: Catalog, names: Names, id: nat, sub: Select, d: string, outer: Chain, inner: Scope, outs: seq<OutColumn>)
    returns (below: Scope)
    requires SelectMeans(db, names, StarOfDerived(id, sub, d), outer, inner, outs) && Aliased(sub.items)
    ensures |outs| == |sub.items|
    ensures forall i :: 0 <= i < |outs| ==>
              var e := sub.items[i];
              && outs[i].column == Some(e.alias) && outs[i].name == e.alias && outs[i].alias.name == ""
              && outs[i].typ == ElementType(e, [below, EMPTY] + outer)
  {
    var subs;
    below, subs := StarOfDerivedMeans(db, names, id, sub, d, outer, inner, outs);
    SelectList(db, names, sub, [EMPTY] + outer, below, subs);
    var ns, chain := names + SourceNames(sub) + ExprsNames(sub.conditions), [below] + ([EMPTY] + outer);
    assert chain == [below, EMPTY] + outer;
    ListLength(db, ns, sub.items, chain, subs);
    forall i | 0 <= i < |sub.items|
      ensures subs[i].alias == Alias(sub.items[i].alias, Some(sub.items[i].serial))
      ensures subs[i].typ == ElementType(sub.items[i], chain)
    {
      ElementAt(db, ns, sub.items, chain, subs, i);
    }
    AliasesKeepOrder(sub.items, subs);
    StarNames(db, names, id, sub, d, outer, inner, outs);
    forall i | 0 <= i < |outs| ensures outs[i].column == Some(sub.items[i].alias) {
      assert StoredColumn(subs[i]).alias == subs[i].alias;
    }
  }

  /** The type of an element in a chain of scopes. */
  ghost function ElementType(e: Item, chain: Chain): (t: TypeId)
    requires e.Element?
  {
    if e.expr.ColumnValue? && Bind(chain, e.expr.ref).Ok? then Bind(chain, e.expr.ref).value.typ else e.typ
  }

  /** What SELECT * stands for has no aliases; the columns go by their own names. */
  lemma {:induction false} StarNames(
    db: Catalog, names: Names, id: nat, sub: Select, d: string, outer: Chain, inner: Scope, outs: seq<OutColumn>)
    requires SelectMeans(db, names, StarOfDerived(id, sub, d), outer, inner, outs)
    ensures forall i :: 0 <= i < |outs| ==> outs[i].column == Some(outs[i].name) && outs[i].alias.name == ""
  {
    var s := StarOfDerived(id, sub, d);
    PlainMeans(db, names + SourceNames(s), s, [inner] + outer, outs);
    var refs :| Expansion(inner, DepthOf([inner] + outer, 0), refs) && outs == StarColumns(refs);
  }

  // ---- The columns of a CTE ----

  lemma {:induction false} SerialsDiffer(counter: nat, i: nat, j: nat)
    requires i < j < i + TEMP_OID_MASK
    ensures NewOid(counter, i) != NewOid(counter, j)
  {
    var n, k := counter + 1 + i, j - i;
    assert counter + 1 + j == n + k;
    ModDiffers(n, k);
  }

  lemma {:induction false} ModDiffers(n: nat, k: nat)
    requires 0 < k < TEMP_OID_MASK
    ensures (n + k) % TEMP_OID_MASK != n % TEMP_OID_MASK
  {
    if n % TEMP_OID_MASK + k < TEMP_OID_MASK {
      LowBits(n, k);
    } else {
      var over := n % TEMP_OID_MASK + k - TEMP_OID_MASK;
      assert n + k == (n / TEMP_OID_MASK + 1) * TEMP_OID_MASK + over;
      LowBitsOf(n / TEMP_OID_MASK + 1, over);
    }
  }

  lemma {:induction false} CteKeysDistinct(names: seq<string>, columns: seq<SelectColumn>, counter: nat)
    requires |columns| <= TEMP_OID_MASK
    ensures KeysDistinct(CteColumns(names, columns, counter))
  {
    var cs := CteColumns(names, columns, counter);
    forall i, j | 0 <= i < j < |cs| ensures !SameAlias(cs[i].alias, cs[j].alias) { SerialsDiffer(counter, i, j); }
  }

  /** The name of column `i` of a CTE: the one in the list after the name of the CTE, else
      that of the element. */
  function CteColumnName(c: Cte, outs: seq<OutColumn>, i: nat): (name: string)
    requires i < |outs|
  {
    if i < |c.names| then c.names[i] else if outs[i].name != "" then outs[i].name else "?column?"
  }

  /** A select list as the parser left it: no star is expanded and no column looked up. */
  predicate AsParsed(items: seq<Item>, outs: seq<OutColumn>) {
    && |outs| == |items|
    && forall i :: 0 <= i < |items| ==>
         && outs[i].typ == (if items[i].Star? then INVALID else items[i].typ)
         && outs[i].name == (if items[i].Star? then "" else items[i].name)
  }

  /** For every CTE: it has the columns of its select, or of the select after UNION if it is
      recursive, and for each of them one column with its type, under the name in the list
      of names or else its own. */
  lemma {:induction false} CteHas(
    db: Catalog, names: Names, c: Cte, outer: Chain, before: Scope, after: Scope)
    returns (outs: seq<OutColumn>)
    requires CteBuilds(db, names, c, outer, before, after)
    ensures !c.recursive ==> exists inner :: SelectMeans(db, names + {c.alias}, c.select, [before] + outer, inner, outs)
    ensures c.recursive && c.select.union.Some? ==>
              exists inner :: SelectMeans(db, names + {c.alias}, c.select.union.value, [before] + outer, inner, outs)
    ensures c.recursive && c.select.union.None? ==> AsParsed(c.select.items, outs)
    ensures c.alias in after.nested && |c.names| <= |outs|
    ensures |outs| <= TEMP_OID_MASK ==>
              && |after.nested[c.alias]| == |outs|
              && forall i :: 0 <= i < |outs| ==>
                   NamedTyped(after.nested[c.alias], CteColumnName(c, outs, i), outs[i].typ)
  {
    var counter;
    outs, counter := CteParts(db, names, c, outer, before, after);
    if CteSource(c).Some? { var inner := CteSelect(db, names + {c.alias}, c, [before] + outer, outs); }
    var cs, t := CteTableOf(before, c, outs, counter, after);
    if |outs| <= TEMP_OID_MASK {
      CteKeysDistinct(c.names, SelectColumns(outs), counter);
      assert |multiset(t)| == |multiset(cs)| == |outs|;
      forall i | 0 <= i < |outs| ensures NamedTyped(t, CteColumnName(c, outs, i), outs[i].typ) {
        StoredAt(cs, t, i);
      }
    }
  }

  lemma {:induction false} CteTableOf(before: Scope, c: Cte, outs: seq<OutColumn>, counter: nat, after: Scope)
    returns (cs: seq<NestedColumn>, t: NestedTable)
    requires CteAs(before, c, outs, counter, after)
    ensures cs == CteColumns(c.names, SelectColumns(outs), counter) && StoredAs(cs, t)
    ensures c.alias in after.nested && after.nested[c.alias] == t && |c.names| <= |outs|
    ensures forall i :: 0 <= i < |outs| ==>
              cs[i].alias.name == CteColumnName(c, outs, i) && cs[i].typ == outs[i].typ
  {
    cs := CteColumns(c.names, SelectColumns(outs), counter);
    t :| StoredAs(cs, t) && AddCte(before, c.alias, t) == Ok(after);
  }

  lemma {:induction false} StoredAt(cs: seq<NestedColumn>, t: NestedTable, i: nat)
    requires multiset(t) == multiset(cs) && i < |cs|
    ensures NamedTyped(t, cs[i].alias.name, cs[i].typ)
  {
    assert cs[i] in multiset(cs);
    assert cs[i] in t;
  }

  /** WITH names every CTE once. */
  lemma {:induction false} CtesAreDistinct(
    db: Catalog, names: Names, cs: seq<Cte>, outer: Chain, after: Scope, i: nat, j: nat)
    requires CtesBuild(db, names, cs, outer, after) && i < j < |cs|
    ensures cs[i].alias != cs[j].alias
    decreases |cs|
  {
    var mid := CtesParts(db, names, cs, outer, after);
    if j < |cs| - 1 {
      CtesAreDistinct(db, names, Front(cs), outer, mid, i, j);
    } else {
      CtesAdd(db, names, Front(cs), outer, mid);
      AliasIn(Front(cs), i);
    }
  }

  lemma {:induction false} AliasIn(cs: seq<Cte>, i: nat)
    requires i < |cs|
    ensures cs[i].alias in Aliases(cs)
    decreases |cs|
  {
    if i < |cs| - 1 { AliasIn(Front(cs), i); }
  }

  /** FROM c AS a, where c is an announced CTE: `a` has exactly the columns of the nearest c. */
  lemma {:induction false} AliasedCteHas(
    db: Catalog, names: Names, c: string, a: string, outer: Chain, before: Scope, after: Scope, k: nat)
    requires c in names && c != a && TableBuilds(db, names, Named(c, a), outer, before, after)
    requires k <= |outer| && c in ([before] + outer)[k].nested && NoNestedBefore([before] + outer, c, k)
    ensures a in after.nested && after.nested[a] == ([before] + outer)[k].nested[c]
    ensures after.regular == before.regular && after.nested.Keys == before.nested.Keys + {a}
  {
    NearestNestedFrom([before] + outer, c, k);
  }

  /** A star needs a FROM. */
  lemma {:induction false} StarNeedsFrom(
    db: Catalog, names: Names, s: Select, outer: Chain, inner: Scope, outs: seq<OutColumn>, i: nat)
    requires SelectMeans(db, names, s, outer, inner, outs) && i < |s.items| && s.items[i].Star?
    ensures s.from.Some?
  {
    assert ListBinds(db, names + SourceNames(s), s, [inner] + outer, outs);
    assert ItemsBind(db, names + SourceNames(s) + ExprsNames(s.conditions), s, [inner] + outer, outs);
    if !HasStar(s.items) { StarlessAt(s.items, i); }
  }

  // ---- SELECT a AS x FROM t ----

  /** SELECT a AS x FROM t */
  function Renamed(id: nat, t: string, a: string, x: string, serial: nat): (s: Select) {
    Select(id, [], Some(Named(t, t)), [], [Element(ColumnValue(Written("", a)), x, serial, "", INVALID)], None, [])
  }

  lemma {:induction false} RenamedMeans(
    db: Catalog, names: Names, id: nat, t: string, a: string, x: string, serial: nat,
    outer: Chain, inner: Scope, outs: seq<OutColumn>)
    requires t in db && t !in names && HasColumn(db[t], a) && x != ""
    requires SelectMeans(db, names, Renamed(id, t, a, x, serial), outer, inner, outs)
    ensures outs == [OutColumn(Alias(x, Some(serial)), Some(a), x, GetColumn(db[t].schema, a).typ)]
  {
    var s := Renamed(id, t, a, x, serial);
    TableOnly(db, names, s, t, outer, inner);
    OnlyTable(db[t], t, a, outer);
    SelectList(db, names, s, outer, inner, outs);
    assert Front(s.items) == [] && Last(s.items) == s.items[0] && !HasStar(s.items);
    ElementAt(db, names + SourceNames(s) + ExprsNames(s.conditions), s.items, [inner] + outer, outs, 0);
  }

  lemma {:induction false} RenamedScope(
    db: Catalog, id: nat, t: string, a: string, x: string, serial: nat, d: string, inner: Scope)
    requires t in db && HasColumn(db[t], a) && x != ""
    requires TableBuilds(db, {}, Derived(d, Renamed(id, t, a, x, serial)), [], EMPTY, inner)
    ensures inner == EMPTY.(nested := map[d := [NestedColumn(Alias(x, Some(serial)), GetColumn(db[t].schema, a).typ)]])
  {
    var below, outs := DerivedParts(db, {}, d, Renamed(id, t, a, x, serial), [], EMPTY, inner);
    RenamedMeans(db, {}, id, t, a, x, serial, [EMPTY] + [], below, outs);
    var stored :| StoredAs(NestedColumns(outs), stored) && AddNested(EMPTY, d, stored) == Ok(inner);
    assert outs[1..] == [] && NestedColumns([]) == [];
    assert NestedColumns(outs) == [NestedColumn(outs[0].alias, outs[0].typ)];
    StoredOne(NestedColumn(outs[0].alias, outs[0].typ), stored);
    assert EMPTY.nested[d := stored] == map[d := stored];
  }

  /** FROM (SELECT a AS x FROM t) d: the column is found as x, bare or as d.x, with the type
      that a has in t, and not as a. */
  lemma {:induction false} RenamedIsFound(
    db: Catalog, id: nat, t: string, a: string, x: string, serial: nat, d: string, inner: Scope)
    requires t in db && HasColumn(db[t], a) && x != "" && x != a && Lower(x) == x && d != "" && Lower(d) == d
    requires TableBuilds(db, {}, Derived(d, Renamed(id, t, a, x, serial)), [], EMPTY, inner)
    ensures var found := ColumnRef(d, x, INVALID_OID, INVALID_OID, MakeTempOid(serial),
                                   GetColumn(db[t].schema, a).typ, 0);
            && Bind([inner], Written("", x)) == Ok(found) && Bind([inner], Written(d, x)) == Ok(found)
    ensures Bind([inner], Written("", a)) == Throw(UndefinedColumn)
    ensures Bind([inner], Written(d, a)) == Throw(UndefinedColumn)
  {
    RenamedScope(db, id, t, a, x, serial, d, inner);
    OnlyColumnFound(inner, d, NestedColumn(Alias(x, Some(serial)), GetColumn(db[t].schema, a).typ));
    OtherNotFound(inner, d, NestedColumn(Alias(x, Some(serial)), GetColumn(db[t].schema, a).typ), a);
  }

  /** The column of the only table of the only scope. */
  lemma {:induction false} OnlyColumnFound(s: Scope, d: string, c: NestedColumn)
    requires s == EMPTY.(nested := map[d := [c]]) && d != "" && Lower(d) == d
    requires c.alias.name != "" && Lower(c.alias.name) == c.alias.name
    ensures var found := ColumnRef(d, c.alias.name, INVALID_OID, INVALID_OID, MakeTempOid(SerialNo(c.alias)), c.typ, 0);
            && Bind([s], Written("", c.alias.name)) == Ok(found) && Bind([s], Written(d, c.alias.name)) == Ok(found)
  {
    assert d in s.nested && s.nested[d] == [c];
    BareNested([s], Written("", c.alias.name), 0, d, 0);
    QualifiedNested([s], Written(d, c.alias.name), 0, 0);
  }

  lemma {:induction false} OtherNotFound(s: Scope, d: string, c: NestedColumn, a: string)
    requires s == EMPTY.(nested := map[d := [c]]) && d != "" && Lower(d) == d
    requires a != "" && Lower(a) == a && a != c.alias.name
    ensures Bind([s], Written("", a)) == Throw(UndefinedColumn) && Bind([s], Written(d, a)) == Throw(UndefinedColumn)
  {
    assert d in s.nested && s.nested[d] == [c];
    assert SilentTo([s], a, 1);
    BareRefused([s], Written("", a));
    QualifiedNested([s], Written(d, a), 0, 0);
  }
}
