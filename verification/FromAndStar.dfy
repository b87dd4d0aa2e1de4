/** FROM, and what SELECT * makes of it: which aliases the scope of a select has, when
    these are the tables named in FROM, and when a name in FROM means the catalog table.
 */
module FromAndStar {
  import opened Basics
  import opened SqlTypes
  import opened Scope
  import opened ColumnBinding
  import opened BinderContext
  import opened StarExpansion
  import opened SelectTree
  import opened SelectMeaning

  // ---- The entries of FROM ----

  /** A table in FROM: its alias, and whether it is the name of an announced CTE under its
      own name, for which nothing is registered. */
  datatype Entry = Entry(alias: string, silent: bool)

  function Entries(names: Names, t: TableRef): (es: seq<Entry>)
    decreases t
  {
    match t
    case Named(name, alias) => [Entry(alias, name in names && name == alias)]
    case Derived(alias, _) => [Entry(alias, false)]
    case Join(l, r, _) => Entries(names, l) + Entries(names + TableNames(l), r)
    case Tables(list) => ListEntries(names, list)
  }

  function ListEntries(names: Names, ts: seq<TableRef>): (es: seq<Entry>)
    decreases ts
  {
    if ts == [] then []
    else ListEntries(names, Front(ts)) + Entries(names + TablesNames(Front(ts)), Last(ts))
  }

  ghost predicate Registers(es: seq<Entry>, a: string) {
    exists i :: 0 <= i < |es| && !es[i].silent && es[i].alias == a
  }

  ghost predicate DistinctAliases(es: seq<Entry>) {
    forall i, j :: 0 <= i < j < |es| ==> es[i].alias != es[j].alias
  }

  /** The entries that register something do so under new and different aliases, and
      nothing else happens to the aliases. */
  ghost predicate AddsEntries(es: seq<Entry>, before: Scope, after: Scope) {
    && (forall a :: HasAlias(after, a) <==> HasAlias(before, a) || Registers(es, a))
    && (forall a :: Registers(es, a) ==> !HasAlias(before, a))
    && (forall i, j :: 0 <= i < j < |es| && !es[i].silent && !es[j].silent ==> es[i].alias != es[j].alias)
  }

  lemma {:induction false} RegistersEither(u: seq<Entry>, v: seq<Entry>, a: string)
    ensures Registers(u + v, a) <==> Registers(u, a) || Registers(v, a)
  {
    var w := u + v;
    assert forall i :: 0 <= i < |u| ==> w[i] == u[i];
    assert forall i :: 0 <= i < |v| ==> w[|u| + i] == v[i];
    if Registers(w, a) {
      var i :| 0 <= i < |w| && !w[i].silent && w[i].alias == a;
      if i >= |u| { assert w[i] == v[i - |u|]; }
    }
    if Registers(v, a) {
      var i :| 0 <= i < |v| && !v[i].silent && v[i].alias == a;
      assert w[|u| + i] == v[i];
    }
  }

  lemma {:induction false} AddsBoth(u: seq<Entry>, v: seq<Entry>, before: Scope, mid: Scope, after: Scope)
    requires AddsEntries(u, before, mid) && AddsEntries(v, mid, after)
    ensures AddsEntries(u + v, before, after)
  {
    forall a ensures Registers(u + v, a) <==> Registers(u, a) || Registers(v, a) { RegistersEither(u, v, a); }
    var w := u + v;
    forall i, j | 0 <= i < j < |w| && !w[i].silent && !w[j].silent ensures w[i].alias != w[j].alias {
      if j >= |u| {
        assert w[j] == v[j - |u|] && Registers(v, w[j].alias);
        if i >= |u| { assert w[i] == v[i - |u|]; } else { assert Registers(u, w[i].alias); }
      }
    }
  }

  lemma {:induction false} AddsNone(s: Scope, alias: string)
    ensures AddsEntries([], s, s) && AddsEntries([Entry(alias, true)], s, s)
  {
  }

  lemma {:induction false} AddsOne(before: Scope, after: Scope, alias: string)
    requires !HasAlias(before, alias) && forall a :: HasAlias(after, a) <==> HasAlias(before, a) || a == alias
    ensures AddsEntries([Entry(alias, false)], before, after)
  {
    var es := [Entry(alias, false)];
    assert es[0].alias == alias && !es[0].silent;
    assert Registers(es, alias);
  }

  /** What a FROM clause adds to the aliases of a scope are its entries. */
  lemma {:induction false} TableAdds(db: Catalog, names: Names, t: TableRef, outer: Chain, before: Scope, after: Scope)
    requires TableBuilds(db, names, t, outer, before, after)
    ensures AddsEntries(Entries(names, t), before, after)
    decreases t
  {
    match t
    case Named(name, alias) =>
      if name in names && name == alias { AddsNone(before, alias); } else { AddsOne(before, after, alias); }
    case Derived(alias, s) =>
      var inner, outs :| SelectMeans(db, names, s, [before] + outer, inner, outs) &&
                         NestedAs(before, alias, outs, after);
      AddsOne(before, after, alias);
    case Join(l, r, _) =>
      var mid :| TableBuilds(db, names, l, outer, before, mid) &&
                 TableBuilds(db, names + TableNames(l), r, outer, mid, after);
      TableAdds(db, names, l, outer, before, mid);
      TableAdds(db, names + TableNames(l), r, outer, mid, after);
      AddsBoth(Entries(names, l), Entries(names + TableNames(l), r), before, mid, after);
    case Tables(list) =>
      TablesAdd(db, names, list, outer, before, after);
  }

  lemma {:induction false} TablesAdd(
    db: Catalog, names: Names, ts: seq<TableRef>, outer: Chain, before: Scope, after: Scope)
    requires TablesBuild(db, names, ts, outer, before, after)
    ensures AddsEntries(ListEntries(names, ts), before, after)
    decreases ts
  {
    if ts == [] {
      AddsNone(before, "");
    } else {
      var mid := TablesParts(db, names, ts, outer, before, after);
      TablesAdd(db, names, Front(ts), outer, before, mid);
      TableAdds(db, names + TablesNames(Front(ts)), Last(ts), outer, mid, after);
      AddsBoth(ListEntries(names, Front(ts)), Entries(names + TablesNames(Front(ts)), Last(ts)), before, mid, after);
    }
  }

  function Aliases(cs: seq<Cte>): (names: set<string>) {
    if cs == [] then {} else Aliases(Front(cs)) + {Last(cs).alias}
  }

  /** WITH adds exactly the names of its entries, as nested tables. */
  lemma {:induction false} CtesAdd(db: Catalog, names: Names, cs: seq<Cte>, outer: Chain, after: Scope)
    requires CtesBuild(db, names, cs, outer, after)
    ensures after.regular == map[] && after.list == [] && after.nested.Keys == Aliases(cs)
    decreases cs
  {
    if cs != [] {
      var mid := CtesParts(db, names, cs, outer, after);
      CtesAdd(db, names, Front(cs), outer, mid);
    }
  }

  // ---- Which tables of the catalog are registered ----

  /** A single table in FROM, with the CTE names announced before it. */
  datatype Place = Place(name: string, alias: string, announced: Names)

  /** The single tables of a reference, wherever in its joins and lists they stand. */
  function Places(names: Names, t: TableRef): (ps: seq<Place>)
    decreases t
  {
    match t
    case Named(name, alias) => [Place(name, alias, names)]
    case Derived(_, _) => []
    case Join(l, r, _) => Places(names, l) + Places(names + TableNames(l), r)
    case Tables(list) => ListPlaces(names, list)
  }

  function ListPlaces(names: Names, ts: seq<TableRef>): (ps: seq<Place>)
    decreases ts
  {
    if ts == [] then [] else ListPlaces(names, Front(ts)) + Places(names + TablesNames(Front(ts)), Last(ts))
  }

  predicate Announced(p: Place) {
    p.name in p.announced
  }

  ghost predicate FromCatalog(ps: seq<Place>, a: string) {
    exists i :: 0 <= i < |ps| && !Announced(ps[i]) && ps[i].alias == a
  }

  /** The places whose names were not announced, and no others, register regular tables, each
      the table that the catalog has under its name. */
  ghost predicate Registered(db: Catalog, ps: seq<Place>, before: Scope, after: Scope) {
    && (forall a :: a in after.regular <==> a in before.regular || FromCatalog(ps, a))
    && (forall a :: a in before.regular && a in after.regular ==> after.regular[a] == before.regular[a])
    && (forall i :: 0 <= i < |ps| && !Announced(ps[i]) ==>
          && ps[i].name in db && ps[i].alias !in before.regular && ps[i].alias in after.regular
          && after.regular[ps[i].alias] == db[ps[i].name])
  }

  lemma {:induction false} FromCatalogEither(u: seq<Place>, v: seq<Place>, a: string)
    ensures FromCatalog(u + v, a) <==> FromCatalog(u, a) || FromCatalog(v, a)
  {
    var w := u + v;
    if i :| 0 <= i < |u| && !Announced(u[i]) && u[i].alias == a { assert w[i] == u[i]; }
    if i :| 0 <= i < |v| && !Announced(v[i]) && v[i].alias == a { assert w[|u| + i] == v[i]; }
    if i :| 0 <= i < |w| && !Announced(w[i]) && w[i].alias == a {
      if i < |u| { assert w[i] == u[i]; } else { assert w[i] == v[i - |u|]; }
    }
  }

  lemma {:induction false} RegisteredBoth(
    db: Catalog, u: seq<Place>, v: seq<Place>, before: Scope, mid: Scope, after: Scope)
    requires Registered(db, u, before, mid) && Registered(db, v, mid, after)
    ensures Registered(db, u + v, before, after)
  {
    var w := u + v;
    forall a ensures a in after.regular <==> a in before.regular || FromCatalog(w, a) { FromCatalogEither(u, v, a); }
    forall i | 0 <= i < |w| && !Announced(w[i])
      ensures w[i].name in db && w[i].alias !in before.regular && w[i].alias in after.regular
      ensures after.regular[w[i].alias] == db[w[i].name]
    {
      if i < |u| { assert w[i] == u[i]; } else { assert w[i] == v[i - |u|]; }
    }
  }

  /** A name in FROM, at any place of any list or join, registers the catalog table if and
      only if no CTE of that name was announced before it, anywhere in the statement. */
  lemma {:induction false} FromTableIff(
    db: Catalog, names: Names, t: TableRef, outer: Chain, before: Scope, after: Scope)
    requires TableBuilds(db, names, t, outer, before, after)
    ensures Registered(db, Places(names, t), before, after)
    decreases t
  {
    match t
    case Named(name, alias) =>
      var ps := [Place(name, alias, names)];
      assert ps[0].name == name && (name !in names ==> FromCatalog(ps, alias));
    case Derived(alias, s) =>
      var inner, outs :| SelectMeans(db, names, s, [before] + outer, inner, outs) &&
                         NestedAs(before, alias, outs, after);
    case Join(l, r, _) =>
      var mid :| TableBuilds(db, names, l, outer, before, mid) &&
                 TableBuilds(db, names + TableNames(l), r, outer, mid, after);
      FromTableIff(db, names, l, outer, before, mid);
      FromTableIff(db, names + TableNames(l), r, outer, mid, after);
      RegisteredBoth(db, Places(names, l), Places(names + TableNames(l), r), before, mid, after);
    case Tables(list) =>
      FromTablesIff(db, names, list, outer, before, after);
  }

  lemma {:induction false} FromTablesIff(
    db: Catalog, names: Names, ts: seq<TableRef>, outer: Chain, before: Scope, after: Scope)
    requires TablesBuild(db, names, ts, outer, before, after)
    ensures Registered(db, ListPlaces(names, ts), before, after)
    decreases ts
  {
    if ts != [] {
      var mid := TablesParts(db, names, ts, outer, before, after);
      FromTablesIff(db, names, Front(ts), outer, before, mid);
      FromTableIff(db, names + TablesNames(Front(ts)), Last(ts), outer, mid, after);
      RegisteredBoth(db, ListPlaces(names, Front(ts)), Places(names + TablesNames(Front(ts)), Last(ts)),
                     before, mid, after);
    }
  }

  // ---- Every scope is sound ----

  lemma {:induction false} TableKeepsSound(
    db: Catalog, names: Names, t: TableRef, outer: Chain, before: Scope, after: Scope)
    requires TableBuilds(db, names, t, outer, before, after) && Sound(before)
    ensures Sound(after)
    decreases t
  {
    match t
    case Named(name, alias) =>
      if name in names { SoundAlias(before, after, alias); }
    case Derived(alias, s) =>
      var inner, outs :| SelectMeans(db, names, s, [before] + outer, inner, outs) &&
                         NestedAs(before, alias, outs, after);
    case Join(l, r, _) =>
      var mid :| TableBuilds(db, names, l, outer, before, mid) &&
                 TableBuilds(db, names + TableNames(l), r, outer, mid, after);
      TableKeepsSound(db, names, l, outer, before, mid);
      TableKeepsSound(db, names + TableNames(l), r, outer, mid, after);
    case Tables(list) =>
      TablesKeepSound(db, names, list, outer, before, after);
  }

  lemma {:induction false} TablesKeepSound(
    db: Catalog, names: Names, ts: seq<TableRef>, outer: Chain, before: Scope, after: Scope)
    requires TablesBuild(db, names, ts, outer, before, after) && Sound(before)
    ensures Sound(after)
    decreases ts
  {
    if ts != [] {
      var mid := TablesParts(db, names, ts, outer, before, after);
      TablesKeepSound(db, names, Front(ts), outer, before, mid);
      TableKeepsSound(db, names + TablesNames(Front(ts)), Last(ts), outer, mid, after);
    }
  }

  lemma {:induction false} SourceIsSound(db: Catalog, names: Names, s: Select, outer: Chain, inner: Scope)
    requires SourceBuilds(db, names, s, outer, inner)
    ensures Sound(inner)
  {
    var ctes := SourceParts(db, names, s, outer, inner);
    CtesAdd(db, names, s.ctes, outer, ctes);
    if s.from.Some? { TableKeepsSound(db, names + CtesNames(s.ctes), s.from.value, outer, ctes, inner); }
  }

  // ---- SELECT * ----

  /** The entries of the FROM clause of a select. */
  function FromEntries(names: Names, s: Select): (es: seq<Entry>)
    requires s.from.Some?
  {
    Entries(names + CtesNames(s.ctes), s.from.value)
  }

  ghost predicate InFrom(es: seq<Entry>, a: string) {
    exists i :: 0 <= i < |es| && es[i].alias == a
  }

  /** The tables of which columns are emitted are those named in FROM, each once. */
  ghost predicate ExactlyFrom(es: seq<Entry>, refs: seq<ColumnRef>) {
    DistinctAliases(es) && forall a :: Emits(refs, a) <==> InFrom(es, a)
  }

  /** No alias occurs twice in FROM, every table named there is in the scope and has stored
      columns, and every CTE of this WITH that has columns is in FROM under its own name. */
  ghost predicate StarFriendly(names: Names, s: Select, inner: Scope)
    requires s.from.Some?
  {
    var es := FromEntries(names, s);
    && DistinctAliases(es)
    && (forall i :: 0 <= i < |es| ==> HasColumns(inner, es[i].alias))
    && (forall c :: c in Aliases(s.ctes) && HasColumns(inner, c) ==> Entry(c, true) in es)
  }

  /** For every select and whatever SELECT * emits, the tables emitted are those named in
      FROM if and only if that condition holds. A CTE in FROM under its own name is then one
      of this WITH. */
  lemma {:induction false} StarIsFromIff(
    db: Catalog, names: Names, s: Select, outer: Chain, inner: Scope, depth: int, refs: seq<ColumnRef>)
    requires s.from.Some? && SourceBuilds(db, names, s, outer, inner) && Listed(inner) && Expansion(inner, depth, refs)
    ensures ExactlyFrom(FromEntries(names, s), refs) <==> StarFriendly(names, s, inner)
    ensures StarFriendly(names, s, inner) ==>
              forall e :: e in FromEntries(names, s) && e.silent ==> e.alias in Aliases(s.ctes)
  {
    var es := FromEntries(names, s);
    var ctes := SourceParts(db, names, s, outer, inner);
    CtesAdd(db, names, s.ctes, outer, ctes);
    TableAdds(db, names + CtesNames(s.ctes), s.from.value, outer, ctes, inner);
    forall a ensures HasAlias(ctes, a) <==> a in Aliases(s.ctes) { assert a in ctes.nested <==> a in ctes.nested.Keys; }
    forall a ensures Emits(refs, a) <==> HasColumns(inner, a) { StarEmits(inner, depth, refs, a); }
    if ExactlyFrom(es, refs) { ExactIsFriendly(es, Aliases(s.ctes), ctes, inner, refs); }
    if StarFriendly(names, s, inner) {
      FriendlyIsExact(es, Aliases(s.ctes), ctes, inner, refs);
      FriendlyIsOwn(es, Aliases(s.ctes), ctes, inner);
    }
  }

  lemma {:induction false} ExactIsFriendly(
    es: seq<Entry>, own: set<string>, ctes: Scope, inner: Scope, refs: seq<ColumnRef>)
    requires AddsEntries(es, ctes, inner) && forall a :: HasAlias(ctes, a) <==> a in own
    requires ExactlyFrom(es, refs) && forall a :: Emits(refs, a) <==> HasColumns(inner, a)
    ensures forall i :: 0 <= i < |es| ==> HasColumns(inner, es[i].alias)
    ensures forall c :: c in own && HasColumns(inner, c) ==> Entry(c, true) in es
  {
    forall i | 0 <= i < |es| ensures HasColumns(inner, es[i].alias) { assert InFrom(es, es[i].alias); }
    forall c | c in own && HasColumns(inner, c) ensures Entry(c, true) in es {
      assert InFrom(es, c);
      var i :| 0 <= i < |es| && es[i].alias == c;
      if !es[i].silent { assert Registers(es, c); }
      assert es[i] == Entry(c, true);
    }
  }

  lemma {:induction false} FriendlyIsExact(
    es: seq<Entry>, own: set<string>, ctes: Scope, inner: Scope, refs: seq<ColumnRef>)
    requires AddsEntries(es, ctes, inner) && forall a :: HasAlias(ctes, a) <==> a in own
    requires DistinctAliases(es) && forall i :: 0 <= i < |es| ==> HasColumns(inner, es[i].alias)
    requires forall c :: c in own && HasColumns(inner, c) ==> Entry(c, true) in es
    requires forall a :: Emits(refs, a) <==> HasColumns(inner, a)
    ensures ExactlyFrom(es, refs)
  {
    forall a ensures Emits(refs, a) <==> InFrom(es, a) {
      if HasColumns(inner, a) {
        assert HasAlias(inner, a);
        if a in own {
          var i :| 0 <= i < |es| && es[i] == Entry(a, true);
          assert es[i].alias == a;
        } else {
          assert Registers(es, a);
        }
      }
    }
  }

  lemma {:induction false} FriendlyIsOwn(es: seq<Entry>, own: set<string>, ctes: Scope, inner: Scope)
    requires AddsEntries(es, ctes, inner) && forall a :: HasAlias(ctes, a) <==> a in own
    requires DistinctAliases(es) && forall i :: 0 <= i < |es| ==> HasColumns(inner, es[i].alias)
    ensures forall e :: e in es && e.silent ==> e.alias in own
  {
    forall e | e in es && e.silent ensures e.alias in own {
      var i :| 0 <= i < |es| && es[i] == e;
      assert HasAlias(inner, es[i].alias);
    }
  }

  // ---- The order of SELECT * ----

  /** The places that stand for tables of the catalog, in the order in which FROM has them. */
  function CatalogPlaces(ps: seq<Place>): (rs: seq<Place>)
    ensures forall p :: p in rs ==> p in ps && !Announced(p)
  {
    if ps == [] then [] else CatalogPlaces(Front(ps)) + if Announced(Last(ps)) then [] else [Last(ps)]
  }

  function AliasesOf(ps: seq<Place>): (aliases: seq<string>)
    ensures |aliases| == |ps|
  {
    seq(|ps|, i requires 0 <= i < |ps| => ps[i].alias)
  }

  lemma {:induction false} CatalogPlacesConcat(u: seq<Place>, v: seq<Place>)
    ensures CatalogPlaces(u + v) == CatalogPlaces(u) + CatalogPlaces(v)
    decreases |v|
  {
    if v == [] {
      assert u + v == u && CatalogPlaces(v) == [];
    } else {
      var w, more := u + v, if Announced(Last(v)) then [] else [Last(v)];
      assert Front(w) == u + Front(v) && Last(w) == Last(v);
      CatalogPlacesConcat(u, Front(v));
      assert CatalogPlaces(w) == CatalogPlaces(u) + CatalogPlaces(Front(v)) + more;
    }
  }

  lemma {:induction false} ListBoth(u: seq<Place>, v: seq<Place>, before: Scope, mid: Scope, after: Scope)
    requires mid.list == before.list + AliasesOf(CatalogPlaces(u))
    requires after.list == mid.list + AliasesOf(CatalogPlaces(v))
    ensures after.list == before.list + AliasesOf(CatalogPlaces(u + v))
  {
    CatalogPlacesConcat(u, v);
  }

  /** FROM appends its tables of the catalog to the alias list, in order. */
  lemma {:induction false} TableLists(db: Catalog, names: Names, t: TableRef, outer: Chain, before: Scope, after: Scope)
    requires TableBuilds(db, names, t, outer, before, after)
    ensures after.list == before.list + AliasesOf(CatalogPlaces(Places(names, t)))
    decreases t
  {
    match t
    case Named(name, alias) =>
      var ps := [Place(name, alias, names)];
      assert Front(ps) == [] && Last(ps) == ps[0];
      assert AliasesOf(CatalogPlaces(ps)) == if name in names then [] else [alias];
    case Derived(alias, s) =>
      var inner, outs :| SelectMeans(db, names, s, [before] + outer, inner, outs) &&
                         NestedAs(before, alias, outs, after);
    case Join(l, r, _) =>
      var mid :| TableBuilds(db, names, l, outer, before, mid) &&
                 TableBuilds(db, names + TableNames(l), r, outer, mid, after);
      TableLists(db, names, l, outer, before, mid);
      TableLists(db, names + TableNames(l), r, outer, mid, after);
      ListBoth(Places(names, l), Places(names + TableNames(l), r), before, mid, after);
    case Tables(list) =>
      TablesList(db, names, list, outer, before, after);
  }

  lemma {:induction false} TablesList(
    db: Catalog, names: Names, ts: seq<TableRef>, outer: Chain, before: Scope, after: Scope)
    requires TablesBuild(db, names, ts, outer, before, after)
    ensures after.list == before.list + AliasesOf(CatalogPlaces(ListPlaces(names, ts)))
    decreases ts
  {
    if ts != [] {
      var mid := TablesParts(db, names, ts, outer, before, after);
      TablesList(db, names, Front(ts), outer, before, mid);
      TableLists(db, names + TablesNames(Front(ts)), Last(ts), outer, mid, after);
      ListBoth(ListPlaces(names, Front(ts)), Places(names + TablesNames(Front(ts)), Last(ts)), before, mid, after);
    }
  }

  /** The tables of the catalog that a select has in FROM. */
  function FromTables(names: Names, s: Select): (ps: seq<Place>)
    requires s.from.Some?
  {
    CatalogPlaces(Places(names + CtesNames(s.ctes), s.from.value))
  }

  /** The number of columns that some tables of the catalog have. */
  function ColumnsOf(db: Catalog, ps: seq<Place>): (n: nat) {
    if ps == [] then 0
    else ColumnsOf(db, Front(ps)) + if Last(ps).name in db then |db[Last(ps).name].schema| else 0
  }

  /** The scope of a select lists the tables of FROM as the catalog has them. */
  lemma {:induction false} SourceLists(db: Catalog, names: Names, s: Select, outer: Chain, inner: Scope)
    requires s.from.Some? && SourceBuilds(db, names, s, outer, inner)
    ensures inner.list == AliasesOf(FromTables(names, s))
    ensures forall p :: p in FromTables(names, s) ==>
              p.name in db && p.alias in inner.regular && inner.regular[p.alias] == db[p.name]
  {
    var ctes := SourceParts(db, names, s, outer, inner);
    var all := names + CtesNames(s.ctes);
    CtesAdd(db, names, s.ctes, outer, ctes);
    TableLists(db, all, s.from.value, outer, ctes, inner);
    FromTableIff(db, all, s.from.value, outer, ctes, inner);
  }

  lemma {:induction false} WidthOfPlaces(db: Catalog, inner: Scope, ps: seq<Place>)
    requires forall p :: p in ps ==>
               p.name in db && p.alias in inner.regular && inner.regular[p.alias] == db[p.name]
    ensures (forall a :: a in AliasesOf(ps) ==> a in inner.regular)
    ensures Width(inner, AliasesOf(ps)) == ColumnsOf(db, ps)
    decreases |ps|
  {
    if ps != [] {
      WidthOfPlaces(db, inner, Front(ps));
      assert ps == Front(ps) + [Last(ps)];
      assert Front(AliasesOf(ps)) == AliasesOf(Front(ps)) && Last(AliasesOf(ps)) == Last(ps).alias;
    }
  }

  /** For every select, whatever its joins and lists: SELECT * emits the tables of the catalog
      in the order in which FROM has them, each with all its columns in the order of its
      schema, and the nested tables after them. */
  lemma {:induction false} StarFollowsFrom(db: Catalog, names: Names, s: Select, outer: Chain, inner: Scope,
                                           depth: int, refs: seq<ColumnRef>, i: nat, c: nat)
    requires s.from.Some? && SourceBuilds(db, names, s, outer, inner) && Listed(inner) && Expansion(inner, depth, refs)
    requires i < |FromTables(names, s)|
    ensures var p := FromTables(names, s)[i];
            && p.name in db
            && (c < |db[p.name].schema| ==>
                  var at := ColumnsOf(db, FromTables(names, s)[..i]) + c;
                  at < |refs| && refs[at] == CatalogRef(db[p.name], p.alias, c, depth))
  {
    SourceLists(db, names, s, outer, inner);
    StarAtPlace(db, inner, FromTables(names, s), depth, refs, i, c);
  }

  lemma {:induction false} StarAtPlace(
    db: Catalog, inner: Scope, ps: seq<Place>, depth: int, refs: seq<ColumnRef>, i: nat, c: nat)
    requires Listed(inner) && Expansion(inner, depth, refs) && inner.list == AliasesOf(ps) && i < |ps|
    requires forall p :: p in ps ==>
               p.name in db && p.alias in inner.regular && inner.regular[p.alias] == db[p.name]
    ensures ps[i].name in db
    ensures c < |db[ps[i].name].schema| ==>
              var at := ColumnsOf(db, ps[..i]) + c;
              at < |refs| && refs[at] == CatalogRef(db[ps[i].name], ps[i].alias, c, depth)
  {
    assert ps[i] in ps && inner.list[i] == ps[i].alias;
    if c < |db[ps[i].name].schema| {
      ListWidth(db, inner, ps, i);
      StarRegularAt(inner, depth, refs, i, c);
    }
  }

  lemma {:induction false} ListWidth(db: Catalog, inner: Scope, ps: seq<Place>, i: nat)
    requires i <= |ps| && inner.list == AliasesOf(ps)
    requires forall p :: p in ps ==>
               p.name in db && p.alias in inner.regular && inner.regular[p.alias] == db[p.name]
    ensures (forall a :: a in inner.list[..i] ==> a in inner.regular)
    ensures Width(inner, inner.list[..i]) == ColumnsOf(db, ps[..i])
  {
    WidthOfPlaces(db, inner, ps[..i]);
    assert inner.list[..i] == AliasesOf(ps[..i]);
  }

  lemma {:induction false} StarNestedAfterFrom(db: Catalog, names: Names, s: Select, outer: Chain, inner: Scope,
                                               depth: int, refs: seq<ColumnRef>, i: nat)
    requires s.from.Some? && SourceBuilds(db, names, s, outer, inner) && Listed(inner) && Expansion(inner, depth, refs)
    requires i < |refs|
    ensures if i < ColumnsOf(db, FromTables(names, s)) then refs[i].table in inner.regular
            else refs[i].table in inner.nested && refs[i].tableOid == INVALID_OID
  {
    var ps := FromTables(names, s);
    SourceLists(db, names, s, outer, inner);
    ListWidth(db, inner, ps, |ps|);
    assert ps[..|ps|] == ps && inner.list[..|ps|] == inner.list;
    StarRegularFirst(inner, depth, refs, i);
  }
}
