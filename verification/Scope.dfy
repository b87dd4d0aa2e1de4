/** The scopes of src/binder/binder_context.cpp as values: what each way of
    registering a table does to a scope, and what holds of every scope that the
    binder can build.
 */
module Scope {
  import opened Basics
  import opened SqlTypes

  /** The fields of a BinderContext. `list` has the regular aliases in order of entry. */
  datatype Scope = Scope(regular: map<string, Table>, list: seq<string>, nested: map<string, NestedTable>)

  const EMPTY: Scope := Scope(map[], [], map[])

  /** A scope and those around it, innermost first. */
  type Chain = seq<Scope>

  /** The depth of scope `k` of a chain: 0 for the outermost. */
  function DepthOf(chain: Chain, k: nat): (d: int)
    requires k < |chain|
  {
    |chain| - 1 - k
  }

  predicate HasAlias(s: Scope, alias: string) {
    alias in s.regular || alias in s.nested
  }

  // ---- Registering tables ----

  /** AddRegularTable, once the catalog has found the table. */
  function AddRegular(s: Scope, alias: string, table: Table): (r: Result<Scope>) {
    if HasAlias(s, alias) then Throw(DuplicateAlias)
    else Ok(s.(regular := s.regular[alias := table], list := s.list + [alias]))
  }

  /** AddNestedTable and AddNewTable, with the columns as they are stored. */
  function AddNested(s: Scope, alias: string, table: NestedTable): (r: Result<Scope>) {
    if HasAlias(s, alias) then Throw(DuplicateAlias)
    else Ok(s.(nested := s.nested[alias := table]))
  }

  /** AddCTETable: only the nested aliases are looked at. */
  function AddCte(s: Scope, name: string, table: NestedTable): (r: Result<Scope>) {
    if name in s.nested then Throw(DuplicateTable)
    else Ok(s.(nested := s.nested[name := table]))
  }

  function Outward(r: Option<nat>, k: nat): (r': Option<nat>) {
    if r.None? then None else Some(r.value + k)
  }

  /** The innermost scope where `alias` is a nested table. */
  function NearestNestedAt(chain: Chain, alias: string): (r: Option<nat>)
    ensures r.Some? ==> r.value < |chain| && alias in chain[r.value].nested
    decreases |chain|
  {
    if chain == [] then None
    else if alias in chain[0].nested then Some(0)
    else Outward(NearestNestedAt(chain[1..], alias), 1)
  }

  ghost predicate NoNestedBefore(chain: Chain, alias: string, k: nat)
    requires k <= |chain|
  {
    forall j :: 0 <= j < k ==> alias !in chain[j].nested
  }

  lemma {:induction false} NearestNestedIsFirst(chain: Chain, alias: string)
    ensures var r := NearestNestedAt(chain, alias);
            NoNestedBefore(chain, alias, if r.Some? then r.value else |chain|)
    decreases |chain|
  {
    if chain != [] && alias !in chain[0].nested { NearestNestedIsFirst(chain[1..], alias); }
  }

  lemma {:induction false} NearestNestedFrom(chain: Chain, alias: string, k: nat)
    requires k <= |chain| && NoNestedBefore(chain, alias, k)
    ensures k < |chain| && alias in chain[k].nested ==> NearestNestedAt(chain, alias) == Some(k)
    ensures k < |chain| && alias !in chain[k].nested ==> NoNestedBefore(chain, alias, k + 1)
    ensures k == |chain| ==> NearestNestedAt(chain, alias).None?
  {
    NearestNestedIsFirst(chain, alias);
  }

  /** AddCTETableAlias on the innermost scope. */
  function AddCteAlias(chain: Chain, cte: string, alias: string): (r: Result<Scope>)
    requires chain != []
  {
    if cte == alias then Ok(chain[0])
    else if HasAlias(chain[0], alias) then Throw(DuplicateAlias)
    else
      var k := NearestNestedAt(chain, cte);
      if k.None? then Throw(UndefinedTable)
      else Ok(chain[0].(nested := chain[0].nested[alias := chain[k.value].nested[cte]]))
  }

  // ---- What every scope satisfies ----

  /** The alias list enumerates the regular aliases without repetition. */
  ghost predicate Listed(s: Scope) {
    && (forall a :: a in s.list <==> a in s.regular)
    && (forall i, j :: 0 <= i < j < |s.list| ==> s.list[i] != s.list[j])
  }

  ghost predicate Disjoint(s: Scope) {
    s.regular.Keys !! s.nested.Keys
  }

  /** Table oids come from the catalog, which never hands out the invalid one. */
  ghost predicate ValidOids(s: Scope) {
    forall a :: a in s.regular ==> s.regular[a].oid != INVALID_OID
  }

  datatype Registration =
    | Regular(alias: string, table: Table)
    | Nested(alias: string, nested: NestedTable)
    | Cte(alias: string, nested: NestedTable)
    | CteAlias(cte: string, alias: string)

  /** One registration in the innermost scope of a chain, whose outer part is `outer`. */
  function Register(s: Scope, outer: Chain, r: Registration): (s': Result<Scope>) {
    match r
    case Regular(alias, table) => AddRegular(s, alias, table)
    case Nested(alias, table) => AddNested(s, alias, table)
    case Cte(alias, table) => AddCte(s, alias, table)
    case CteAlias(cte, alias) => AddCteAlias([s] + outer, cte, alias)
  }

  /** A run of registrations, up to the first exception. */
  function RegisterAll(s: Scope, outer: Chain, rs: seq<Registration>): (s': Result<Scope>)
    decreases |rs|
  {
    if rs == [] then Ok(s)
    else
      var next := Register(s, outer, rs[0]);
      if next.Throw? then next else RegisterAll(next.value, outer, rs[1..])
  }

  lemma {:induction false} RegisterKeepsListed(s: Scope, outer: Chain, r: Registration)
    requires Listed(s) && Register(s, outer, r).Ok?
    ensures Listed(Register(s, outer, r).value)
  {
  }

  /** Registering keeps the two kinds of aliases apart unless it is a CTE that has the
      name of a regular table of the scope. */
  lemma {:induction false} RegisterKeepsDisjoint(s: Scope, outer: Chain, r: Registration)
    requires Disjoint(s) && Register(s, outer, r).Ok?
    ensures Disjoint(Register(s, outer, r).value) <==> !(r.Cte? && r.alias in s.regular)
  {
    if r.Cte? && r.alias in s.regular {
      assert r.alias in Register(s, outer, r).value.nested.Keys;
    }
  }

  /** In every scope that can be built the list enumerates the regular aliases. */
  lemma {:induction false} AlwaysListed(s: Scope, outer: Chain, rs: seq<Registration>)
    requires Listed(s) && RegisterAll(s, outer, rs).Ok?
    ensures Listed(RegisterAll(s, outer, rs).value)
    decreases |rs|
  {
    if rs != [] {
      RegisterKeepsListed(s, outer, rs[0]);
      AlwaysListed(Register(s, outer, rs[0]).value, outer, rs[1..]);
    }
  }

  lemma {:induction false} CtesKeepNoRegular(s: Scope, outer: Chain, ctes: seq<Registration>)
    requires s.regular == map[] && RegisterAll(s, outer, ctes).Ok?
    requires forall i :: 0 <= i < |ctes| ==> ctes[i].Cte?
    ensures RegisterAll(s, outer, ctes).value.regular == map[]
    decreases |ctes|
  {
    if ctes != [] { CtesKeepNoRegular(Register(s, outer, ctes[0]).value, outer, ctes[1..]); }
  }

  lemma {:induction false} FromKeepsDisjoint(s: Scope, outer: Chain, rs: seq<Registration>)
    requires Disjoint(s) && RegisterAll(s, outer, rs).Ok?
    requires forall i :: 0 <= i < |rs| ==> !rs[i].Cte?
    ensures Disjoint(RegisterAll(s, outer, rs).value)
    decreases |rs|
  {
    if rs != [] {
      RegisterKeepsDisjoint(s, outer, rs[0]);
      FromKeepsDisjoint(Register(s, outer, rs[0]).value, outer, rs[1..]);
    }
  }

  lemma {:induction false} RegisterAllConcat(s: Scope, outer: Chain, u: seq<Registration>, v: seq<Registration>)
    ensures RegisterAll(s, outer, u + v) ==
            if RegisterAll(s, outer, u).Throw? then RegisterAll(s, outer, u)
            else RegisterAll(RegisterAll(s, outer, u).value, outer, v)
    decreases |u|
  {
    if u == [] {
      assert u + v == v;
    } else {
      assert (u + v)[1..] == u[1..] + v;
      if Register(s, outer, u[0]).Ok? { RegisterAllConcat(Register(s, outer, u[0]).value, outer, u[1..], v); }
    }
  }

  /** All WITH entries before all FROM tables, as Visit(SelectStatement) does it: no
      alias is ever regular and nested at once. */
  lemma {:induction false} SelectOrderIsDisjoint(outer: Chain, ctes: seq<Registration>, from: seq<Registration>)
    requires forall i :: 0 <= i < |ctes| ==> ctes[i].Cte?
    requires forall i :: 0 <= i < |from| ==> !from[i].Cte?
    requires RegisterAll(EMPTY, outer, ctes + from).Ok?
    ensures Disjoint(RegisterAll(EMPTY, outer, ctes + from).value)
  {
    RegisterAllConcat(EMPTY, outer, ctes, from);
    CtesKeepNoRegular(EMPTY, outer, ctes);
    FromKeepsDisjoint(RegisterAll(EMPTY, outer, ctes).value, outer, from);
  }

  /** In the other order the same name can become both. */
  lemma {:induction false} OtherOrderCollides(name: string, table: Table, nested: NestedTable)
    ensures var r := RegisterAll(EMPTY, [], [Regular(name, table), Cte(name, nested)]);
            r.Ok? && !Disjoint(r.value)
  {
    var r1, r2 := Regular(name, table), Cte(name, nested);
    var s1 := AddRegular(EMPTY, name, table).value;
    var s2 := AddCte(s1, name, nested).value;
    assert [r1, r2][1..] == [r2] && [r2][1..] == [];
    assert RegisterAll(s1, [], [r2]) == RegisterAll(s2, [], []) == Ok(s2);
    assert name in s2.regular.Keys && name in s2.nested.Keys;
  }

  /** What holds of a scope once its tables are registered. */
  ghost predicate Sound(s: Scope) {
    Listed(s) && Disjoint(s)
  }

  /** Naming a nested table once more keeps a scope sound. */
  lemma {:induction false} SoundAlias(s: Scope, s': Scope, alias: string)
    requires Sound(s) && s'.regular == s.regular && s'.list == s.list
    requires s'.nested == s.nested || (alias !in s.regular && s'.nested.Keys == s.nested.Keys + {alias})
    ensures Sound(s')
  {
  }
}
