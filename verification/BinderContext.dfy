/** BinderContext of src/binder/binder_context.cpp: a scope with a pointer to the one
    around it. Its methods are proved against the scopes and rules of Scope and
    ColumnBinding. Where the original iterates an unordered map, the loop picks any
    remaining entry.
 */
module BinderContext {
  import opened Basics
  import opened SqlTypes
  import opened Scope
  import opened ColumnBinding

  /** ColumnValueExpression, as far as the binder writes to it. */
  class ColumnValueExpression {
    var tableName: string
    var columnName: string
    var databaseOid: nat
    var tableOid: nat
    var columnOid: nat
    var returnValueType: TypeId
    var depth: int

    function Value(): (e: ColumnRef)
      reads this
    {
      ColumnRef(tableName, columnName, databaseOid, tableOid, columnOid, returnValueType, depth)
    }

    constructor (e: ColumnRef)
      ensures Value() == e
    {
      tableName, columnName := e.table, e.column;
      databaseOid, tableOid, columnOid := e.db, e.tableOid, e.columnOid;
      returnValueType, depth := e.typ, e.depth;
    }

    /** The static BinderContext::SetColumnPosTuple */
    method SetColumnPosTuple(column: string, t: Table)
      requires ColumnInSchema(t.schema, column)
      modifies this
      ensures Value() == TakeRegular(t, column, old(Value()))
    {
      var c := GetColumn(t.schema, column);
      databaseOid, tableOid, columnOid := t.db, t.oid, c.oid;
      columnName, returnValueType := column, c.typ;
    }

    method SetNestedColumn(c: NestedColumn, table: string, column: string, newDepth: int)
      modifies this
      ensures Value() == TakeNested(c, table, column, old(Value())).(depth := newDepth)
    {
      returnValueType, tableName, columnName, depth := c.typ, table, column, newDepth;
      columnOid := MakeTempOid(SerialNo(c.alias));
    }
  }

  class BinderContext {
    var regularTableAliasMap: map<string, Table>
    var regularTableAliasList: seq<string>
    var nestedTableAliasMap: map<string, NestedTable>
    const upper: BinderContext?
    const depth: nat
    /** The scopes around this one, nearest first. */
    ghost const above: seq<BinderContext>

    ghost predicate Linked() {
      && depth == |above|
      && (upper == null <==> above == [])
      && (upper != null ==> upper == above[0])
      && forall i :: 0 <= i < |above| ==> LinkedAt(i)
    }

    /** Scope `i` of those around this one is where the pointers and depths say it is. */
    ghost predicate LinkedAt(i: nat)
      requires i < |above|
    {
      && above[i].depth == |above| - 1 - i
      && above[i].above == above[i + 1..]
      && above[i].upper == if i == |above| - 1 then null else above[i + 1]
    }

    function Here(): (s: Scope)
      reads this
    {
      Scope(regularTableAliasMap, regularTableAliasList, nestedTableAliasMap)
    }

    ghost function Scopes(): (chain: Chain)
      reads this, above
      ensures |chain| == 1 + |above| && chain[0] == Here()
    {
      seq(1 + |above|, i requires 0 <= i <= |above| reads this, above => At(i).Here())
    }

    constructor (upper: BinderContext?)
      requires upper != null ==> upper.Linked()
      ensures Linked() && this.upper == upper && Here() == EMPTY
      ensures depth == if upper == null then 0 else upper.depth + 1
      ensures above == if upper == null then [] else [upper] + upper.above
    {
      this.upper := upper;
      depth := if upper == null then 0 else upper.depth + 1;
      above := if upper == null then [] else [upper] + upper.above;
      regularTableAliasMap, regularTableAliasList, nestedTableAliasMap := map[], [], map[];
      new;
      forall i | 0 <= i < |above| ensures LinkedAt(i) {
        if i > 0 { assert upper.LinkedAt(i - 1); }
      }
    }

    // ---- Registering tables ----

    /** AddRegularTable, with the table that the catalog found. */
    method AddRegularTable(alias: string, table: Table) returns (r: Result<()>)
      modifies this
      ensures r.Ok? ==> AddRegular(old(Here()), alias, table) == Ok(Here())
      ensures r.Throw? ==> Here() == old(Here()) && AddRegular(Here(), alias, table) == Throw(r.error)
    {
      if alias in nestedTableAliasMap { return Throw(DuplicateAlias); }
      if alias in regularTableAliasMap { return Throw(DuplicateAlias); }
      regularTableAliasMap := regularTableAliasMap[alias := table];
      regularTableAliasList := regularTableAliasList + [alias];
      return Ok(());
    }

    /** AddNestedTable and AddNewTable, with the columns already named. */
    method AddNestedTable(alias: string, columns: seq<NestedColumn>) returns (r: Result<()>)
      modifies this
      ensures r.Ok? ==> exists t :: StoredAs(columns, t) && AddNested(old(Here()), alias, t) == Ok(Here())
      ensures r.Throw? ==> r.error == DuplicateAlias && Here() == old(Here()) && HasAlias(Here(), alias)
    {
      if alias in regularTableAliasMap || alias in nestedTableAliasMap { return Throw(DuplicateAlias); }
      var t := Store(columns);
      nestedTableAliasMap := nestedTableAliasMap[alias := t];
      return Ok(());
    }

    method AddCTETable(name: string, columns: seq<NestedColumn>) returns (r: Result<()>)
      modifies this
      ensures r.Ok? ==> exists t :: StoredAs(columns, t) && AddCte(old(Here()), name, t) == Ok(Here())
      ensures r.Throw? ==> r.error == DuplicateTable && Here() == old(Here()) && name in Here().nested
    {
      if name in nestedTableAliasMap { return Throw(DuplicateTable); }
      var t := Store(columns);
      nestedTableAliasMap := nestedTableAliasMap[name := t];
      return Ok(());
    }

    method AddCTETableAlias(cte: string, alias: string) returns (r: Result<()>)
      requires Linked() && this !in above
      modifies this
      ensures r.Ok? ==> AddCteAlias(old(Scopes()), cte, alias) == Ok(Here())
      ensures r.Throw? ==> Here() == old(Here()) && AddCteAlias(old(Scopes()), cte, alias) == Throw(r.error)
    {
      if cte == alias { return Ok(()); }
      if alias in regularTableAliasMap || alias in nestedTableAliasMap { return Throw(DuplicateAlias); }
      var owner := NestedOwner(cte);
      if owner == null { return Throw(UndefinedTable); }
      ScopeAt(NearestNestedAt(Scopes(), cte).value);
      nestedTableAliasMap := nestedTableAliasMap[alias := owner.nestedTableAliasMap[cte]];
      return Ok(());
    }

    // ---- Looking up columns ----

    /** The regular tables of this scope: binds to the first that has the column, and
        throws at the second. `e` is the reference as it came in. */
    method MatchRegular(expr: ColumnValueExpression, ghost e: ColumnRef) returns (r: Result<bool>, ghost hit: string)
      requires expr.Value() == e
      modifies expr
      ensures r == Ok(false) ==> expr.Value() == e && forall a :: FromRegular(a) !in Candidates(Here(), e.column)
      ensures r == Ok(true) ==>
                && FromRegular(hit) in Candidates(Here(), e.column)
                && (forall a :: FromRegular(a) in Candidates(Here(), e.column) ==> a == hit)
                && expr.Value() == TakeIn(Here(), FromRegular(hit), e)
      ensures r.Throw? ==> r.error == AmbiguousColumn && |Candidates(Here(), e.column)| > 1
    {
      var colName := Lower(expr.columnName);
      var found := false;
      hit := "";
      ghost var s := Here();
      var rest := regularTableAliasMap.Keys;
      while rest != {}
        invariant rest <= regularTableAliasMap.Keys && Here() == s
        invariant !found ==> expr.Value() == e
        invariant found ==> FromRegular(hit) in Candidates(s, e.column) && hit !in rest
        invariant found ==> expr.Value() == TakeIn(s, FromRegular(hit), e)
        invariant forall a :: FromRegular(a) in Candidates(s, e.column) && a !in rest ==> found && hit == a
      {
        var a :| a in rest;
        rest := rest - {a};
        if ColumnInSchema(regularTableAliasMap[a].schema, colName) {
          assert FromRegular(a) in Candidates(s, e.column);
          if found {
            TwoCandidates(Candidates(s, e.column), FromRegular(hit), FromRegular(a));
            return Throw(AmbiguousColumn), hit;
          }
          found, hit := true, a;
          expr.SetColumnPosTuple(colName, regularTableAliasMap[a]);
          expr.tableName := a;
        }
      }
      return Ok(found), hit;
    }

    /** One nested table of this scope, after some others. */
    method MatchTable(
      expr: ColumnValueExpression, a: string, name: string, ghost e: ColumnRef, found0: bool, ghost hit0: Candidate)
      returns (r: Result<bool>, ghost hit: Candidate)
      requires a in nestedTableAliasMap && name == e.column
      requires found0 ==> hit0 in Candidates(Here(), name) && (hit0.FromNested? ==> hit0.alias != a)
      requires !found0 ==> expr.Value() == e
      modifies expr
      ensures r.Ok? ==> forall i :: FromNested(a, i) in Candidates(Here(), name) ==> r.value && hit == FromNested(a, i)
      ensures r.Ok? && found0 ==> r.value && hit == hit0 && expr.Value() == old(expr.Value())
      ensures r == Ok(true) && !found0 ==>
                && hit.FromNested? && hit.alias == a && hit in Candidates(Here(), name)
                && expr.Value() == TakeIn(Here(), hit, e)
      ensures r == Ok(false) ==> expr.Value() == e
      ensures r.Throw? ==> r.error == AmbiguousColumn && |Candidates(Here(), name)| > 1
    {
      hit := hit0;
      ghost var s := Here();
      var t := nestedTableAliasMap[a];
      var entry, matches := FindNamed(t, name), CountNamed(t, name);
      if entry.None? { return Ok(found0), hit; }
      ghost var i, j := NamedPositions(t, name);
      assert FromNested(a, i) in Candidates(s, name) && FromNested(a, j) in Candidates(s, name);
      if found0 || matches != 1 {
        TwoCandidates(Candidates(s, name), if found0 then hit0 else FromNested(a, j), FromNested(a, i));
        return Throw(AmbiguousColumn), hit;
      }
      hit := FromNested(a, i);
      expr.SetNestedColumn(entry.value, a, Lower(name), expr.depth);
      return Ok(true), hit;
    }

    /** The nested tables of this scope, after the regular ones. */
    method MatchNested(
      expr: ColumnValueExpression, name: string, ghost e: ColumnRef, found0: bool, ghost hit0: Candidate)
      returns (r: Result<bool>, ghost hit: Candidate)
      requires name == e.column
      requires if found0 then
                 hit0.FromRegular? && hit0 in Candidates(Here(), name) && expr.Value() == TakeIn(Here(), hit0, e)
               else expr.Value() == e
      modifies expr
      ensures r == Ok(false) ==> !found0 && expr.Value() == e
      ensures r == Ok(false) ==> forall a, i :: FromNested(a, i) !in Candidates(Here(), name)
      ensures r == Ok(true) ==>
                && hit in Candidates(Here(), name) && (found0 ==> hit == hit0)
                && (forall a, i :: FromNested(a, i) in Candidates(Here(), name) ==> hit == FromNested(a, i))
                && (hit.FromRegular? ==> found0)
                && expr.Value() == TakeIn(Here(), hit, e)
      ensures r.Throw? ==> r.error == AmbiguousColumn && |Candidates(Here(), name)| > 1
    {
      r, hit := Ok(found0), hit0;
      ghost var s := Here();
      var rest := nestedTableAliasMap.Keys;
      while rest != {}
        invariant rest <= nestedTableAliasMap.Keys && Here() == s && r.Ok?
        invariant found0 ==> r.value && hit == hit0
        invariant !r.value ==> expr.Value() == e
        invariant r.value ==> hit in Candidates(s, name) && expr.Value() == TakeIn(s, hit, e)
        invariant r.value && hit.FromNested? ==> hit.alias !in rest
        invariant r.value && hit.FromRegular? ==> found0
        invariant forall a, i :: FromNested(a, i) in Candidates(s, name) && a !in rest ==>
                    r.value && hit == FromNested(a, i)
      {
        var a :| a in rest;
        rest := rest - {a};
        r, hit := MatchTable(expr, a, name, e, r.value, hit);
        if r.Throw? { return; }
      }
    }

    /** One round of the loop in SetColumnPosTuple: all tables of this scope. */
    method MatchHere(expr: ColumnValueExpression, ghost e: ColumnRef) returns (r: Result<bool>)
      requires expr.Value() == e
      modifies expr
      ensures Verdict(Candidates(Here(), e.column), r)
      ensures r == Ok(false) ==> expr.Value() == e
      ensures r == Ok(true) ==> forall c :: c in Candidates(Here(), e.column) ==> expr.Value() == TakeIn(Here(), c, e)
    {
      var name := expr.columnName;
      ghost var cs := Candidates(Here(), name);
      ghost var alias, hit;
      r, alias := MatchRegular(expr, e);
      if r.Throw? { return; }
      ghost var regular := r.value;
      r, hit := MatchNested(expr, name, e, r.value, FromRegular(alias));
      if r.Throw? { return; }
      assert Candidates(Here(), name) == cs;
      if r.value {
        assert forall c :: c in cs ==> c == hit;
        assert cs == {hit};
      } else {
        assert forall c :: c !in cs;
        assert cs == {};
      }
    }

    /** The scope as number `k` of a chain: it decides what the name means, or leaves that
        to the scopes further out. */
    method MatchAsScope(expr: ColumnValueExpression, ghost e: ColumnRef, ghost chain: Chain, ghost k: nat)
      returns (r: Result<bool>)
      requires expr.Value() == e && k < |chain| && chain[k] == Here() && depth == DepthOf(chain, k)
      requires SearchedTo(chain, e.column, k)
      modifies expr
      ensures r == Ok(false) ==> expr.Value() == e && SearchedTo(chain, e.column, k + 1)
      ensures r == Ok(true) ==> BindUnqualified(chain, e) == Ok(expr.Value())
      ensures r.Throw? ==> BindUnqualified(chain, e) == Throw(r.error)
    {
      SearchedNext(chain, e.column, k);
      r := MatchHere(expr, e);
      if r == Ok(false) { return; }
      ghost var c :| c in Candidates(chain[k], e.column);
      DecidedAt(chain, e, k, c);
      if r == Ok(true) { expr.depth := depth; }
    }

    /** The k-th scope of the chain. */
    lemma {:induction false} ScopeAt(k: nat)
      requires Linked() && k <= |above|
      ensures At(k) != null && At(k).Here() == Scopes()[k]
      ensures At(k).depth == DepthOf(Scopes(), k) && At(k).upper == At(k + 1)
    {
      assert k > 0 ==> LinkedAt(k - 1);
    }

    lemma {:induction false} UpperLinked()
      requires Linked() && upper != null
      ensures upper.Linked() && upper !in upper.above
    {
      assert LinkedAt(0);
      forall i | 0 <= i < |upper.above| ensures upper.LinkedAt(i) && upper.above[i] != upper { assert LinkedAt(i + 1); }
    }

    /** The scopes around the one around this are linked to it. */
    ghost predicate LinkedUpper() {
      upper != null ==> above == [upper] + upper.above
    }

    /** The chain of scopes is this one and the chain of the one around it. */
    lemma {:induction false} ScopesAround()
      requires Linked()
      ensures LinkedUpper()
      ensures Scopes() == [Here()] + if upper == null then [] else upper.Scopes()
    {
      if upper != null {
        assert LinkedAt(0);
        var outer, all := upper.Scopes(), Scopes();
        forall k | 0 <= k < |outer| ensures outer[k] == all[k + 1] {
          assert upper.At(k) == At(k + 1);
        }
        assert all == [all[0]] + all[1..] && all[1..] == outer;
      }
    }

    /** SetColumnPosTuple on an unqualified reference: true when it was bound, false when
        no scope has such a column. */
    method SetColumnPosTuple(expr: ColumnValueExpression) returns (r: Result<bool>)
      requires Linked()
      modifies expr
      ensures r == Ok(false) ==> BindUnqualified(Scopes(), old(expr.Value())) == Throw(UndefinedColumn)
      ensures r == Ok(true) ==> BindUnqualified(Scopes(), old(expr.Value())) == Ok(expr.Value())
      ensures r.Throw? ==> BindUnqualified(Scopes(), old(expr.Value())) == Throw(r.error)
    {
      ghost var e, chain, k := expr.Value(), Scopes(), 0;
      var current: BinderContext? := this;
      while current != null
        invariant 0 <= k <= |chain| && Scopes() == chain && current == At(k)
        invariant expr.Value() == e
        invariant SearchedTo(chain, e.column, k)
        decreases |chain| - k
      {
        ScopeAt(k);
        r := current.MatchAsScope(expr, e, chain, k);
        assert Scopes() == chain;
        if r != Ok(false) { return; }
        current, k := current.upper, k + 1;
      }
      NowhereKnown(chain, e);
      return Ok(false);
    }

    /** The innermost scope in which `alias` is a regular table. */
    method RegularOwner(alias: string) returns (owner: BinderContext?)
      requires Linked()
      ensures owner == Owner(NearestRegular(Scopes(), alias))
    {
      ghost var chain, k := Scopes(), 0;
      owner := this;
      while owner != null
        invariant 0 <= k <= |chain| && owner == At(k)
        invariant NoRegularBefore(chain, alias, k)
        decreases |chain| - k
      {
        ScopeAt(k);
        NearestRegularFrom(chain, alias, k);
        if alias in owner.regularTableAliasMap { return; }
        owner, k := owner.upper, k + 1;
      }
      NearestRegularFrom(chain, alias, k);
    }

    /** The innermost scope in which `alias` is a nested table. */
    method NestedOwner(alias: string) returns (owner: BinderContext?)
      requires Linked()
      ensures owner == Owner(NearestNestedAt(Scopes(), alias))
    {
      ghost var chain, k := Scopes(), 0;
      owner := this;
      while owner != null
        invariant 0 <= k <= |chain| && owner == At(k)
        invariant NoNestedBefore(chain, alias, k)
        decreases |chain| - k
      {
        ScopeAt(k);
        NearestNestedFrom(chain, alias, k);
        if alias in owner.nestedTableAliasMap { return; }
        owner, k := owner.upper, k + 1;
      }
      NearestNestedFrom(chain, alias, k);
    }

    /** GetRegularTableObj */
    method GetRegularTableObj(alias: string, expr: ColumnValueExpression) returns (table: Option<Table>)
      requires Linked()
      modifies expr
      ensures var k := NearestRegular(Scopes(), alias);
              if k.None? then table.None? && expr.Value() == old(expr.Value())
              else
                && table == Some(Scopes()[k.value].regular[alias])
                && expr.Value() == old(expr.Value()).(depth := DepthOf(Scopes(), k.value))
    {
      ghost var chain := Scopes();
      var owner := RegularOwner(alias);
      if owner == null { return None; }
      ScopeAt(NearestRegular(chain, alias).value);
      table := Some(owner.regularTableAliasMap[alias]);
      expr.depth := owner.depth;
      assert Scopes() == chain;
    }

    /** CheckNestedTableColumn */
    method CheckNestedTableColumn(alias: string, column: string, expr: ColumnValueExpression) returns (r: Result<bool>)
      requires Linked()
      modifies expr
      ensures var k := NearestNestedAt(Scopes(), alias);
              if k.None? then r == Ok(false) && expr.Value() == old(expr.Value())
              else
                var c := FindNamed(Scopes()[k.value].nested[alias], column);
                if c.None? then r == Throw(UndefinedColumn)
                else
                  && r == Ok(true)
                  && expr.Value() ==
                     TakeNested(c.value, alias, column, old(expr.Value())).(depth := DepthOf(Scopes(), k.value))
    {
      var owner := NestedOwner(alias);
      if owner == null { return Ok(false); }
      ScopeAt(NearestNestedAt(Scopes(), alias).value);
      var c := FindNamed(owner.nestedTableAliasMap[alias], column);
      if c.None? { return Throw(UndefinedColumn); }
      expr.SetNestedColumn(c.value, alias, column, owner.depth);
      return Ok(true);
    }

    ghost function Owner(k: Option<nat>): (c: BinderContext?)
      requires k.Some? ==> k.value <= |above|
    {
      if k.None? then null else At(k.value)
    }

    /** The k-th scope from here outwards, null after the last. */
    ghost function At(k: nat): (c: BinderContext?)
      requires k <= |above| + 1
    {
      if k == 0 then this else if k <= |above| then above[k - 1] else null
    }
  }

  /** One candidate binds, none leaves the search going on, several are ambiguous. */
  ghost predicate Verdict(cs: set<Candidate>, r: Result<bool>) {
    r == if cs == {} then Ok(false) else if |cs| == 1 then Ok(true) else Throw(AmbiguousColumn)
  }

  lemma {:induction false} TwoCandidates(cs: set<Candidate>, c: Candidate, d: Candidate)
    requires c in cs && d in cs && c != d
    ensures |cs| > 1
  {
    assert {c, d} <= cs;
    assert |cs - {c, d}| == |cs| - 2;
  }

  /** std::count_if with the alias of that name */
  function CountNamed(t: NestedTable, name: string): (n: nat) {
    if t == [] then 0 else CountNamed(t[1..], name) + if t[0].alias.name == name then 1 else 0
  }

  /** Where a name stands in a table: at `i` first and, if not only there, at `j` too. */
  lemma {:induction false} NamedPositions(t: NestedTable, name: string) returns (i: nat, j: nat)
    requires FindNamed(t, name).Some?
    ensures i < |t| && t[i] == FindNamed(t, name).value && j < |t| && t[j].alias.name == name
    ensures CountNamed(t, name) == 1 <==> i == j
    ensures CountNamed(t, name) == 1 ==> forall m :: 0 <= m < |t| && t[m].alias.name == name ==> m == i
    ensures CountNamed(t, name) > 0
    decreases |t|
  {
    if t[0].alias.name != name {
      i, j := NamedPositions(t[1..], name);
      i, j := i + 1, j + 1;
      assert forall m :: 0 < m < |t| ==> t[m] == t[1..][m - 1];
    } else if FindNamed(t[1..], name).None? {
      i, j := 0, 0;
      NoneNamed(t[1..], name);
      assert forall m :: 0 < m < |t| ==> t[m] == t[1..][m - 1];
    } else {
      i, j := NamedPositions(t[1..], name);
      i, j := 0, j + 1;
    }
  }

  lemma {:induction false} NoneNamed(t: NestedTable, name: string)
    requires FindNamed(t, name).None?
    ensures CountNamed(t, name) == 0
    decreases |t|
  {
    if t != [] { NoneNamed(t[1..], name); }
  }

  // ---- Storing the columns of a nested table ----

  ghost predicate Named(s: seq<NestedColumn>, name: string) {
    exists i :: 0 <= i < |s| && s[i].alias.name == name
  }

  ghost predicate NamedTyped(s: seq<NestedColumn>, name: string, typ: TypeId) {
    exists i :: 0 <= i < |s| && s[i].alias.name == name && s[i].typ == typ
  }

  /** `t` is what an unordered map holds, in some order, after the columns were assigned
      to it one by one: no name is lost, every type belongs to a column of that name,
      and if all keys differ, exactly the columns are there. */
  ghost predicate StoredAs(columns: seq<NestedColumn>, t: NestedTable) {
    && KeysDistinct(t)
    && (forall n :: Named(t, n) <==> Named(columns, n))
    && (forall n, ty :: NamedTyped(t, n, ty) ==> NamedTyped(columns, n, ty))
    && (KeysDistinct(columns) ==> multiset(t) == multiset(columns))
  }

  method Store(columns: seq<NestedColumn>) returns (t: NestedTable)
    ensures StoredAs(columns, t)
  {
    t := [];
    for i := 0 to |columns|
      invariant StoredAs(columns[..i], t)
    {
      assert columns[..i + 1] == columns[..i] + [columns[i]];
      t := Assign(columns[..i], t, columns[i]);
    }
    assert columns[..|columns|] == columns;
  }

  /** map[alias] = type: overwrites an entry with an equal key, or adds one somewhere. */
  method Assign(ghost before: seq<NestedColumn>, t: NestedTable, c: NestedColumn) returns (t': NestedTable)
    requires StoredAs(before, t)
    ensures StoredAs(before + [c], t')
  {
    var i := 0;
    while i < |t| && !SameAlias(t[i].alias, c.alias)
      invariant 0 <= i <= |t|
      invariant forall j :: 0 <= j < i ==> !SameAlias(t[j].alias, c.alias)
    {
      i := i + 1;
    }
    if i < |t| {
      Overwritten(before, t, c, i);
      return t[i := NestedColumn(t[i].alias, c.typ)];
    } else {
      var at :| 0 <= at <= |t|;
      Inserted(before, t, c, at);
      return t[..at] + [c] + t[at..];
    }
  }

  lemma {:induction false} NamedAppend(s: seq<NestedColumn>, c: NestedColumn, n: string, ty: TypeId)
    ensures Named(s + [c], n) <==> Named(s, n) || c.alias.name == n
    ensures NamedTyped(s + [c], n, ty) <==> NamedTyped(s, n, ty) || (c.alias.name == n && c.typ == ty)
  {
    var s' := s + [c];
    assert s'[|s|] == c && forall i :: 0 <= i < |s| ==> s'[i] == s[i];
  }

  lemma {:induction false} DistinctAppend(s: seq<NestedColumn>, c: NestedColumn)
    requires KeysDistinct(s + [c])
    ensures KeysDistinct(s) && forall d :: d in s ==> !SameAlias(d.alias, c.alias)
  {
    var s' := s + [c];
    assert s'[|s|] == c && forall i :: 0 <= i < |s| ==> s'[i] == s[i];
  }

  lemma {:induction false} NotDistinct(before: seq<NestedColumn>, t: NestedTable, c: NestedColumn, i: nat)
    requires StoredAs(before, t) && i < |t| && SameAlias(t[i].alias, c.alias)
    ensures !KeysDistinct(before + [c])
  {
    var all := before + [c];
    if KeysDistinct(before) {
      assert t[i] in multiset(t);
      var j :| 0 <= j < |before| && before[j] == t[i];
      assert SameAlias(all[j].alias, all[|before|].alias);
    } else {
      var j, k :| 0 <= j < k < |before| && SameAlias(before[j].alias, before[k].alias);
      assert SameAlias(all[j].alias, all[k].alias);
    }
  }

  lemma {:induction false} Overwritten(before: seq<NestedColumn>, t: NestedTable, c: NestedColumn, i: nat)
    requires StoredAs(before, t) && i < |t| && SameAlias(t[i].alias, c.alias)
    ensures StoredAs(before + [c], t[i := NestedColumn(t[i].alias, c.typ)])
  {
    var t' := t[i := NestedColumn(t[i].alias, c.typ)];
    assert forall j :: 0 <= j < |t| ==> t'[j].alias == t[j].alias;
    forall n ensures Named(t', n) <==> Named(before + [c], n) {
      NamedAppend(before, c, n, INVALID);
      assert Named(t', n) <==> Named(t, n);
      assert c.alias.name == n ==> Named(t, n);
    }
    forall n, ty | NamedTyped(t', n, ty) ensures NamedTyped(before + [c], n, ty) {
      NamedAppend(before, c, n, ty);
      var j :| 0 <= j < |t'| && t'[j].alias.name == n && t'[j].typ == ty;
      if j != i { assert NamedTyped(t, n, ty); }
    }
    NotDistinct(before, t, c, i);
  }

  /** `t'` is `t` with `c` at position `at`. */
  ghost predicate InsertedAt(t: NestedTable, c: NestedColumn, at: nat, t': NestedTable) {
    && at <= |t| && |t'| == |t| + 1 && t'[at] == c
    && (forall j :: 0 <= j < at ==> t'[j] == t[j])
    && (forall j :: at < j < |t'| ==> t'[j] == t[j - 1])
    && (forall j :: at <= j < |t| ==> t[j] == t'[j + 1])
  }

  lemma {:induction false} InsertedNames(
    t: NestedTable, c: NestedColumn, at: nat, t': NestedTable, n: string, ty: TypeId)
    requires InsertedAt(t, c, at, t')
    ensures Named(t', n) <==> Named(t, n) || c.alias.name == n
    ensures NamedTyped(t', n, ty) ==> NamedTyped(t, n, ty) || (c.alias.name == n && c.typ == ty)
  {
  }

  lemma {:induction false} InsertedKeys(t: NestedTable, c: NestedColumn, at: nat, t': NestedTable)
    requires InsertedAt(t, c, at, t') && KeysDistinct(t)
    requires forall j :: 0 <= j < |t| ==> !SameAlias(t[j].alias, c.alias)
    ensures KeysDistinct(t')
  {
  }

  lemma {:induction false} Inserted(before: seq<NestedColumn>, t: NestedTable, c: NestedColumn, at: nat)
    requires StoredAs(before, t) && at <= |t| && forall j :: 0 <= j < |t| ==> !SameAlias(t[j].alias, c.alias)
    ensures StoredAs(before + [c], t[..at] + [c] + t[at..])
  {
    var t' := t[..at] + [c] + t[at..];
    InsertedKeys(t, c, at, t');
    forall n ensures Named(t', n) <==> Named(before + [c], n) {
      NamedAppend(before, c, n, INVALID);
      InsertedNames(t, c, at, t', n, INVALID);
    }
    forall n, ty | NamedTyped(t', n, ty) ensures NamedTyped(before + [c], n, ty) {
      NamedAppend(before, c, n, ty);
      InsertedNames(t, c, at, t', n, ty);
    }
    if KeysDistinct(before + [c]) {
      DistinctAppend(before, c);
      assert t == t[..at] + t[at..];
      assert multiset(t') == multiset(t) + multiset{c};
    }
  }
}
