/** What a column reference means in a chain of scopes: the resolution rules of
    src/binder/binder_context.cpp and Visit(ColumnValueExpression) of
    src/binder/bind_node_visitor.cpp, stated without any order of search inside a
    scope, and what follows from them.
 */
module ColumnBinding {
  import opened Basics
  import opened SqlTypes
  import opened Scope

  // ---- Unqualified names ----

  /** A column that an unqualified name can mean: one of a regular table, or an entry of
      a nested table. */
  datatype Candidate = FromRegular(alias: string) | FromNested(alias: string, index: nat)

  /** All candidates in one scope. Regular tables are asked for the lower-cased name,
      nested tables for the name as written. */
  ghost function Candidates(s: Scope, name: string): (cs: set<Candidate>) {
    (set a | a in s.regular && ColumnInSchema(s.regular[a].schema, Lower(name)) :: FromRegular(a)) +
    (set a, i | a in s.nested && 0 <= i < |s.nested[a]| && s.nested[a][i].alias.name == name :: FromNested(a, i))
  }

  ghost predicate Knows(s: Scope, name: string) {
    Candidates(s, name) != {}
  }

  /** The innermost scope with a candidate. */
  ghost function Innermost(chain: Chain, name: string): (r: Option<nat>)
    ensures r.Some? ==> r.value < |chain| && Knows(chain[r.value], name)
    decreases |chain|
  {
    if chain == [] then None
    else if Knows(chain[0], name) then Some(0)
    else Outward(Innermost(chain[1..], name), 1)
  }

  /** The first `k` scopes have no candidate. */
  ghost predicate SearchedTo(chain: Chain, name: string, k: nat)
    requires k <= |chain|
  {
    forall j :: 0 <= j < k ==> !Knows(chain[j], name)
  }

  lemma {:induction false} SearchedNext(chain: Chain, name: string, k: nat)
    requires k < |chain| && SearchedTo(chain, name, k)
    ensures Knows(chain[k], name) ==> Innermost(chain, name) == Some(k)
    ensures !Knows(chain[k], name) ==> SearchedTo(chain, name, k + 1)
  {
    if Innermost(chain, name).None? || Innermost(chain, name).value > k { InnermostIsFirst(chain, name, k); }
  }

  lemma {:induction false} InnermostIsFirst(chain: Chain, name: string, j: nat)
    requires j < |chain| && (Innermost(chain, name).Some? ==> j < Innermost(chain, name).value)
    ensures !Knows(chain[j], name)
    decreases |chain|
  {
    if j > 0 { InnermostIsFirst(chain[1..], name, j - 1); }
  }

  /** The reference with what a candidate says about it. */
  ghost function TakeIn(s: Scope, c: Candidate, e: ColumnRef): (r: ColumnRef)
    requires c in Candidates(s, e.column)
  {
    match c
    case FromRegular(a) => TakeRegular(s.regular[a], Lower(e.column), e).(table := a)
    case FromNested(a, i) => TakeNested(s.nested[a][i], a, Lower(e.column), e)
  }

  /** The reference after it was bound to a candidate of scope `k`. */
  ghost function Take(chain: Chain, k: nat, c: Candidate, e: ColumnRef): (r: ColumnRef)
    requires k < |chain| && c in Candidates(chain[k], e.column)
  {
    TakeIn(chain[k], c, e).(depth := DepthOf(chain, k))
  }

  /** The static SetColumnPosTuple */
  function TakeRegular(t: Table, column: string, e: ColumnRef): (r: ColumnRef)
    requires ColumnInSchema(t.schema, column)
  {
    var c := GetColumn(t.schema, column);
    e.(db := t.db, tableOid := t.oid, columnOid := c.oid, column := column, typ := c.typ)
  }

  function TakeNested(c: NestedColumn, table: string, column: string, e: ColumnRef): (r: ColumnRef) {
    e.(typ := c.typ, table := table, column := column, columnOid := MakeTempOid(SerialNo(c.alias)))
  }

  ghost function BindUnqualified(chain: Chain, e: ColumnRef): (r: Result<ColumnRef>) {
    var k := Innermost(chain, e.column);
    if k.None? then Throw(UndefinedColumn)
    else
      var cs := Candidates(chain[k.value], e.column);
      if |cs| == 1 then var c :| c in cs; Ok(Take(chain, k.value, c, e)) else Throw(AmbiguousColumn)
  }

  /** The innermost scope with a candidate decides: with one candidate the name is bound
      to it, with several it is ambiguous. */
  lemma {:induction false} DecidedAt(chain: Chain, e: ColumnRef, k: nat, c: Candidate)
    requires Innermost(chain, e.column) == Some(k) && c in Candidates(chain[k], e.column)
    ensures BindUnqualified(chain, e) ==
            if |Candidates(chain[k], e.column)| == 1 then Ok(Take(chain, k, c, e)) else Throw(AmbiguousColumn)
  {
    var cs := Candidates(chain[k], e.column);
    if |cs| == 1 {
      var d :| d in cs && BindUnqualified(chain, e) == Ok(Take(chain, k, d, e));
      OneCandidate(cs, c, d);
    }
  }

  lemma {:induction false} NowhereKnown(chain: Chain, e: ColumnRef)
    requires SearchedTo(chain, e.column, |chain|)
    ensures BindUnqualified(chain, e) == Throw(UndefinedColumn)
  {
  }

  // ---- Qualified names ----

  /** The innermost scope where `alias` is a regular table. */
  function NearestRegular(chain: Chain, alias: string): (r: Option<nat>)
    ensures r.Some? ==> r.value < |chain| && alias in chain[r.value].regular
    decreases |chain|
  {
    if chain == [] then None
    else if alias in chain[0].regular then Some(0)
    else Outward(NearestRegular(chain[1..], alias), 1)
  }

  ghost predicate NoRegularBefore(chain: Chain, alias: string, k: nat)
    requires k <= |chain|
  {
    forall j :: 0 <= j < k ==> alias !in chain[j].regular
  }

  lemma {:induction false} NearestRegularIsFirst(chain: Chain, alias: string)
    ensures var r := NearestRegular(chain, alias);
            NoRegularBefore(chain, alias, if r.Some? then r.value else |chain|)
    decreases |chain|
  {
    if chain != [] && alias !in chain[0].regular { NearestRegularIsFirst(chain[1..], alias); }
  }

  lemma {:induction false} NearestRegularFrom(chain: Chain, alias: string, k: nat)
    requires k <= |chain| && NoRegularBefore(chain, alias, k)
    ensures k < |chain| && alias in chain[k].regular ==> NearestRegular(chain, alias) == Some(k)
    ensures k < |chain| && alias !in chain[k].regular ==> NoRegularBefore(chain, alias, k + 1)
    ensures k == |chain| ==> NearestRegular(chain, alias).None?
  {
    NearestRegularIsFirst(chain, alias);
  }

  /** All scopes are searched for a regular table first, and only then for a nested one. */
  function BindQualified(chain: Chain, e: ColumnRef, table: string, column: string): (r: Result<ColumnRef>) {
    var k := NearestRegular(chain, table);
    if k.Some? then
      var t := chain[k.value].regular[table];
      if ColumnInSchema(t.schema, column)
      then Ok(TakeRegular(t, column, e).(depth := DepthOf(chain, k.value)))
      else Throw(UndefinedColumn)
    else
      var n := NearestNestedAt(chain, table);
      if n.None? then Throw(UndefinedTable)
      else
        var c := FindNamed(chain[n.value].nested[table], column);
        if c.None? then Throw(UndefinedColumn)
        else Ok(TakeNested(c.value, table, column, e).(depth := DepthOf(chain, n.value)))
  }

  /** Visit(ColumnValueExpression), without its last three lines. */
  ghost function Bind(chain: Chain, e: ColumnRef): (r: Result<ColumnRef>) {
    if e.tableOid != INVALID_OID then Ok(e)
    else if e.table == "" && e.column == "" && e.columnOid != INVALID_OID then Throw(UndefinedColumn)
    else if e.table == "" then BindUnqualified(chain, e)
    else BindQualified(chain, e, Lower(e.table), Lower(e.column))
  }

  // ---- What a name means, spelled out ----

  /** No table of the scope has the column. */
  ghost predicate Silent(s: Scope, name: string) {
    && (forall a, i :: a in s.regular && 0 <= i < |s.regular[a].schema| ==> s.regular[a].schema[i].name != Lower(name))
    && (forall a, i :: a in s.nested && 0 <= i < |s.nested[a]| ==> s.nested[a][i].alias.name != name)
  }

  /** Of all tables of the scope only the regular table `a` has the column, and column
      `i` is the first of that name. */
  ghost predicate OnlyRegular(s: Scope, name: string, a: string, i: nat) {
    && a in s.regular && FirstNamed(s.regular[a].schema, Lower(name), i)
    && Silent(s.(regular := s.regular - {a}), name)
  }

  predicate FirstNamed(schema: Schema, name: string, i: nat) {
    i < |schema| && schema[i].name == name && forall j :: 0 <= j < i ==> schema[j].name != name
  }

  /** Of all tables of the scope only the nested table `a` has the column, once. */
  ghost predicate OnlyNested(s: Scope, name: string, a: string, i: nat) {
    && a in s.nested && i < |s.nested[a]| && s.nested[a][i].alias.name == name
    && (forall j :: 0 <= j < |s.nested[a]| && j != i ==> s.nested[a][j].alias.name != name)
    && Silent(s.(nested := s.nested - {a}), name)
  }

  ghost predicate SilentTo(chain: Chain, name: string, k: nat)
    requires k <= |chain|
  {
    forall j :: 0 <= j < k ==> Silent(chain[j], name)
  }

  lemma {:induction false} SilentIff(s: Scope, name: string)
    ensures Silent(s, name) <==> !Knows(s, name)
  {
    if Silent(s, name) {
      forall c ensures c !in Candidates(s, name) {}
    } else if !Knows(s, name) {
      forall a | a in s.regular ensures !ColumnInSchema(s.regular[a].schema, Lower(name)) {
        assert FromRegular(a) !in Candidates(s, name);
      }
      forall a, i: nat | a in s.nested && i < |s.nested[a]| ensures s.nested[a][i].alias.name != name {
        assert FromNested(a, i) !in Candidates(s, name);
      }
      assert Silent(s, name);
    }
  }

  lemma {:induction false} SilentIsSearched(chain: Chain, name: string, k: nat)
    requires k <= |chain|
    ensures SilentTo(chain, name, k) <==> SearchedTo(chain, name, k)
  {
    forall j | 0 <= j < k ensures Silent(chain[j], name) <==> !Knows(chain[j], name) { SilentIff(chain[j], name); }
  }

  lemma {:induction false} FirstIsGet(schema: Schema, name: string, i: nat)
    requires FirstNamed(schema, name, i)
    ensures ColumnInSchema(schema, name) && GetColumn(schema, name) == schema[i]
  {
    var k := GetColumnIsFirst(schema, name);
  }

  lemma {:induction false} OnlyRegularCandidate(s: Scope, name: string, a: string, i: nat)
    requires OnlyRegular(s, name, a, i)
    ensures Candidates(s, name) == {FromRegular(a)}
  {
    var rest := s.(regular := s.regular - {a});
    FirstIsGet(s.regular[a].schema, Lower(name), i);
    assert FromRegular(a) in Candidates(s, name);
    assert Candidates(s, name) <= Candidates(rest, name) + {FromRegular(a)};
    SilentIff(rest, name);
  }

  lemma {:induction false} OnlyNestedCandidate(s: Scope, name: string, a: string, i: nat)
    requires OnlyNested(s, name, a, i)
    ensures Candidates(s, name) == {FromNested(a, i)}
  {
    var rest := s.(nested := s.nested - {a});
    assert FromNested(a, i) in Candidates(s, name);
    assert Candidates(s, name) <= Candidates(rest, name) + {FromNested(a, i)};
    SilentIff(rest, name);
  }

  /** A name that is not qualified and not bound yet. */
  predicate Bare(e: ColumnRef) {
    e.tableOid == INVALID_OID && e.table == "" && e.column != ""
  }

  lemma {:induction false} InnermostAt(chain: Chain, name: string, k: nat)
    requires k < |chain| && SilentTo(chain, name, k) && Knows(chain[k], name)
    ensures Innermost(chain, name) == Some(k)
  {
    SilentIsSearched(chain, name, k);
    SearchedNext(chain, name, k);
  }

  /** A bare name that only a regular table of the innermost scope with a match has means
      the first column of that name, and the reference gets all there is to know about
      it: the alias, the column, its place in the catalog, its type and its depth. */
  lemma {:induction false} BareRegular(chain: Chain, e: ColumnRef, k: nat, a: string, i: nat)
    requires Bare(e) && k < |chain| && SilentTo(chain, e.column, k) && OnlyRegular(chain[k], e.column, a, i)
    ensures var t := chain[k].regular[a];
            Bind(chain, e) ==
            Ok(ColumnRef(a, t.schema[i].name, t.db, t.oid, t.schema[i].oid, t.schema[i].typ, |chain| - 1 - k))
  {
    OnlyRegularCandidate(chain[k], e.column, a, i);
    InnermostAt(chain, e.column, k);
    DecidedAt(chain, e, k, FromRegular(a));
    FirstIsGet(chain[k].regular[a].schema, Lower(e.column), i);
  }

  /** The same for a nested table: its columns have no place in the catalog, only an oid
      made from their serial number. */
  lemma {:induction false} BareNested(chain: Chain, e: ColumnRef, k: nat, a: string, i: nat)
    requires Bare(e) && k < |chain| && SilentTo(chain, e.column, k) && OnlyNested(chain[k], e.column, a, i)
    ensures var c := chain[k].nested[a][i];
            Bind(chain, e) == Ok(ColumnRef(a, Lower(e.column), e.db, INVALID_OID,
                                           MakeTempOid(SerialNo(c.alias)), c.typ, |chain| - 1 - k))
  {
    OnlyNestedCandidate(chain[k], e.column, a, i);
    InnermostAt(chain, e.column, k);
    DecidedAt(chain, e, k, FromNested(a, i));
  }

  /** A bare name means nothing exactly if no scope has it, and is ambiguous exactly if the
      innermost scope that has it has it in more than one place. */
  lemma {:induction false} BareRefused(chain: Chain, e: ColumnRef)
    requires Bare(e)
    ensures Bind(chain, e) == Throw(UndefinedColumn) <==> SilentTo(chain, e.column, |chain|)
    ensures Bind(chain, e) == Throw(AmbiguousColumn) <==>
              exists k :: && 0 <= k < |chain| && SilentTo(chain, e.column, k) && !Silent(chain[k], e.column)
                          && (forall a, i :: !OnlyRegular(chain[k], e.column, a, i))
                          && (forall a, i :: !OnlyNested(chain[k], e.column, a, i))
  {
    var k := Innermost(chain, e.column);
    if k.None? { SilentEverywhere(chain, e); } else { DecidedByOne(chain, e, k.value); }
  }

  lemma {:induction false} SilentEverywhere(chain: Chain, e: ColumnRef)
    requires Bare(e) && Innermost(chain, e.column).None?
    ensures SilentTo(chain, e.column, |chain|) && Bind(chain, e) == Throw(UndefinedColumn)
  {
    forall j | 0 <= j < |chain| ensures !Knows(chain[j], e.column) { InnermostIsFirst(chain, e.column, j); }
    SilentIsSearched(chain, e.column, |chain|);
  }

  lemma {:induction false} DecidedByOne(chain: Chain, e: ColumnRef, k: nat)
    requires Bare(e) && Innermost(chain, e.column) == Some(k)
    ensures SilentTo(chain, e.column, k) && !Silent(chain[k], e.column) && Bind(chain, e) != Throw(UndefinedColumn)
    ensures Bind(chain, e) == Throw(AmbiguousColumn) <==>
              && (forall a, i :: !OnlyRegular(chain[k], e.column, a, i))
              && (forall a, i :: !OnlyNested(chain[k], e.column, a, i))
  {
    var s := chain[k];
    var c :| c in Candidates(s, e.column);
    forall j | 0 <= j < k ensures !Knows(chain[j], e.column) { InnermostIsFirst(chain, e.column, j); }
    SilentIsSearched(chain, e.column, k);
    SilentIff(s, e.column);
    DecidedAt(chain, e, k, c);
    if |Candidates(s, e.column)| == 1 {
      OnlyCandidate(s, e.column, c);
    } else {
      forall a, i ensures !OnlyRegular(s, e.column, a, i) {
        if OnlyRegular(s, e.column, a, i) { OnlyRegularCandidate(s, e.column, a, i); }
      }
      forall a, i ensures !OnlyNested(s, e.column, a, i) {
        if OnlyNested(s, e.column, a, i) { OnlyNestedCandidate(s, e.column, a, i); }
      }
    }
  }

  lemma {:induction false} OnlyCandidate(s: Scope, name: string, c: Candidate)
    requires c in Candidates(s, name) && |Candidates(s, name)| == 1
    ensures match c
            case FromRegular(a) => exists i :: OnlyRegular(s, name, a, i)
            case FromNested(a, i) => OnlyNested(s, name, a, i)
  {
    var cs := Candidates(s, name);
    forall d | d in cs ensures d == c { OneCandidate(cs, c, d); }
    match c
    case FromRegular(a) =>
      var i := GetColumnIsFirst(s.regular[a].schema, Lower(name));
      var rest := s.(regular := s.regular - {a});
      forall d ensures d !in Candidates(rest, name) { assert d in Candidates(rest, name) ==> d in cs; }
      SilentIff(rest, name);
      assert OnlyRegular(s, name, a, i);
    case FromNested(a, i) =>
      var rest := s.(nested := s.nested - {a});
      forall d ensures d !in Candidates(rest, name) { assert d in Candidates(rest, name) ==> d in cs; }
      SilentIff(rest, name);
      forall j: nat | j < |s.nested[a]| && j != i ensures s.nested[a][j].alias.name != name {
        assert FromNested(a, j) !in cs;
      }
  }

  /** A qualified name looks in the nearest regular table of its alias, and nowhere else. */
  lemma {:induction false} QualifiedRegular(chain: Chain, e: ColumnRef, k: nat, i: nat)
    requires e.tableOid == INVALID_OID && e.table != "" && k < |chain|
    requires NoRegularBefore(chain, Lower(e.table), k) && Lower(e.table) in chain[k].regular
    ensures var t := chain[k].regular[Lower(e.table)];
            && (FirstNamed(t.schema, Lower(e.column), i) ==>
                  Bind(chain, e) == Ok(ColumnRef(e.table, t.schema[i].name, t.db, t.oid, t.schema[i].oid,
                                                 t.schema[i].typ, |chain| - 1 - k)))
            && ((forall j :: 0 <= j < |t.schema| ==> t.schema[j].name != Lower(e.column)) ==>
                  Bind(chain, e) == Throw(UndefinedColumn))
  {
    var t := chain[k].regular[Lower(e.table)];
    NearestRegularFrom(chain, Lower(e.table), k);
    if FirstNamed(t.schema, Lower(e.column), i) { FirstIsGet(t.schema, Lower(e.column), i); }
  }

  /** Only when no scope has a regular table of the alias does it look in the nearest
      nested one. */
  lemma {:induction false} QualifiedNested(chain: Chain, e: ColumnRef, k: nat, i: nat)
    requires e.tableOid == INVALID_OID && e.table != "" && k < |chain|
    requires NoRegularBefore(chain, Lower(e.table), |chain|)
    requires NoNestedBefore(chain, Lower(e.table), k) && Lower(e.table) in chain[k].nested
    ensures var t := chain[k].nested[Lower(e.table)];
            && (FirstEntry(t, Lower(e.column), i) ==>
                  Bind(chain, e) == Ok(ColumnRef(Lower(e.table), Lower(e.column), e.db, INVALID_OID,
                                                 MakeTempOid(SerialNo(t[i].alias)), t[i].typ, |chain| - 1 - k)))
            && ((forall j :: 0 <= j < |t| ==> t[j].alias.name != Lower(e.column)) ==>
                  Bind(chain, e) == Throw(UndefinedColumn))
  {
    var t := chain[k].nested[Lower(e.table)];
    NearestRegularFrom(chain, Lower(e.table), |chain|);
    NearestNestedFrom(chain, Lower(e.table), k);
    if FirstEntry(t, Lower(e.column), i) { FirstIsFound(t, Lower(e.column), i); }
  }

  predicate FirstEntry(t: NestedTable, name: string, i: nat) {
    i < |t| && t[i].alias.name == name && forall j :: 0 <= j < i ==> t[j].alias.name != name
  }

  lemma {:induction false} FirstIsFound(t: NestedTable, name: string, i: nat)
    requires FirstEntry(t, name, i)
    ensures FindNamed(t, name) == Some(t[i])
    decreases i
  {
    if i > 0 { FirstIsFound(t[1..], name, i - 1); }
  }

  /** A bare name means what it means when it is qualified with the table it was found in,
      exactly if no scope further in has a regular table of that alias. */
  lemma {:induction false} BareIsQualified(chain: Chain, e: ColumnRef, k: nat, a: string, i: nat)
    requires Bare(e) && k < |chain| && SilentTo(chain, e.column, k) && OnlyRegular(chain[k], e.column, a, i)
    requires a != "" && Lower(a) == a
    ensures Bind(chain, e) == Bind(chain, e.(table := a)) <==> NoRegularBefore(chain, a, k)
  {
    BareRegular(chain, e, k, a, i);
    FirstIsGet(chain[k].regular[a].schema, Lower(e.column), i);
    if NoRegularBefore(chain, a, k) {
      NearestRegularFrom(chain, a, k);
    } else {
      var j :| 0 <= j < k && a in chain[j].regular;
      NearestRegularIsFirst(chain, a);
      var n := NearestRegular(chain, a);
      assert n.Some? && Silent(chain[n.value], e.column);
    }
  }

  // ---- Qualified lookup and lexical scope ----

  /** The innermost scope that knows the alias at all. */
  function Lexical(chain: Chain, alias: string): (r: Option<nat>)
    ensures r.Some? ==> r.value < |chain| && HasAlias(chain[r.value], alias)
    ensures r.Some? ==> forall j :: 0 <= j < r.value ==> !HasAlias(chain[j], alias)
    ensures r.None? ==> forall j :: 0 <= j < |chain| ==> !HasAlias(chain[j], alias)
    decreases |chain|
  {
    if chain == [] then None
    else if HasAlias(chain[0], alias) then Some(0)
    else Outward(Lexical(chain[1..], alias), 1)
  }

  /** The scope in which qualified lookup looks for the column. */
  function Chosen(chain: Chain, alias: string): (r: Option<nat>) {
    if NearestRegular(chain, alias).Some? then NearestRegular(chain, alias) else NearestNestedAt(chain, alias)
  }

  lemma {:induction false} ChosenIsUsed(chain: Chain, e: ColumnRef, table: string, column: string)
    ensures BindQualified(chain, e, table, column).Ok? ==>
              Chosen(chain, table).Some? &&
              BindQualified(chain, e, table, column).value.depth == DepthOf(chain, Chosen(chain, table).value)
    ensures BindQualified(chain, e, table, column) == Throw(UndefinedTable) <==> Chosen(chain, table).None?
  {
  }

  /** FROM t, where t is the name of a CTE seen anywhere before: nothing is registered, and
      if no scope in sight has that CTE, no column of t can be found, even though the
      catalog may have a table t. */
  lemma {:induction false} CteNameWithoutCte(chain: Chain, t: string, e: ColumnRef, column: string)
    requires chain != [] && forall j :: 0 <= j < |chain| ==> !HasAlias(chain[j], t)
    ensures AddCteAlias(chain, t, t) == Ok(chain[0])
    ensures BindQualified(chain, e, t, column) == Throw(UndefinedTable)
  {
    NearestRegularFrom(chain, t, |chain|);
    NearestNestedFrom(chain, t, |chain|);
  }

  /** Qualified lookup follows lexical scope exactly if the alias is not that of a
      nested table strictly inside its nearest regular declaration. */
  lemma {:induction false} QualifiedIsLexical(chain: Chain, alias: string)
    ensures Chosen(chain, alias) == Lexical(chain, alias) <==>
              !exists r, n :: NearestRegular(chain, alias) == Some(r) && 0 <= n < r && alias in chain[n].nested
  {
    var r, l := NearestRegular(chain, alias), Lexical(chain, alias);
    NearestRegularIsFirst(chain, alias);
    NearestNestedIsFirst(chain, alias);
    if r.Some? {
      assert HasAlias(chain[r.value], alias);
      assert l.Some? && l.value <= r.value;
      if l != r { assert alias in chain[l.value].nested; }
    }
  }

  // ---- Binding a reference again ----

  /** Nothing comes between an unqualified name that means entry `a` of scope `k` and
      that entry when it is looked up by its alias: no regular table of that alias
      anywhere, no nested one further in. */
  ghost predicate Unshadowed(chain: Chain, k: nat, a: string)
    requires k < |chain|
  {
    && (forall j :: 0 <= j < |chain| ==> a !in chain[j].regular)
    && (forall j :: 0 <= j < k ==> a !in chain[j].nested)
  }

  /** Everything the scopes and the reference say about names is in lower case, and no
      table alias is empty. */
  ghost predicate LowerCase(chain: Chain, e: ColumnRef) {
    && Lower(e.column) == e.column
    && forall j :: 0 <= j < |chain| ==> LowerAliases(chain[j])
  }

  ghost predicate LowerAliases(s: Scope) {
    forall a :: a in s.nested ==> a != "" && Lower(a) == a
  }

  ghost predicate ValidChain(chain: Chain) {
    forall j :: 0 <= j < |chain| ==> ValidOids(chain[j])
  }

  /** Whether binding an unqualified reference twice is the same as binding it once, as
      far as the scopes decide it. */
  ghost predicate StableName(chain: Chain, e: ColumnRef) {
    var k := Innermost(chain, e.column);
    k.Some? ==>
      forall a, i :: FromNested(a, i) in Candidates(chain[k.value], e.column) ==> Unshadowed(chain, k.value, a)
  }

  /** The references that are bound to the same column when they are bound again. */
  ghost predicate Stable(chain: Chain, e: ColumnRef) {
    e.tableOid != INVALID_OID || e.table != "" || StableName(chain, e)
  }

  lemma {:induction false} RebindQualified(chain: Chain, e: ColumnRef)
    requires ValidChain(chain) && e.tableOid == INVALID_OID && e.table != "" && Bind(chain, e).Ok?
    ensures Bind(chain, Bind(chain, e).value) == Bind(chain, e)
  {
    LowerTwice(e.table);
    LowerTwice(e.column);
  }

  lemma {:induction false} OneCandidate(cs: set<Candidate>, c: Candidate, d: Candidate)
    requires |cs| == 1 && c in cs && d in cs
    ensures c == d
  {
    assert |cs - {c}| == 0;
    assert d !in cs - {c};
  }

  /** A nested column found by its name alone, then looked up again by its alias. */
  lemma {:induction false} RebindNested(chain: Chain, e: ColumnRef, k: nat, a: string, i: nat)
    requires LowerCase(chain, e) && ValidChain(chain) && e.tableOid == INVALID_OID
    requires Innermost(chain, e.column) == Some(k) && Candidates(chain[k], e.column) == {FromNested(a, i)}
    ensures var e1 := Take(chain, k, FromNested(a, i), e);
            Bind(chain, e1) == Ok(e1) <==> Unshadowed(chain, k, a)
  {
    assert FromNested(a, i) in Candidates(chain[k], e.column);
    assert a in chain[k].nested && LowerAliases(chain[k]);
    var e1 := Take(chain, k, FromNested(a, i), e);
    assert Bind(chain, e1) == BindQualified(chain, e1, a, e.column);
    var r, n := NearestRegular(chain, a), NearestNestedAt(chain, a);
    NearestRegularIsFirst(chain, a);
    NearestNestedIsFirst(chain, a);
    if r.None? {
      assert n.Some? && n.value <= k;
      if n.value < k {
        InnermostIsFirst(chain, e.column, n.value);
        NoEntry(chain[n.value], a, e.column);
      } else {
        OnlyEntry(chain[k], a, i, e.column);
      }
    }
  }

  lemma {:induction false} NoEntry(s: Scope, a: string, name: string)
    requires a in s.nested && Candidates(s, name) == {}
    ensures FindNamed(s.nested[a], name).None?
  {
    forall i: nat | i < |s.nested[a]| ensures s.nested[a][i].alias.name != name {
      assert FromNested(a, i) !in Candidates(s, name);
    }
  }

  lemma {:induction false} OnlyEntry(s: Scope, a: string, i: nat, name: string)
    requires Candidates(s, name) == {FromNested(a, i)}
    ensures a in s.nested && i < |s.nested[a]| && FindNamed(s.nested[a], name) == Some(s.nested[a][i])
  {
    assert FromNested(a, i) in Candidates(s, name);
    var c := FindNamed(s.nested[a], name);
    assert s.nested[a][i].alias.name == name;
    var j :| 0 <= j < |s.nested[a]| && s.nested[a][j] == c.value;
    assert FromNested(a, j) in Candidates(s, name);
  }

  /** Binding twice, as comparisons and conjunctions always do, leaves a bound reference
      as it is, unless it is an unqualified one that means a column of a nested table
      whose alias is taken by a regular table anywhere, or by a nested one further in. */
  lemma {:induction false} RebindIff(chain: Chain, e: ColumnRef)
    requires LowerCase(chain, e) && ValidChain(chain) && Bind(chain, e).Ok?
    ensures Bind(chain, Bind(chain, e).value) == Bind(chain, e) <==> Stable(chain, e)
  {
    if e.tableOid == INVALID_OID && e.table == "" {
      var k := Innermost(chain, e.column).value;
      var cs := Candidates(chain[k], e.column);
      var c :| c in cs && Bind(chain, e) == Ok(Take(chain, k, c, e));
      forall d | d in cs ensures d == c { OneCandidate(cs, c, d); }
      assert cs == {c};
      if c.FromNested? {
        RebindNested(chain, e, k, c.alias, c.index);
        assert StableName(chain, e) <==> Unshadowed(chain, k, c.alias);
      }
    } else if e.tableOid == INVALID_OID {
      RebindQualified(chain, e);
    }
  }

  /** Where it goes wrong: a derived table `t` in a subquery, a regular table `t` outside.
      The name `x` first means the column of the derived table, and when it is bound
      again, silently the column of the outer table. */
  lemma {:induction false} RebindCanMove(inner: TypeId, outer: TypeId)
    ensures var chain := [
              Scope(map[], [], map["t" := [NestedColumn(Alias("x", None), inner)]]),
              Scope(map["t" := Table(1, 7, [Column("x", outer, 3)])], ["t"], map[])];
            var e := ColumnRef("", "x", INVALID_OID, INVALID_OID, INVALID_OID, INVALID, -1);
            var first := Bind(chain, e);
            && first.Ok? && first.value.depth == 1 && first.value.typ == inner
            && Bind(chain, first.value).Ok?
            && Bind(chain, first.value).value.depth == 0 && Bind(chain, first.value).value.typ == outer
  {
    var column := Column("x", outer, 3);
    var s0 := Scope(map[], [], map["t" := [NestedColumn(Alias("x", None), inner)]]);
    var s1 := Scope(map["t" := Table(1, 7, [column])], ["t"], map[]);
    var chain := [s0, s1];
    var e := ColumnRef("", "x", INVALID_OID, INVALID_OID, INVALID_OID, INVALID, -1);
    assert Candidates(s0, "x") == {FromNested("t", 0)};
    assert Innermost(chain, "x") == Some(0);
    var first := Bind(chain, e).value;
    assert first == Take(chain, 0, FromNested("t", 0), e);
    assert Lower("t") == "t" && Lower("x") == "x";
    assert chain[1..][0] == s1;
    assert NearestRegular(chain, "t") == Some(1);
    assert [column][0].name == "x";
  }
}
