/** SELECT *: GenerateAllColumnExpressions of src/binder/binder_context.cpp, and the
    naming of CTE columns in Visit(SelectStatement) of src/binder/bind_node_visitor.cpp
    that lets it find their order again.
 */
module StarExpansion {
  import opened Basics
  import opened SqlTypes
  import opened Scope
  import opened ColumnBinding
  import opened BinderContext

  // ---- Sorting by serial number ----

  ghost predicate SortedBySerial(s: seq<NestedColumn>) {
    forall i, j :: 0 <= i < j < |s| ==> SerialNo(s[i].alias) <= SerialNo(s[j].alias)
  }

  /** A result that std::sort may have for these entries. */
  ghost predicate Ordering(t: NestedTable, s: seq<NestedColumn>) {
    SortedBySerial(s) && multiset(s) == multiset(t)
  }

  ghost predicate DistinctSerials(s: seq<NestedColumn>) {
    forall i, j :: 0 <= i < j < |s| ==> SerialNo(s[i].alias) != SerialNo(s[j].alias)
  }

  ghost predicate Increasing(s: seq<NestedColumn>) {
    forall i, j :: 0 <= i < j < |s| ==> SerialNo(s[i].alias) < SerialNo(s[j].alias)
  }

  lemma {:induction false} SameFirst(p: seq<NestedColumn>, q: seq<NestedColumn>)
    requires Increasing(p) && Ordering(p, q) && p != [] && q != []
    ensures p[0] == q[0]
  {
    assert p[0] in multiset(q) && q[0] in multiset(p);
    var i :| 0 <= i < |p| && p[i] == q[0];
    var j :| 0 <= j < |q| && q[j] == p[0];
  }

  lemma {:induction false} SameRest(p: seq<NestedColumn>, q: seq<NestedColumn>)
    requires p != [] && q != [] && p[0] == q[0] && multiset(p) == multiset(q)
    ensures multiset(p[1..]) == multiset(q[1..])
  {
    assert p == [p[0]] + p[1..] && q == [q[0]] + q[1..];
    assert multiset(p[1..]) == multiset(p) - multiset{p[0]};
  }

  lemma {:induction false} IncreasingUnique(p: seq<NestedColumn>, q: seq<NestedColumn>)
    requires Increasing(p) && Ordering(p, q)
    ensures p == q
    decreases |p|
  {
    assert |multiset(p)| == |p| && |multiset(q)| == |q|;
    if p != [] {
      SameFirst(p, q);
      SameRest(p, q);
      IncreasingUnique(p[1..], q[1..]);
    }
  }

  /** Two entries of the same serial number can be exchanged. */
  lemma {:induction false} Exchanged(t: NestedTable, s: seq<NestedColumn>, i: nat, j: nat)
    requires Ordering(t, s) && i < j < |s| && SerialNo(s[i].alias) == SerialNo(s[j].alias)
    ensures Ordering(t, s[i := s[j]][j := s[i]])
  {
  }

  lemma {:induction false} PositionsOf(t: NestedTable, s: seq<NestedColumn>, i: nat, j: nat) returns (m: nat, n: nat)
    requires multiset(s) == multiset(t) && i < |t| && j < |t| && t[i] != t[j]
    ensures m < |s| && n < |s| && m != n && s[m] == t[i] && s[n] == t[j]
  {
    assert t[i] in multiset(t) && t[j] in multiset(t);
    m :| 0 <= m < |s| && s[m] == t[i];
    n :| 0 <= n < |s| && s[n] == t[j];
  }

  lemma {:induction false} DistinctIsIncreasing(t: NestedTable, s: seq<NestedColumn>)
    requires Ordering(t, s) && DistinctSerials(t)
    ensures Increasing(s)
  {
    assert |multiset(s)| == |s| && |multiset(t)| == |t|;
    forall i, j | 0 <= i < j < |s| ensures SerialNo(s[i].alias) != SerialNo(s[j].alias) {
      if s[i] != s[j] {
        var m, n := PositionsOf(s, t, i, j);
      } else {
        OnlyOnce(t, s, i, j);
      }
    }
  }

  lemma {:induction false} OnlyOnce(t: NestedTable, s: seq<NestedColumn>, i: nat, j: nat)
    requires multiset(s) == multiset(t) && DistinctSerials(t) && i < j < |s|
    ensures s[i] != s[j]
  {
    Twice(s, i, j);
    AtMostOnce(t, s[i]);
  }

  lemma {:induction false} Twice(s: seq<NestedColumn>, i: nat, j: nat)
    requires i < j < |s|
    ensures s[i] == s[j] ==> multiset(s)[s[i]] >= 2
  {
    assert s == s[..j] + [s[j]] + s[j + 1..] && s[..j][i] == s[i];
  }

  lemma {:induction false} AtMostOnce(t: NestedTable, c: NestedColumn)
    requires DistinctSerials(t)
    ensures multiset(t)[c] <= 1
    decreases |t|
  {
    if t != [] {
      AtMostOnce(t[1..], c);
      assert t == [t[0]] + t[1..];
      if t[0] == c { assert forall i :: 0 < i < |t| ==> t[i] != c; }
    }
  }

  /** The order is the same whatever the sort does with ties exactly if there are none. */
  lemma {:induction false} OrderDetermined(t: NestedTable, s: seq<NestedColumn>)
    requires KeysDistinct(t) && Ordering(t, s)
    ensures (forall s' :: Ordering(t, s') ==> s' == s) <==> DistinctSerials(t)
  {
    if DistinctSerials(t) {
      forall s' | Ordering(t, s') ensures s' == s {
        DistinctIsIncreasing(t, s);
        IncreasingUnique(s, s');
      }
    } else {
      var i, j :| 0 <= i < j < |t| && SerialNo(t[i].alias) == SerialNo(t[j].alias);
      assert !SameAlias(t[i].alias, t[j].alias);
      var m, n := PositionsOf(t, s, i, j);
      if m < n { Exchanged(t, s, m, n); } else { Exchanged(t, s, n, m); }
      var (a, b) := if m < n then (m, n) else (n, m);
      var s' := s[a := s[b]][b := s[a]];
      assert s'[a] != s[a];
    }
  }

  /** `at` is a place where `c` can be put into a sorted sequence. */
  ghost predicate FitsAt(s: seq<NestedColumn>, c: NestedColumn, at: nat) {
    && at <= |s|
    && (forall i :: 0 <= i < at ==> SerialNo(s[i].alias) <= SerialNo(c.alias))
    && (forall i :: at <= i < |s| ==> SerialNo(c.alias) <= SerialNo(s[i].alias))
  }

  lemma {:induction false} InsertedInOrder(t: NestedTable, s: seq<NestedColumn>, c: NestedColumn, at: nat)
    requires Ordering(t, s) && FitsAt(s, c, at)
    ensures Ordering(t + [c], s[..at] + [c] + s[at..])
  {
    assert s == s[..at] + s[at..];
  }

  method FindPlace(s: seq<NestedColumn>, c: NestedColumn) returns (at: nat)
    requires SortedBySerial(s)
    ensures FitsAt(s, c, at)
  {
    at := 0;
    while at < |s| && SerialNo(s[at].alias) <= SerialNo(c.alias)
      invariant 0 <= at <= |s|
      invariant forall i :: 0 <= i < at ==> SerialNo(s[i].alias) <= SerialNo(c.alias)
    {
      at := at + 1;
    }
  }

  method SortBySerial(t: NestedTable) returns (s: seq<NestedColumn>)
    ensures Ordering(t, s)
  {
    s := [];
    for k := 0 to |t|
      invariant Ordering(t[..k], s)
    {
      var at := FindPlace(s, t[k]);
      InsertedInOrder(t[..k], s, t[k], at);
      assert t[..k + 1] == t[..k] + [t[k]];
      s := s[..at] + [t[k]] + s[at..];
    }
    assert t[..|t|] == t;
  }

  // ---- The expansion ----

  function RegularRefs(table: Table, alias: string, depth: int): (refs: seq<ColumnRef>)
    ensures |refs| == |table.schema|
  {
    seq(|table.schema|, i requires 0 <= i < |table.schema| =>
      ColumnRef(alias, table.schema[i].name, table.db, table.oid, table.schema[i].oid, table.schema[i].typ, depth))
  }

  /** The columns of the listed tables, in the order of the list. */
  function RegularAll(s: Scope, aliases: seq<string>, target: Option<string>, depth: int): (refs: seq<ColumnRef>)
    requires forall a :: a in aliases ==> a in s.regular
  {
    if aliases == [] then []
    else
      var n := |aliases| - 1;
      var a := aliases[n];
      RegularAll(s, aliases[..n], target, depth) +
      if target in {None, Some(a)} then RegularRefs(s.regular[a], a, depth) else []
  }

  /** A nested table with its columns in some order. */
  datatype Block = Block(alias: string, columns: seq<NestedColumn>)

  function BlockRefs(b: Block, depth: int): (refs: seq<ColumnRef>)
    ensures |refs| == |b.columns|
  {
    seq(|b.columns|, i requires 0 <= i < |b.columns| =>
      var c := b.columns[i];
      ColumnRef(b.alias, c.alias.name, INVALID_OID, INVALID_OID, MakeTempOid(SerialNo(c.alias)), c.typ, depth))
  }

  function NestedAll(blocks: seq<Block>, depth: int): (refs: seq<ColumnRef>) {
    if blocks == [] then []
    else NestedAll(blocks[..|blocks| - 1], depth) + BlockRefs(blocks[|blocks| - 1], depth)
  }

  /** Each of the tables once, sorted. */
  ghost predicate BlocksOf(nested: map<string, NestedTable>, aliases: set<string>, blocks: seq<Block>) {
    && (forall a :: a in aliases <==> exists i :: 0 <= i < |blocks| && blocks[i].alias == a)
    && (forall i, j :: 0 <= i < j < |blocks| ==> blocks[i].alias != blocks[j].alias)
    && (forall i :: 0 <= i < |blocks| ==>
          blocks[i].alias in nested && Ordering(nested[blocks[i].alias], blocks[i].columns))
  }

  /** All that SELECT * may emit in a scope. */
  ghost predicate Expansion(s: Scope, depth: int, refs: seq<ColumnRef>)
    requires forall a :: a in s.list ==> a in s.regular
  {
    exists blocks :: BlocksOf(s.nested, s.nested.Keys, blocks) &&
                     refs == RegularAll(s, s.list, None, depth) + NestedAll(blocks, depth)
  }

  method GenerateAllColumnExpressions(context: BinderContext, target: Option<string>, exprs: seq<ColumnRef>)
    returns (r: Result<seq<ColumnRef>>)
    requires Listed(context.Here())
    ensures target.None? ==>
              && r.Ok? && |exprs| <= |r.value| && r.value[..|exprs|] == exprs
              && Expansion(context.Here(), context.depth, r.value[|exprs|..])
    ensures target.Some? ==>
              r == if target.value in context.Here().regular
                   then Ok(exprs + RegularRefs(context.Here().regular[target.value], target.value, context.depth))
                   else Throw(UndefinedTable)
  {
    ghost var s := context.Here();
    var list, found, refs := context.regularTableAliasList, false, [];
    for k := 0 to |list|
      invariant refs == RegularAll(s, list[..k], target, context.depth)
      invariant found <==> exists i :: 0 <= i < k && target in {None, Some(list[i])}
    {
      assert list[..k + 1] == list[..k] + [list[k]] && list[..k + 1][..k] == list[..k];
      if target in {None, Some(list[k])} {
        found := true;
        var emitted := EmitRegular(context.regularTableAliasMap[list[k]], list[k], context.depth);
        refs := refs + emitted;
      }
    }
    assert list[..|list|] == list;
    if target.Some? {
      if !found { return Throw(UndefinedTable); }
      TargetOnly(s, list, target.value, context.depth);
      return Ok(exprs + refs);
    }
    var nested;
    ghost var blocks;
    nested, blocks := EmitAllNested(context.nestedTableAliasMap, context.depth);
    assert Expansion(s, context.depth, refs + nested);
    var all := exprs + (refs + nested);
    assert all[..|exprs|] == exprs && all[|exprs|..] == refs + nested;
    return Ok(all);
  }

  method EmitRegular(table: Table, alias: string, depth: int) returns (refs: seq<ColumnRef>)
    ensures refs == RegularRefs(table, alias, depth)
  {
    refs := [];
    for i := 0 to |table.schema|
      invariant refs == RegularRefs(table, alias, depth)[..i]
    {
      var c := table.schema[i];
      refs := refs + [ColumnRef(alias, c.name, table.db, table.oid, c.oid, c.typ, depth)];
    }
  }

  /** One nested table, sorted. */
  method EmitBlock(alias: string, t: NestedTable, depth: int)
    returns (refs: seq<ColumnRef>, columns: seq<NestedColumn>)
    ensures Ordering(t, columns) && refs == BlockRefs(Block(alias, columns), depth)
  {
    columns := SortBySerial(t);
    refs := [];
    for i := 0 to |columns|
      invariant refs == BlockRefs(Block(alias, columns), depth)[..i]
    {
      var c := columns[i];
      var oid := MakeTempOid(SerialNo(c.alias));
      refs := refs + [ColumnRef(alias, c.alias.name, INVALID_OID, INVALID_OID, oid, c.typ, depth)];
    }
  }

  /** The loop over the nested tables, which come in any order. */
  method EmitAllNested(nested: map<string, NestedTable>, depth: int)
    returns (refs: seq<ColumnRef>, ghost blocks: seq<Block>)
    ensures BlocksOf(nested, nested.Keys, blocks) && refs == NestedAll(blocks, depth)
  {
    ghost var done: set<string> := {};
    refs, blocks := [], [];
    var rest := nested.Keys;
    while rest != {}
      invariant rest <= nested.Keys && done + rest == nested.Keys && done !! rest
      invariant refs == NestedAll(blocks, depth)
      invariant BlocksOf(nested, done, blocks)
    {
      var a :| a in rest;
      var emitted, columns := EmitBlock(a, nested[a], depth);
      BlocksMore(nested, done, blocks, Block(a, columns));
      NestedAllMore(blocks, Block(a, columns), depth);
      blocks, done := blocks + [Block(a, columns)], done + {a};
      refs, rest := refs + emitted, rest - {a};
    }
  }

  lemma {:induction false} NestedAllMore(blocks: seq<Block>, b: Block, depth: int)
    ensures NestedAll(blocks + [b], depth) == NestedAll(blocks, depth) + BlockRefs(b, depth)
  {
    assert (blocks + [b])[..|blocks|] == blocks;
  }

  lemma {:induction false} BlocksMore(
    nested: map<string, NestedTable>, aliases: set<string>, blocks: seq<Block>, b: Block)
    requires BlocksOf(nested, aliases, blocks) && b.alias in nested && b.alias !in aliases
    requires Ordering(nested[b.alias], b.columns)
    ensures BlocksOf(nested, aliases + {b.alias}, blocks + [b])
  {
    var blocks' := blocks + [b];
    assert blocks'[|blocks|] == b && forall i :: 0 <= i < |blocks| ==> blocks'[i] == blocks[i];
  }

  lemma {:induction false} TargetOnly(s: Scope, aliases: seq<string>, target: string, depth: int)
    requires forall a :: a in aliases ==> a in s.regular
    requires forall i, j :: 0 <= i < j < |aliases| ==> aliases[i] != aliases[j]
    ensures RegularAll(s, aliases, Some(target), depth) ==
            if target in aliases then RegularRefs(s.regular[target], target, depth) else []
    decreases |aliases|
  {
    if aliases != [] { TargetOnly(s, aliases[..|aliases| - 1], target, depth); }
  }

  // ---- CTE columns ----

  const OIDS: nat := 0x1_0000_0000

  /** CatalogAccessor, as the source of temporary oids. */
  class CatalogAccessor {
    var tempOidCounter: nat

    constructor ()
      ensures tempOidCounter == 0
    {
      tempOidCounter := 0;
    }

    /** The counter has 32 bits. */
    method GetNewTempOid() returns (oid: nat)
      requires tempOidCounter < OIDS
      modifies this
      ensures tempOidCounter == (old(tempOidCounter) + 1) % OIDS && oid == NewOid(old(tempOidCounter), 0)
    {
      tempOidCounter := (tempOidCounter + 1) % OIDS;
      oid := MakeTempOid(tempOidCounter);
      SameLowBits(old(tempOidCounter) + 1);
    }
  }

  /** The i-th oid after the counter stood at `counter`. */
  function NewOid(counter: nat, i: nat): (oid: nat) {
    MakeTempOid(counter + 1 + i)
  }

  lemma {:induction false} SameLowBits(n: nat)
    ensures MakeTempOid(n % OIDS) == MakeTempOid(n)
  {
    LowBitsOf(2 * (n / OIDS), n % OIDS);
  }

  lemma {:induction false} LowBitsOf(a: nat, r: nat)
    ensures (a * TEMP_OID_MASK + r) % TEMP_OID_MASK == r % TEMP_OID_MASK
  {
  }

  lemma {:induction false} NewOidFrom(counter: nat, i: nat)
    ensures NewOid((counter + i) % OIDS, 0) == NewOid(counter, i)
  {
    SameLowBits(counter + i + 1);
    SameLowBits((counter + i) % OIDS + 1);
    NextOid(counter + i);
  }

  lemma {:induction false} NextOid(n: nat)
    ensures (n % OIDS + 1) % OIDS == (n + 1) % OIDS
  {
    var q, r := n / OIDS, n % OIDS;
    assert n + 1 == q * OIDS + (r + 1);
  }

  /** A column of the select list of a CTE. */
  datatype SelectColumn = SelectColumn(expressionName: string, typ: TypeId)

  function CteName(names: seq<string>, columns: seq<SelectColumn>, i: nat): (name: string)
    requires i < |columns|
  {
    if i < |names| then names[i] else if columns[i].expressionName == "" then "?column?" else columns[i].expressionName
  }

  /** The columns under which a CTE is registered. */
  function CteColumns(names: seq<string>, columns: seq<SelectColumn>, counter: nat): (cs: seq<NestedColumn>)
    ensures |cs| == |columns|
  {
    seq(|columns|, i requires 0 <= i < |columns| =>
      NestedColumn(Alias(CteName(names, columns, i), Some(NewOid(counter, i))), columns[i].typ))
  }

  /** The part of Visit(SelectStatement) that names the columns of a CTE. */
  method NameCteColumns(accessor: CatalogAccessor, names: seq<string>, columns: seq<SelectColumn>)
    returns (r: Result<seq<NestedColumn>>)
    requires accessor.tempOidCounter < OIDS
    modifies accessor
    ensures accessor.tempOidCounter < OIDS
    ensures r == if |names| > |columns| then Throw(InvalidSchemaDefinition)
                 else Ok(CteColumns(names, columns, old(accessor.tempOidCounter)))
  {
    if |names| > |columns| { return Throw(InvalidSchemaDefinition); }
    ghost var counter := accessor.tempOidCounter;
    var cs := [];
    for i := 0 to |names|
      invariant cs == CteColumns(names, columns, counter)[..i]
      invariant Advanced(accessor.tempOidCounter, counter, i)
    {
      var serial := NextSerial(accessor, counter, i);
      cs := cs + [NestedColumn(Alias(names[i], Some(serial)), columns[i].typ)];
    }
    for i := |names| to |columns|
      invariant cs == CteColumns(names, columns, counter)[..i]
      invariant Advanced(accessor.tempOidCounter, counter, i)
    {
      var serial := NextSerial(accessor, counter, i);
      var name := columns[i].expressionName;
      if name == "" { name := "?column?"; }
      cs := cs + [NestedColumn(Alias(name, Some(serial)), columns[i].typ)];
    }
    assert CteColumns(names, columns, counter)[..|columns|] == CteColumns(names, columns, counter);
    return Ok(cs);
  }

  ghost predicate Advanced(now: nat, counter: nat, i: nat) {
    now == (counter + i) % OIDS
  }

  method NextSerial(accessor: CatalogAccessor, ghost counter: nat, ghost i: nat) returns (serial: nat)
    requires Advanced(accessor.tempOidCounter, counter, i)
    modifies accessor
    ensures Advanced(accessor.tempOidCounter, counter, i + 1) && serial == NewOid(counter, i)
  {
    NewOidFrom(counter, i);
    serial := accessor.GetNewTempOid();
  }

  /** The lower 31 bits of the counter do not start over while `n` oids are drawn. */
  predicate NoRestart(counter: nat, n: nat) {
    n <= 1 || (counter + 1) % TEMP_OID_MASK + n <= TEMP_OID_MASK
  }

  /** The serial numbers grow from column to column exactly if the lower 31 bits of the
      counter do not start over in between. */
  lemma {:induction false} SerialsIncreaseIff(names: seq<string>, columns: seq<SelectColumn>, counter: nat)
    ensures Increasing(CteColumns(names, columns, counter)) <==> NoRestart(counter, |columns|)
    ensures SortedBySerial(CteColumns(names, columns, counter)) ==> NoRestart(counter, |columns|)
  {
    var cs, first, n := CteColumns(names, columns, counter), (counter + 1) % TEMP_OID_MASK, |columns|;
    if first + n <= TEMP_OID_MASK {
      forall i | 0 <= i < n ensures SerialNo(cs[i].alias) == TEMP_OID_MASK + first + i { LowBits(counter + 1, i); }
    } else if n > 1 {
      var i := TEMP_OID_MASK - first;
      LowBits(counter + 1, i - 1);
      StartOver(counter + 1, i);
      assert SerialNo(cs[i].alias) < SerialNo(cs[i - 1].alias);
    }
  }

  lemma {:induction false} LowBits(n: nat, i: nat)
    requires n % TEMP_OID_MASK + i < TEMP_OID_MASK
    ensures (n + i) % TEMP_OID_MASK == n % TEMP_OID_MASK + i
  {
    assert n + i == (n / TEMP_OID_MASK) * TEMP_OID_MASK + (n % TEMP_OID_MASK + i);
  }

  lemma {:induction false} StartOver(n: nat, i: nat)
    requires n % TEMP_OID_MASK + i == TEMP_OID_MASK
    ensures (n + i) % TEMP_OID_MASK == 0
  {
    assert n + i == (n / TEMP_OID_MASK + 1) * TEMP_OID_MASK;
  }

  lemma {:induction false} IncreasingIsDistinct(cs: seq<NestedColumn>)
    requires Increasing(cs) && forall i :: 0 <= i < |cs| ==> cs[i].alias.serial.Some?
    ensures KeysDistinct(cs)
  {
    forall i, j | 0 <= i < j < |cs| ensures !SameAlias(cs[i].alias, cs[j].alias) {
      assert SerialNo(cs[i].alias) < SerialNo(cs[j].alias);
    }
  }

  /** Sorting brings the columns of a CTE back into the order of its select list exactly
      if the serial numbers grow. */
  lemma {:induction false} CteOrderIff(
    names: seq<string>, columns: seq<SelectColumn>, counter: nat, t: NestedTable, sorted: seq<NestedColumn>)
    requires StoredAs(CteColumns(names, columns, counter), t) && Ordering(t, sorted)
    ensures sorted == CteColumns(names, columns, counter) <==> NoRestart(counter, |columns|)
  {
    var cs := CteColumns(names, columns, counter);
    SerialsIncreaseIff(names, columns, counter);
    if NoRestart(counter, |columns|) {
      IncreasingIsDistinct(cs);
      IncreasingUnique(cs, sorted);
    }
  }

  /** In whatever order the map held them and the sort compared them, SELECT * emits the
      columns of a CTE in one piece, in the order of its select list, under their names
      and with their types, if the CTE is in the scope. If it is not, no column is emitted
      under its name, except those of a regular table. */
  lemma {:induction false} StarKeepsCteOrder(
    s: Scope, depth: int, refs: seq<ColumnRef>,
    cte: string, names: seq<string>, columns: seq<SelectColumn>, counter: nat)
    requires Listed(s) && Expansion(s, depth, refs)
    requires cte in s.nested ==> StoredAs(CteColumns(names, columns, counter), s.nested[cte])
    requires NoRestart(counter, |columns|)
    ensures cte in s.nested ==> exists p: nat :: CteAt(refs, p, cte, names, columns, depth)
    ensures cte !in s.nested ==> (Emits(refs, cte) <==> cte in s.regular && s.regular[cte].schema != [])
  {
    var blocks: seq<Block> :| BlocksOf(s.nested, s.nested.Keys, blocks) &&
                              refs == RegularAll(s, s.list, None, depth) + NestedAll(blocks, depth);
    if cte in s.nested {
      var k := BlockOf(s.nested, blocks, cte);
      CteOrderIff(names, columns, counter, s.nested[cte], blocks[k].columns);
      CteWithin(RegularAll(s, s.list, None, depth), blocks, k, cte, names, columns, counter, depth);
    } else {
      StarEmits(s, depth, refs, cte);
    }
  }

  lemma {:induction false} CteWithin(
    u: seq<ColumnRef>, blocks: seq<Block>, k: nat,
    cte: string, names: seq<string>, columns: seq<SelectColumn>, counter: nat, depth: int)
    requires k < |blocks| && blocks[k] == Block(cte, CteColumns(names, columns, counter))
    ensures exists p: nat :: CteAt(u + NestedAll(blocks, depth), p, cte, names, columns, depth)
  {
    CteBlock(cte, names, columns, counter, depth);
    var p := BlockAt(blocks, depth, k);
    var v := NestedAll(blocks, depth);
    assert (u + v)[|u| + p..|u| + p + |columns|] == v[p..p + |columns|];
    assert CteAt(u + v, |u| + p, cte, names, columns, depth);
  }

  lemma {:induction false} BlockOf(nested: map<string, NestedTable>, blocks: seq<Block>, a: string) returns (k: nat)
    requires BlocksOf(nested, nested.Keys, blocks) && a in nested
    ensures k < |blocks| && blocks[k].alias == a && Ordering(nested[a], blocks[k].columns)
  {
    assert a in nested.Keys;
    k :| 0 <= k < |blocks| && blocks[k].alias == a;
  }

  /** The columns of the CTE, in the order of its select list. */
  ghost predicate IsCte(refs: seq<ColumnRef>, cte: string, names: seq<string>, columns: seq<SelectColumn>, depth: int) {
    && |refs| == |columns|
    && forall i :: 0 <= i < |columns| ==>
         && refs[i].table == cte && refs[i].column == CteName(names, columns, i)
         && refs[i].typ == columns[i].typ && refs[i].depth == depth
  }

  ghost predicate CteAt(
    refs: seq<ColumnRef>, p: nat, cte: string, names: seq<string>, columns: seq<SelectColumn>, depth: int)
  {
    p + |columns| <= |refs| && IsCte(refs[p..p + |columns|], cte, names, columns, depth)
  }

  lemma {:induction false} CteBlock(
    cte: string, names: seq<string>, columns: seq<SelectColumn>, counter: nat, depth: int)
    ensures IsCte(BlockRefs(Block(cte, CteColumns(names, columns, counter)), depth), cte, names, columns, depth)
  {
  }

  lemma {:induction false} BlockAt(blocks: seq<Block>, depth: int, k: nat) returns (p: nat)
    requires k < |blocks|
    ensures p + |blocks[k].columns| <= |NestedAll(blocks, depth)|
    ensures NestedAll(blocks, depth)[p..p + |blocks[k].columns|] == BlockRefs(blocks[k], depth)
    decreases |blocks|
  {
    var n := |blocks| - 1;
    if k == n {
      p := |NestedAll(blocks[..n], depth)|;
    } else {
      p := BlockAt(blocks[..n], depth, k);
    }
  }

  // ---- The expansion and name resolution ----

  /** What SELECT * emits for a regular table is what its columns mean when they are
      written out with the alias. */
  lemma {:induction false} StarIsQualified(chain: Chain, alias: string, i: nat)
    requires chain != [] && alias in chain[0].regular && alias != "" && Lower(alias) == alias
    requires i < |chain[0].regular[alias].schema|
    requires var schema := chain[0].regular[alias].schema;
             && Lower(schema[i].name) == schema[i].name
             && forall j :: 0 <= j < |schema| && j != i ==> schema[j].name != schema[i].name
    ensures var table := chain[0].regular[alias];
            var written := ColumnRef(alias, table.schema[i].name, INVALID_OID, INVALID_OID, INVALID_OID, INVALID, -1);
            Bind(chain, written) == Ok(RegularRefs(table, alias, DepthOf(chain, 0))[i])
  {
    var schema := chain[0].regular[alias].schema;
    assert ColumnInSchema(schema, schema[i].name);
    assert GetColumn(schema, schema[i].name) == schema[i];
  }

  /** For a nested table that holds exactly if no scope has a regular table of the alias. */
  lemma {:induction false} StarIsQualifiedNested(chain: Chain, b: Block, i: nat)
    requires chain != [] && b.alias in chain[0].nested && b.alias != "" && Lower(b.alias) == b.alias
    requires Ordering(chain[0].nested[b.alias], b.columns) && i < |b.columns|
    requires var t := chain[0].nested[b.alias];
             && Lower(b.columns[i].alias.name) == b.columns[i].alias.name
             && forall c :: c in t && c.alias.name == b.columns[i].alias.name ==> c == b.columns[i]
    requires forall j :: 0 <= j < |chain| ==> ValidOids(chain[j])
    ensures var name := b.columns[i].alias.name;
            var written := ColumnRef(b.alias, name, INVALID_OID, INVALID_OID, INVALID_OID, INVALID, -1);
            Bind(chain, written) == Ok(BlockRefs(b, DepthOf(chain, 0))[i]) <==>
              forall j :: 0 <= j < |chain| ==> b.alias !in chain[j].regular
  {
    var t, c := chain[0].nested[b.alias], b.columns[i];
    assert c in multiset(b.columns);
    assert c in t;
    var k :| 0 <= k < |t| && t[k] == c;
    assert FindNamed(t, c.alias.name) == Some(c);
    NearestRegularIsFirst(chain, b.alias);
    NearestNestedFrom(chain, b.alias, 0);
  }

  // ---- What is emitted ----

  predicate HasColumns(s: Scope, a: string) {
    (a in s.regular && s.regular[a].schema != []) || (a in s.nested && s.nested[a] != [])
  }

  ghost predicate Emits(refs: seq<ColumnRef>, a: string) {
    exists i :: 0 <= i < |refs| && refs[i].table == a
  }

  lemma {:induction false} EmitsEither(u: seq<ColumnRef>, v: seq<ColumnRef>, a: string)
    ensures Emits(u + v, a) <==> Emits(u, a) || Emits(v, a)
  {
    var w := u + v;
    if i :| 0 <= i < |u| && u[i].table == a { assert w[i] == u[i]; }
    if i :| 0 <= i < |v| && v[i].table == a { assert w[|u| + i] == v[i]; }
    if i :| 0 <= i < |w| && w[i].table == a {
      if i < |u| { assert w[i] == u[i]; } else { assert w[i] == v[i - |u|]; }
    }
  }

  lemma {:induction false} RegularEmits(s: Scope, aliases: seq<string>, depth: int, a: string)
    requires forall b :: b in aliases ==> b in s.regular
    ensures Emits(RegularAll(s, aliases, None, depth), a) <==> a in aliases && s.regular[a].schema != []
    decreases |aliases|
  {
    if aliases != [] {
      var b, rest := Last(aliases), Front(aliases);
      assert aliases == rest + [b];
      RegularEmits(s, rest, depth, a);
      var refs := RegularRefs(s.regular[b], b, depth);
      EmitsEither(RegularAll(s, rest, None, depth), refs, a);
      assert refs != [] ==> refs[0].table == b;
    }
  }

  ghost predicate HasBlock(blocks: seq<Block>, a: string) {
    exists i :: 0 <= i < |blocks| && blocks[i].alias == a && blocks[i].columns != []
  }

  lemma {:induction false} NestedEmits(blocks: seq<Block>, depth: int, a: string)
    ensures Emits(NestedAll(blocks, depth), a) <==> HasBlock(blocks, a)
    decreases |blocks|
  {
    if blocks != [] {
      var b, rest := Last(blocks), Front(blocks);
      assert blocks == rest + [b];
      NestedEmits(rest, depth, a);
      var refs := BlockRefs(b, depth);
      EmitsEither(NestedAll(rest, depth), refs, a);
      assert refs != [] ==> refs[0].table == b.alias;
      if HasBlock(rest, a) {
        var i :| 0 <= i < |rest| && rest[i].alias == a && rest[i].columns != [];
        assert blocks[i] == rest[i];
      }
      if HasBlock(blocks, a) && !(b.alias == a && b.columns != []) {
        var i :| 0 <= i < |blocks| && blocks[i].alias == a && blocks[i].columns != [];
        assert blocks[i] == rest[i];
      }
    }
  }

  /** SELECT * emits the tables of the scope, all that have columns and no others. */
  lemma {:induction false} StarEmits(s: Scope, depth: int, refs: seq<ColumnRef>, a: string)
    requires Listed(s) && Expansion(s, depth, refs)
    ensures Emits(refs, a) <==> HasColumns(s, a)
  {
    var blocks: seq<Block> :| BlocksOf(s.nested, s.nested.Keys, blocks) &&
                              refs == RegularAll(s, s.list, None, depth) + NestedAll(blocks, depth);
    EmitsEither(RegularAll(s, s.list, None, depth), NestedAll(blocks, depth), a);
    RegularEmits(s, s.list, depth, a);
    NestedEmits(blocks, depth, a);
    BlocksAreTables(s.nested, blocks, a);
  }

  lemma {:induction false} BlocksAreTables(nested: map<string, NestedTable>, blocks: seq<Block>, a: string)
    requires BlocksOf(nested, nested.Keys, blocks)
    ensures HasBlock(blocks, a) <==> a in nested && nested[a] != []
  {
    forall i | 0 <= i < |blocks| ensures blocks[i].columns == [] <==> nested[blocks[i].alias] == [] {
      assert |multiset(blocks[i].columns)| == |multiset(nested[blocks[i].alias])|;
    }
    assert a in nested <==> a in nested.Keys;
  }

  // ---- In what order ----

  /** The number of columns of some regular tables of a scope. */
  function Width(s: Scope, aliases: seq<string>): (w: nat)
    requires forall a :: a in aliases ==> a in s.regular
  {
    if aliases == [] then 0 else Width(s, Front(aliases)) + |s.regular[Last(aliases)].schema|
  }

  lemma {:induction false} RegularWidth(s: Scope, aliases: seq<string>, depth: int)
    requires forall a :: a in aliases ==> a in s.regular
    ensures |RegularAll(s, aliases, None, depth)| == Width(s, aliases)
    decreases |aliases|
  {
    if aliases != [] { RegularWidth(s, Front(aliases), depth); }
  }

  /** Column `c` of a regular table, as SELECT * emits it. */
  function CatalogRef(table: Table, alias: string, c: nat, depth: int): (r: ColumnRef)
    requires c < |table.schema|
  {
    var column := table.schema[c];
    ColumnRef(alias, column.name, table.db, table.oid, column.oid, column.typ, depth)
  }

  lemma {:induction false} RegularAt(s: Scope, aliases: seq<string>, depth: int, i: nat, c: nat)
    requires i < |aliases| && forall a :: a in aliases ==> a in s.regular
    requires c < |s.regular[aliases[i]].schema|
    ensures var at, refs := Width(s, aliases[..i]) + c, RegularAll(s, aliases, None, depth);
            at < |refs| && refs[at] == CatalogRef(s.regular[aliases[i]], aliases[i], c, depth)
    decreases |aliases|
  {
    var rest := Front(aliases);
    RegularWidth(s, rest, depth);
    if i < |rest| {
      assert rest[..i] == aliases[..i] && rest[i] == aliases[i];
      RegularAt(s, rest, depth, i, c);
    }
  }

  lemma {:induction false} ExpansionParts(s: Scope, depth: int, refs: seq<ColumnRef>) returns (blocks: seq<Block>)
    requires Listed(s) && Expansion(s, depth, refs)
    ensures refs == RegularAll(s, s.list, None, depth) + NestedAll(blocks, depth)
    ensures |RegularAll(s, s.list, None, depth)| == Width(s, s.list)
    ensures forall k :: 0 <= k < |blocks| ==> blocks[k].alias in s.nested
  {
    blocks :| BlocksOf(s.nested, s.nested.Keys, blocks) &&
              refs == RegularAll(s, s.list, None, depth) + NestedAll(blocks, depth);
    RegularWidth(s, s.list, depth);
  }

  lemma {:induction false} ExpansionBlock(s: Scope, depth: int, refs: seq<ColumnRef>, a: string)
    returns (blocks: seq<Block>, k: nat)
    requires Listed(s) && Expansion(s, depth, refs) && a in s.nested
    ensures refs == RegularAll(s, s.list, None, depth) + NestedAll(blocks, depth)
    ensures |RegularAll(s, s.list, None, depth)| == Width(s, s.list)
    ensures k < |blocks| && blocks[k].alias == a && Ordering(s.nested[a], blocks[k].columns)
  {
    blocks :| BlocksOf(s.nested, s.nested.Keys, blocks) &&
              refs == RegularAll(s, s.list, None, depth) + NestedAll(blocks, depth);
    k := BlockOf(s.nested, blocks, a);
    RegularWidth(s, s.list, depth);
  }

  /** Whatever SELECT * emits: the columns of the i-th table of the list follow those of the
      tables before it, in the order of the schema, and carry all that the catalog knows. */
  lemma {:induction false} StarRegularAt(s: Scope, depth: int, refs: seq<ColumnRef>, i: nat, c: nat)
    requires Listed(s) && Expansion(s, depth, refs) && i < |s.list| && c < |s.regular[s.list[i]].schema|
    ensures var at := Width(s, s.list[..i]) + c;
            at < |refs| && refs[at] == CatalogRef(s.regular[s.list[i]], s.list[i], c, depth)
  {
    var blocks := ExpansionParts(s, depth, refs);
    RegularAt(s, s.list, depth, i, c);
  }

  /** The columns of a nested table in the given order: under their names, with their types
      and with oids made from their numbers. */
  ghost predicate IsNested(refs: seq<ColumnRef>, a: string, columns: seq<NestedColumn>, depth: int) {
    && |refs| == |columns|
    && forall i :: 0 <= i < |refs| ==>
         refs[i] == ColumnRef(a, columns[i].alias.name, INVALID_OID, INVALID_OID,
                              MakeTempOid(SerialNo(columns[i].alias)), columns[i].typ, depth)
  }

  lemma {:induction false} NestedWithin(u: seq<ColumnRef>, blocks: seq<Block>, k: nat, depth: int) returns (at: nat)
    requires k < |blocks|
    ensures |u| <= at && at + |blocks[k].columns| <= |u + NestedAll(blocks, depth)|
    ensures var n := |blocks[k].columns|;
            IsNested((u + NestedAll(blocks, depth))[at..at + n], blocks[k].alias, blocks[k].columns, depth)
  {
    var n, v := |blocks[k].columns|, NestedAll(blocks, depth);
    var p := BlockAt(blocks, depth, k);
    at := |u| + p;
    assert (u + v)[at..at + n] == v[p..p + n];
  }

  /** The nested tables come after all regular ones, each in one piece and sorted. */
  lemma {:induction false} StarNestedAt(s: Scope, depth: int, refs: seq<ColumnRef>, a: string)
    returns (at: nat, columns: seq<NestedColumn>)
    requires Listed(s) && Expansion(s, depth, refs) && a in s.nested
    ensures Ordering(s.nested[a], columns) && Width(s, s.list) <= at && at + |columns| <= |refs|
    ensures IsNested(refs[at..at + |columns|], a, columns, depth)
  {
    var blocks, k := ExpansionBlock(s, depth, refs, a);
    columns := blocks[k].columns;
    at := NestedWithin(RegularAll(s, s.list, None, depth), blocks, k, depth);
  }

  lemma {:induction false} RegularTable(s: Scope, aliases: seq<string>, depth: int, i: nat)
    requires (forall a :: a in aliases ==> a in s.regular) && i < |RegularAll(s, aliases, None, depth)|
    ensures RegularAll(s, aliases, None, depth)[i].table in s.regular
    decreases |aliases|
  {
    var first := RegularAll(s, Front(aliases), None, depth);
    if i < |first| { RegularTable(s, Front(aliases), depth, i); }
  }

  lemma {:induction false} NestedTableAt(blocks: seq<Block>, depth: int, i: nat) returns (k: nat)
    requires i < |NestedAll(blocks, depth)|
    ensures k < |blocks| && NestedAll(blocks, depth)[i].table == blocks[k].alias
    ensures NestedAll(blocks, depth)[i].tableOid == INVALID_OID
    decreases |blocks|
  {
    var first := NestedAll(Front(blocks), depth);
    k := |blocks| - 1;
    if i < |first| { k := NestedTableAt(Front(blocks), depth, i); }
  }

  /** Up to the width of the list, what is emitted is of regular tables; beyond it, of
      nested ones. */
  lemma {:induction false} StarRegularFirst(s: Scope, depth: int, refs: seq<ColumnRef>, i: nat)
    requires Listed(s) && Expansion(s, depth, refs) && i < |refs|
    ensures if i < Width(s, s.list) then refs[i].table in s.regular
            else refs[i].table in s.nested && refs[i].tableOid == INVALID_OID
  {
    var blocks := ExpansionParts(s, depth, refs);
    if i < Width(s, s.list) {
      RegularTable(s, s.list, depth, i);
    } else {
      var k := NestedTableAt(blocks, depth, i - Width(s, s.list));
    }
  }
}
