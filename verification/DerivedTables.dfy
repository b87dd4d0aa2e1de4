/** The columns of a derived table: stored in an unordered map under their names, and brought
    into the order of their serial numbers by SELECT *.
 */
module DerivedTables {
  import opened Basics
  import opened SqlTypes
  import opened Scope
  import opened ColumnBinding
  import opened BinderContext
  import opened StarExpansion
  import opened SelectMeaning

  // ---- Storing and sorting ----

  lemma {:induction false} KeysOnce(t: NestedTable, c: NestedColumn)
    requires KeysDistinct(t)
    ensures multiset(t)[c] <= 1
    decreases |t|
  {
    if t != [] {
      KeysOnce(t[1..], c);
      assert t == [t[0]] + t[1..];
      if t[0] == c { assert forall i :: 0 < i < |t| ==> t[i] != c; }
    }
  }

  lemma {:induction false} KeysPermuted(t: NestedTable, s: seq<NestedColumn>)
    requires KeysDistinct(t) && multiset(s) == multiset(t)
    ensures KeysDistinct(s)
  {
    forall i, j | 0 <= i < j < |s| ensures !SameAlias(s[i].alias, s[j].alias) {
      Twice(s, i, j);
      KeysOnce(t, s[i]);
      var m, n := PositionsOf(s, t, i, j);
    }
  }

  lemma {:induction false} Storable(cs: seq<NestedColumn>) returns (t: NestedTable)
    ensures StoredAs(cs, t) && |t| <= |cs|
    decreases |cs|
  {
    if cs == [] {
      t := [];
    } else {
      var c := Last(cs);
      var t0 := Storable(Front(cs));
      assert cs == Front(cs) + [c];
      if i :| 0 <= i < |t0| && SameAlias(t0[i].alias, c.alias) {
        Overwritten(Front(cs), t0, c, i);
        t := t0[i := NestedColumn(t0[i].alias, c.typ)];
      } else {
        Inserted(Front(cs), t0, c, |t0|);
        t := t0[..|t0|] + [c] + t0[|t0|..];
      }
    }
  }

  lemma {:induction false} Fits(s: seq<NestedColumn>, c: NestedColumn) returns (at: nat)
    requires SortedBySerial(s)
    ensures FitsAt(s, c, at)
    decreases |s|
  {
    if s == [] || SerialNo(Last(s).alias) <= SerialNo(c.alias) { at := |s|; } else { at := Fits(Front(s), c); }
  }

  lemma {:induction false} Sortable(t: NestedTable) returns (s: seq<NestedColumn>)
    ensures Ordering(t, s)
    decreases |t|
  {
    if t == [] {
      s := [];
    } else {
      var s0 := Sortable(Front(t));
      var at := Fits(s0, Last(t));
      InsertedInOrder(Front(t), s0, Last(t), at);
      assert t == Front(t) + [Last(t)];
      s := s0[..at] + [Last(t)] + s0[at..];
    }
  }

  /** Columns come back in their order, in all runs, if and only if no two have equal keys and
      their serial numbers increase. */
  lemma {:induction false} OrderKeptIff(cs: seq<NestedColumn>)
    ensures (forall t, sorted :: StoredAs(cs, t) && Ordering(t, sorted) ==> sorted == cs) <==>
              KeysDistinct(cs) && Increasing(cs)
  {
    if KeysDistinct(cs) && Increasing(cs) {
      forall t, sorted | StoredAs(cs, t) && Ordering(t, sorted) ensures sorted == cs { IncreasingUnique(cs, sorted); }
    } else {
      var t, sorted := OtherOrder(cs);
    }
  }

  lemma {:induction false} OtherOrder(cs: seq<NestedColumn>) returns (t: NestedTable, sorted: seq<NestedColumn>)
    requires !KeysDistinct(cs) || !Increasing(cs)
    ensures StoredAs(cs, t) && Ordering(t, sorted) && sorted != cs && |t| <= |cs|
  {
    if KeysDistinct(cs) {
      t := cs;
      sorted := Sortable(cs);
      if sorted == cs { sorted := Swapped(cs); }
    } else {
      t := Storable(cs);
      sorted := Sortable(t);
      KeysPermuted(t, sorted);
    }
  }

  lemma {:induction false} Swapped(cs: seq<NestedColumn>) returns (sorted: seq<NestedColumn>)
    requires KeysDistinct(cs) && !Increasing(cs) && Ordering(cs, cs)
    ensures Ordering(cs, sorted) && sorted != cs
  {
    var i, j :| 0 <= i < j < |cs| && SerialNo(cs[i].alias) >= SerialNo(cs[j].alias);
    Exchanged(cs, cs, i, j);
    sorted := cs[i := cs[j]][j := cs[i]];
    assert sorted[i] == cs[j] && !SameAlias(cs[i].alias, cs[j].alias);
  }

  // ---- The select list of a derived table ----

  /** A column that is stored: it has an alias, or it is a column with a name of its own. */
  predicate Nameable(o: OutColumn) {
    o.alias.name != "" || o.column.Some?
  }

  function StoredColumn(o: OutColumn): (c: NestedColumn)
    requires Nameable(o)
  {
    NestedColumn(if o.alias.name != "" then o.alias else Alias(o.column.value, None), o.typ)
  }

  predicate AllNamed(outs: seq<OutColumn>) {
    forall i :: 0 <= i < |outs| ==> Nameable(outs[i])
  }

  /** The columns of a select list, all of them and in order. */
  predicate IsList(outs: seq<OutColumn>, columns: seq<NestedColumn>) {
    |columns| == |outs| && forall i :: 0 <= i < |outs| ==> Nameable(outs[i]) && columns[i] == StoredColumn(outs[i])
  }

  lemma {:induction false} NamedAreStored(outs: seq<OutColumn>)
    ensures |NestedColumns(outs)| <= |outs|
    ensures AllNamed(outs) ==> IsList(outs, NestedColumns(outs))
    ensures !AllNamed(outs) ==> |NestedColumns(outs)| < |outs|
    decreases |outs|
  {
    if outs != [] {
      var rest := outs[1..];
      NamedAreStored(rest);
      assert forall i :: 0 < i < |outs| ==> outs[i] == rest[i - 1];
      assert AllNamed(outs) <==> Nameable(outs[0]) && AllNamed(rest);
    }
  }

  ghost predicate KeepsOrder(outs: seq<OutColumn>) {
    AllNamed(outs) && KeysDistinct(NestedColumns(outs)) && Increasing(NestedColumns(outs))
  }

  /** What SELECT * makes of the stored columns is the select list of the derived table, in
      order and complete, in all runs, if and only if every column has a name, no two have
      equal keys, and the serial numbers increase. */
  lemma {:induction false} DerivedListIff(outs: seq<OutColumn>)
    ensures (forall t, sorted :: StoredAs(NestedColumns(outs), t) && Ordering(t, sorted) ==> IsList(outs, sorted)) <==>
              KeepsOrder(outs)
  {
    var cs := NestedColumns(outs);
    NamedAreStored(outs);
    OrderKeptIff(cs);
    if AllNamed(outs) {
      forall sorted ensures IsList(outs, sorted) <==> sorted == cs { SameListSame(outs, cs, sorted); }
    } else {
      var t := Storable(cs);
      var sorted := Sortable(t);
      assert |multiset(sorted)| == |multiset(t)|;
      assert StoredAs(cs, t) && Ordering(t, sorted) && !IsList(outs, sorted);
    }
  }

  lemma {:induction false} SameListSame(outs: seq<OutColumn>, cs: seq<NestedColumn>, sorted: seq<NestedColumn>)
    requires IsList(outs, cs)
    ensures IsList(outs, sorted) <==> sorted == cs
  {
    if IsList(outs, sorted) { assert forall i :: 0 <= i < |cs| ==> sorted[i] == cs[i]; }
  }

  // ---- What is emitted ----

  /** References to the columns of the list, in order. */
  ghost predicate RefersTo(refs: seq<ColumnRef>, alias: string, outs: seq<OutColumn>, depth: int) {
    && |refs| == |outs|
    && forall i :: 0 <= i < |outs| ==>
         && Nameable(outs[i]) && refs[i].table == alias && refs[i].column == StoredColumn(outs[i]).alias.name
         && refs[i].typ == outs[i].typ && refs[i].depth == depth
  }

  ghost predicate RefersAt(refs: seq<ColumnRef>, p: nat, alias: string, outs: seq<OutColumn>, depth: int) {
    p + |outs| <= |refs| && RefersTo(refs[p..p + |outs|], alias, outs, depth)
  }

  /** SELECT * emits the columns of such a derived table in one piece and in order. */
  lemma {:induction false} DerivedStarKeepsList(
    s: Scope, depth: int, refs: seq<ColumnRef>, alias: string, outs: seq<OutColumn>)
    requires Listed(s) && Expansion(s, depth, refs) && alias in s.nested
    requires StoredAs(NestedColumns(outs), s.nested[alias]) && KeepsOrder(outs)
    ensures exists p: nat :: RefersAt(refs, p, alias, outs, depth)
  {
    var blocks: seq<Block> :| BlocksOf(s.nested, s.nested.Keys, blocks) &&
                              refs == RegularAll(s, s.list, None, depth) + NestedAll(blocks, depth);
    var k := BlockOf(s.nested, blocks, alias);
    DerivedListIff(outs);
    DerivedWithin(RegularAll(s, s.list, None, depth), blocks, k, outs, depth);
  }

  lemma {:induction false} DerivedWithin(
    u: seq<ColumnRef>, blocks: seq<Block>, k: nat, outs: seq<OutColumn>, depth: int)
    requires k < |blocks| && IsList(outs, blocks[k].columns)
    ensures exists p: nat :: RefersAt(u + NestedAll(blocks, depth), p, blocks[k].alias, outs, depth)
  {
    var v := NestedAll(blocks, depth);
    var p := BlockAt(blocks, depth, k);
    assert RefersTo(BlockRefs(blocks[k], depth), blocks[k].alias, outs, depth);
    assert (u + v)[|u| + p..|u| + p + |outs|] == v[p..p + |outs|];
    assert RefersAt(u + v, |u| + p, blocks[k].alias, outs, depth);
  }
}
