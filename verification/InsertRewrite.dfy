/** INSERT: Visit(InsertStatement) and ValidateAndCorrectInsertValues of
    src/binder/bind_node_visitor.cpp, which bring every row into the order of the
    schema and fill in what was left out.
 */
module InsertRewrite {
  import opened Basics
  import opened SqlTypes

  /** An expression in a row, as far as it matters here: the keyword DEFAULT, a NULL of
      some type, a cast, and all others. */
  datatype Value = Default | Null(typ: TypeId) | Cast(typ: TypeId, child: Value) | Plain(id: nat, typ: TypeId)

  function ReturnType(v: Value): (t: TypeId) {
    if v.Default? then INVALID else v.typ
  }

  datatype SchemaColumn = SchemaColumn(name: string, typ: TypeId, stored: Value, nullable: bool)

  /** What visiting a value makes of it, given the type that is wanted: promotion of
      constants, binding of column references. */
  type Accept = (TypeId, Value) -> Result<Value>

  /** std::find: the first position. */
  function Find(columns: seq<string>, name: string): (r: Option<nat>)
    ensures r.Some? ==> r.value < |columns| && columns[r.value] == name
  {
    if columns == [] then None
    else if columns[0] == name then Some(0)
    else var r := Find(columns[1..], name); if r.None? then None else Some(r.value + 1)
  }

  lemma {:induction false} FindIsFirst(columns: seq<string>, name: string, j: nat)
    requires j < |columns| && columns[j] == name
    ensures Find(columns, name).Some? && Find(columns, name).value <= j
    decreases |columns|
  {
    if columns[0] != name { FindIsFirst(columns[1..], name, j - 1); }
  }

  /** All results, or the first exception. */
  function All(rs: seq<Result<Value>>): (r: Result<seq<Value>>) {
    if rs == [] then Ok([])
    else if rs[0].Throw? then Throw(rs[0].error)
    else
      var rest := All(rs[1..]);
      if rest.Throw? then rest else Ok([rs[0].value] + rest.value)
  }

  lemma {:induction false} AllIff(rs: seq<Result<Value>>)
    ensures All(rs).Ok? <==> forall i :: 0 <= i < |rs| ==> rs[i].Ok?
    ensures All(rs).Ok? ==> |All(rs).value| == |rs| && forall i :: 0 <= i < |rs| ==> rs[i] == Ok(All(rs).value[i])
    decreases |rs|
  {
    if rs != [] {
      AllIff(rs[1..]);
      assert forall i :: 0 < i < |rs| ==> rs[i] == rs[1..][i - 1];
    }
  }

  lemma {:induction false} AllThrows(rs: seq<Result<Value>>, i: nat)
    requires i < |rs| && rs[i].Throw? && forall j :: 0 <= j < i ==> rs[j].Ok?
    ensures All(rs) == Throw(rs[i].error)
    decreases |rs|
  {
    if i > 0 { AllThrows(rs[1..], i - 1); }
  }

  /** The value for one column of the schema, when columns are listed. */
  function Given(c: SchemaColumn, columns: seq<string>, values: seq<Value>): (r: Result<Value>)
    requires |columns| == |values|
  {
    var k := Find(columns, c.name);
    if k.Some? then Ok(values[k.value])
    else if c.stored != Null(c.typ) then Ok(c.stored)
    else if c.nullable then Ok(Null(c.typ))
    else Throw(SyntaxError)
  }

  function GivenAll(schema: seq<SchemaColumn>, columns: seq<string>, values: seq<Value>): (rs: seq<Result<Value>>)
    requires |columns| == |values|
    ensures |rs| == |schema|
  {
    seq(|schema|, i requires 0 <= i < |schema| => Given(schema[i], columns, values))
  }

  /** The row in the order of the schema. */
  function Arranged(schema: seq<SchemaColumn>, columns: seq<string>, values: seq<Value>): (r: Result<seq<Value>>)
    ensures r.Ok? && columns == [] ==> |r.value| == |schema|
  {
    if columns == [] then if |values| == |schema| then Ok(values) else Throw(SyntaxError)
    else if |values| != |columns| then Throw(SyntaxError)
    else All(GivenAll(schema, columns, values))
  }

  /** The value that is visited for a column: DEFAULT is replaced, a cast pulled up. The
      type that counts is that of the value before it was replaced. */
  function Corrected(c: SchemaColumn, v: Value): (r: Result<Value>) {
    var w := if v.Default? then c.stored else v;
    if !w.Cast? then Ok(w)
    else if ReturnType(v) != c.typ then Throw(NumericValueOutOfRange)
    else Ok(w.child)
  }

  /** The value that is finally stored. */
  function Resolved(c: SchemaColumn, v: Value, accept: Accept): (r: Result<Value>) {
    var w := Corrected(c, v);
    if w.Throw? then w else accept(c.typ, w.value)
  }

  function ResolvedAll(schema: seq<SchemaColumn>, row: seq<Value>, accept: Accept): (rs: seq<Result<Value>>)
    requires |row| == |schema|
    ensures |rs| == |schema|
  {
    seq(|schema|, i requires 0 <= i < |schema| => Resolved(schema[i], row[i], accept))
  }

  lemma {:induction false} ArrangedWidth(schema: seq<SchemaColumn>, columns: seq<string>, values: seq<Value>)
    requires Arranged(schema, columns, values).Ok?
    ensures |Arranged(schema, columns, values).value| == |schema|
  {
    if columns != [] { AllIff(GivenAll(schema, columns, values)); }
  }

  function Rewritten(schema: seq<SchemaColumn>, columns: seq<string>, values: seq<Value>, accept: Accept)
    : (r: Result<seq<Value>>)
  {
    var row := Arranged(schema, columns, values);
    if row.Throw? then row
    else
      ArrangedWidth(schema, columns, values);
      All(ResolvedAll(schema, row.value, accept))
  }

  // ---- Where each value comes from ----

  /** The position in the statement of the value for column `i` of the schema. */
  function Source(schema: seq<SchemaColumn>, columns: seq<string>, i: nat): (k: Option<nat>)
    requires i < |schema|
  {
    if columns == [] then Some(i) else Find(columns, schema[i].name)
  }

  /** A row is accepted exactly if its width is right, every column left out has a stored
      value or is nullable, and every value can be resolved. It is then as wide as the
      schema; each column has the value given for it, else its stored value, else NULL,
      and that only if it is nullable. */
  lemma {:induction false} RewrittenIff(
    schema: seq<SchemaColumn>, columns: seq<string>, values: seq<Value>, accept: Accept)
    ensures Rewritten(schema, columns, values, accept).Ok? <==>
              && |values| == (if columns == [] then |schema| else |columns|)
              && forall i :: 0 <= i < |schema| ==> Filled(schema, columns, values, accept, i).Ok?
    ensures Rewritten(schema, columns, values, accept).Ok? ==>
              && |Rewritten(schema, columns, values, accept).value| == |schema|
              && forall i :: 0 <= i < |schema| ==>
                   Filled(schema, columns, values, accept, i) == Ok(Rewritten(schema, columns, values, accept).value[i])
  {
    if |values| == (if columns == [] then |schema| else |columns|) {
      if columns != [] { AllIff(GivenAll(schema, columns, values)); }
      if Arranged(schema, columns, values).Ok? {
        var row := Arranged(schema, columns, values).value;
        AllIff(ResolvedAll(schema, row, accept));
        forall i | 0 <= i < |schema|
          ensures ResolvedAll(schema, row, accept)[i] == Filled(schema, columns, values, accept, i)
        {
          assert columns != [] ==> GivenAll(schema, columns, values)[i] == Ok(row[i]);
        }
      } else {
        var i :| 0 <= i < |schema| && GivenAll(schema, columns, values)[i].Throw?;
        assert Filled(schema, columns, values, accept, i).Throw?;
      }
    }
  }

  /** What column `i` is to hold, said for that column alone. */
  ghost function Filled(schema: seq<SchemaColumn>, columns: seq<string>, values: seq<Value>, accept: Accept, i: nat)
    : (r: Result<Value>)
    requires i < |schema| && |values| == if columns == [] then |schema| else |columns|
  {
    var c, k := schema[i], Source(schema, columns, i);
    if k.Some? then Resolved(c, values[k.value], accept)
    else if c.stored == Null(c.typ) && !c.nullable then Throw(SyntaxError)
    else Resolved(c, c.stored, accept)
  }

  /** The value visited for column `i`, said for that column alone. */
  ghost function Chosen(schema: seq<SchemaColumn>, columns: seq<string>, values: seq<Value>, i: nat): (r: Result<Value>)
    requires i < |schema| && |values| == if columns == [] then |schema| else |columns|
  {
    var c, k := schema[i], Source(schema, columns, i);
    if k.Some? then Corrected(c, values[k.value])
    else if c.stored == Null(c.typ) && !c.nullable then Throw(SyntaxError)
    else Corrected(c, c.stored)
  }

  /** A cast of a NULL to type `t`. */
  predicate CastOfNull(v: Value, t: TypeId) {
    v.Cast? && v.typ == t && v.child.Null?
  }

  /** Exactly when a NULL passes for a column, nullable or not: one was given, plain or cast
      to the column's type; or DEFAULT was given and a NULL is stored; or the column was
      left out, and the stored value is a NULL that is allowed, a NULL of another type, or
      a cast of a NULL. */
  lemma {:induction false} NullPassesIff(schema: seq<SchemaColumn>, columns: seq<string>, values: seq<Value>, i: nat)
    requires i < |schema| && |values| == if columns == [] then |schema| else |columns|
    ensures var c, k, w := schema[i], Source(schema, columns, i), Chosen(schema, columns, values, i);
            w.Ok? && w.value.Null? <==>
              if k.None? then (c.stored.Null? && (c.nullable || c.stored.typ != c.typ)) || CastOfNull(c.stored, c.typ)
              else
                var v := values[k.value];
                || v.Null? || CastOfNull(v, c.typ)
                || (v.Default? && (c.stored.Null? || (c.typ == INVALID && c.stored.Cast? && c.stored.child.Null?)))
    ensures forall accept :: Filled(schema, columns, values, accept, i) ==
              var w := Chosen(schema, columns, values, i); if w.Throw? then w else accept(schema[i].typ, w.value)
  {
  }

  /** What a row that is accepted holds in column `i`: what visiting makes of the value given
      for it, of the child if that is a cast, which is then to the type of the column; or
      of the stored value, or its child, for DEFAULT and for a column that was left out. */
  lemma {:induction false} InsertedValue(
    schema: seq<SchemaColumn>, columns: seq<string>, values: seq<Value>, accept: Accept, i: nat)
    requires Rewritten(schema, columns, values, accept).Ok? && i < |schema|
    ensures |values| == (if columns == [] then |schema| else |columns|)
    ensures |Rewritten(schema, columns, values, accept).value| == |schema|
    ensures var c, k := schema[i], Source(schema, columns, i);
            var result := Ok(Rewritten(schema, columns, values, accept).value[i]);
            && (k.Some? && (values[k.value].Plain? || values[k.value].Null?) ==>
                  result == accept(c.typ, values[k.value]))
            && (k.Some? && values[k.value].Cast? ==>
                  values[k.value].typ == c.typ && result == accept(c.typ, values[k.value].child))
            && (k.Some? && values[k.value].Default? && !c.stored.Cast? ==> result == accept(c.typ, c.stored))
            && (k.None? && !c.stored.Cast? ==> result == accept(c.typ, c.stored))
            && (k.None? && c.stored.Cast? ==> c.stored.typ == c.typ && result == accept(c.typ, c.stored.child))
  {
    RewrittenIff(schema, columns, values, accept);
    assert Filled(schema, columns, values, accept, i) == Ok(Rewritten(schema, columns, values, accept).value[i]);
  }

  /** A cast to another type than that of its column is refused, whatever it is a cast of. */
  lemma {:induction false} WrongCastRefused(
    schema: seq<SchemaColumn>, columns: seq<string>, values: seq<Value>, accept: Accept, i: nat, k: nat)
    requires i < |schema| && Source(schema, columns, i) == Some(k) && k < |values|
    requires values[k].Cast? && values[k].typ != schema[i].typ
    ensures Rewritten(schema, columns, values, accept).Throw?
  {
    if Rewritten(schema, columns, values, accept).Ok? { InsertedValue(schema, columns, values, accept, i); }
  }

  // ---- Conservation ----

  ghost predicate DistinctNames(schema: seq<SchemaColumn>) {
    forall i, j :: 0 <= i < j < |schema| ==> schema[i].name != schema[j].name
  }

  ghost predicate Distinct(columns: seq<string>) {
    forall i, j :: 0 <= i < j < |columns| ==> columns[i] != columns[j]
  }

  predicate InSchema(schema: seq<SchemaColumn>, name: string) {
    exists i :: 0 <= i < |schema| && schema[i].name == name
  }

  ghost predicate Exist(schema: seq<SchemaColumn>, columns: seq<string>) {
    forall k :: 0 <= k < |columns| ==> InSchema(schema, columns[k])
  }

  /** Value `k` of the statement goes to exactly one column, the one it is meant for. */
  ghost predicate Placed(schema: seq<SchemaColumn>, columns: seq<string>, k: nat) {
    exists i :: 0 <= i < |schema| && PlacedAt(schema, columns, k, i)
  }

  ghost predicate PlacedAt(schema: seq<SchemaColumn>, columns: seq<string>, k: nat, i: nat)
    requires i < |schema|
  {
    && Source(schema, columns, i) == Some(k)
    && (columns != [] ==> k < |columns| && columns[k] == schema[i].name)
    && forall j :: 0 <= j < |schema| && j != i ==> Source(schema, columns, j) != Some(k)
  }

  /** A listed column's value is used exactly if the column is not listed before. */
  lemma {:induction false} PlacedIffFirst(schema: seq<SchemaColumn>, columns: seq<string>, k: nat)
    requires DistinctNames(schema) && k < |columns| && InSchema(schema, columns[k])
    ensures Placed(schema, columns, k) <==> forall j :: 0 <= j < k ==> columns[j] != columns[k]
  {
    if forall j :: 0 <= j < k ==> columns[j] != columns[k] {
      var i :| 0 <= i < |schema| && schema[i].name == columns[k];
      FindIsFirst(columns, columns[k], k);
      assert PlacedAt(schema, columns, k, i);
    } else {
      var j :| 0 <= j < k && columns[j] == columns[k];
      forall i | 0 <= i < |schema| ensures !PlacedAt(schema, columns, k, i) {
        if schema[i].name == columns[k] { FindIsFirst(columns, columns[k], j); }
      }
    }
  }

  /** No value given in the statement is lost or used twice exactly if no column is
      listed twice. */
  lemma {:induction false} Conservation(schema: seq<SchemaColumn>, columns: seq<string>, values: seq<Value>)
    requires DistinctNames(schema) && Exist(schema, columns)
    requires |values| == if columns == [] then |schema| else |columns|
    ensures (forall k :: 0 <= k < |values| ==> Placed(schema, columns, k)) <==> Distinct(columns)
  {
    if columns == [] {
      forall k | 0 <= k < |values| ensures Placed(schema, columns, k) { assert PlacedAt(schema, columns, k, k); }
    } else {
      forall k | 0 <= k < |columns|
        ensures Placed(schema, columns, k) <==> forall j :: 0 <= j < k ==> columns[j] != columns[k]
      {
        PlacedIffFirst(schema, columns, k);
      }
    }
  }

  /** INSERT INTO t (a, a) VALUES (x, y) drops y without complaint. */
  lemma {:induction false} RepeatedColumnDrops(c: SchemaColumn, x: Value, y: Value, accept: Accept)
    ensures Rewritten([c], [c.name, c.name], [x, y], accept) == Rewritten([c], [], [x], accept)
  {
    var rs := GivenAll([c], [c.name, c.name], [x, y]);
    assert rs == [Ok(x)];
    AllIff(rs);
    assert All(rs).value == [x];
  }

  // ---- Rewriting again ----

  function Names(schema: seq<SchemaColumn>): (names: seq<string>)
    ensures |names| == |schema|
  {
    seq(|schema|, i requires 0 <= i < |schema| => schema[i].name)
  }

  /** With the full list of columns, which the statement has afterwards, a row stays as
      it is. */
  lemma {:induction false} ArrangedAgain(schema: seq<SchemaColumn>, row: seq<Value>)
    requires DistinctNames(schema) && |row| == |schema|
    ensures Arranged(schema, Names(schema), row) == Ok(row)
  {
    if schema != [] {
      var rs := GivenAll(schema, Names(schema), row);
      forall i | 0 <= i < |schema| ensures rs[i] == Ok(row[i]) {
        FindIsFirst(Names(schema), schema[i].name, i);
      }
      AllIff(rs);
      assert All(rs).value == row;
    }
  }

  /** Visiting leaves alone what it has produced. */
  ghost predicate Idempotent(accept: Accept) {
    forall t, v :: accept(t, v).Ok? ==>
      !accept(t, v).value.Default? && !accept(t, v).value.Cast? && accept(t, accept(t, v).value) == accept(t, v)
  }

  /** Binding the statement again, as a prepared one is, changes nothing. */
  lemma {:induction false} RewrittenAgain(
    schema: seq<SchemaColumn>, columns: seq<string>, values: seq<Value>, accept: Accept)
    requires DistinctNames(schema) && Idempotent(accept)
    requires Rewritten(schema, columns, values, accept).Ok?
    ensures var row := Rewritten(schema, columns, values, accept).value;
            Rewritten(schema, Names(schema), row, accept) == Ok(row)
  {
    var row := Rewritten(schema, columns, values, accept).value;
    RewrittenIff(schema, columns, values, accept);
    ArrangedAgain(schema, row);
    var rs := ResolvedAll(schema, row, accept);
    forall i | 0 <= i < |schema| ensures rs[i] == Ok(row[i]) {
      ResolvedStays(schema, columns, values, accept, i);
    }
    AllIff(rs);
    assert All(rs).value == row;
  }

  lemma {:induction false} ResolvedStays(
    schema: seq<SchemaColumn>, columns: seq<string>, values: seq<Value>, accept: Accept, i: nat)
    requires Idempotent(accept) && i < |schema| && |values| == if columns == [] then |schema| else |columns|
    requires Filled(schema, columns, values, accept, i).Ok?
    ensures var v := Filled(schema, columns, values, accept, i).value;
            Resolved(schema[i], v, accept) == Ok(v)
  {
  }

  // ---- DEFAULT ----

  /** DEFAULT for a column is the same as leaving the column out, except for a column
      that must not be NULL and has no stored value, where DEFAULT lets a NULL pass, and
      for a stored value that is a cast of the column's type, where DEFAULT is refused. */
  lemma {:induction false} DefaultIsOmission(
    schema: seq<SchemaColumn>, i: nat, accept: Accept,
    columns: seq<string>, values: seq<Value>, columns': seq<string>, values': seq<Value>)
    requires i < |schema| && schema[i].typ != INVALID
    requires |values| == if columns == [] then |schema| else |columns|
    requires |values'| == if columns' == [] then |schema| else |columns'|
    requires Source(schema, columns, i).Some? && values[Source(schema, columns, i).value] == Default
    requires Source(schema, columns', i).None?
    ensures var c := schema[i];
            var explicit := Filled(schema, columns, values, accept, i);
            var omitted := Filled(schema, columns', values', accept, i);
            if c.stored == Null(c.typ) && !c.nullable then
              omitted == Throw(SyntaxError) && explicit == accept(c.typ, c.stored)
            else if c.stored.Cast? && c.stored.typ == c.typ then
              explicit == Throw(NumericValueOutOfRange) && omitted == accept(c.typ, c.stored.child)
            else
              explicit == omitted
  {
  }

  // ---- The statement ----

  /** Row `i` is the first that is refused. */
  ghost predicate FailsAt(schema: seq<SchemaColumn>, columns: seq<string>, rows: seq<seq<Value>>, accept: Accept,
                          i: nat, error: BinderError)
    requires i < |rows|
  {
    && Rewritten(schema, columns, rows[i], accept) == Throw(error)
    && forall j :: 0 <= j < i ==> Rewritten(schema, columns, rows[j], accept).Ok?
  }

  class InsertStatement {
    var insertColumns: seq<string>
    var values: seq<seq<Value>>

    constructor (columns: seq<string>, rows: seq<seq<Value>>)
      ensures insertColumns == columns && values == rows
    {
      insertColumns, values := columns, rows;
    }

    /** Visit(InsertStatement) with rows, once the table has been found. */
    method Visit(schema: seq<SchemaColumn>, accept: Accept) returns (r: Result<()>)
      modifies this
      ensures !Exist(schema, old(insertColumns)) ==> r == Throw(UndefinedColumn)
      ensures r.Ok? ==>
                && insertColumns == Names(schema) && |values| == |old(values)|
                && forall i :: 0 <= i < |values| ==>
                     Rewritten(schema, old(insertColumns), old(values)[i], accept) == Ok(values[i])
      ensures r.Throw? && Exist(schema, old(insertColumns)) ==>
                exists i :: 0 <= i < |old(values)| &&
                            FailsAt(schema, old(insertColumns), old(values), accept, i, r.error)
    {
      for k := 0 to |insertColumns|
        invariant forall j :: 0 <= j < k ==> InSchema(schema, insertColumns[j])
      {
        if !InSchema(schema, insertColumns[k]) { return Throw(UndefinedColumn); }
      }
      for i := 0 to |values|
        invariant |values| == |old(values)| && insertColumns == old(insertColumns)
        invariant forall j :: i <= j < |values| ==> values[j] == old(values)[j]
        invariant forall j :: 0 <= j < i ==> Rewritten(schema, insertColumns, old(values)[j], accept) == Ok(values[j])
      {
        var row := ValidateAndCorrectInsertValues(insertColumns, values[i], schema, accept);
        if row.Throw? {
          assert FailsAt(schema, insertColumns, old(values), accept, i, row.error);
          return Throw(row.error);
        }
        values := values[i := row.value];
      }
      insertColumns := [];
      ghost var rows := values;
      for i := 0 to |schema|
        invariant insertColumns == Names(schema)[..i]
        invariant values == rows
      {
        insertColumns := insertColumns + [schema[i].name];
      }
      return Ok(());
    }
  }

  method ValidateAndCorrectInsertValues(
    columns: seq<string>, values: seq<Value>, schema: seq<SchemaColumn>, accept: Accept)
    returns (r: Result<seq<Value>>)
    ensures r == Rewritten(schema, columns, values, accept)
  {
    if !((columns != [] && |values| == |columns|) || (columns == [] && |values| == |schema|)) {
      return Throw(SyntaxError);
    }
    var row := values;
    if columns != [] {
      var arranged := Arrange(columns, values, schema);
      if arranged.Throw? { return arranged; }
      row := arranged.value;
    }
    ArrangedWidth(schema, columns, values);
    r := Correct(schema, row, accept);
  }

  method Arrange(columns: seq<string>, values: seq<Value>, schema: seq<SchemaColumn>) returns (r: Result<seq<Value>>)
    requires columns != [] && |values| == |columns|
    ensures r == Arranged(schema, columns, values)
  {
    ghost var rs := GivenAll(schema, columns, values);
    var cols := [];
    for i := 0 to |schema|
      invariant |cols| == i && forall j :: 0 <= j < i ==> rs[j] == Ok(cols[j])
    {
      var c, index := schema[i], Find(columns, schema[i].name);
      if index.Some? {
        cols := cols + [values[index.value]];
      } else if c.stored != Null(c.typ) {
        cols := cols + [c.stored];
      } else if c.nullable {
        cols := cols + [Null(c.typ)];
      } else {
        AllThrows(rs, i);
        return Throw(SyntaxError);
      }
    }
    AllIff(rs);
    assert All(rs).value == cols;
    return Ok(cols);
  }

  method Correct(schema: seq<SchemaColumn>, row: seq<Value>, accept: Accept) returns (r: Result<seq<Value>>)
    requires |row| == |schema|
    ensures r == All(ResolvedAll(schema, row, accept))
  {
    ghost var rs := ResolvedAll(schema, row, accept);
    var values := row;
    for i := 0 to |schema|
      invariant |values| == |schema|
      invariant forall j :: i <= j < |schema| ==> values[j] == row[j]
      invariant forall j :: 0 <= j < i ==> rs[j] == Ok(values[j])
    {
      var expected, insVal := schema[i].typ, row[i];
      var retType := ReturnType(insVal);
      if insVal.Default? { insVal := schema[i].stored; }
      if insVal.Cast? {
        if retType != expected {
          AllThrows(rs, i);
          return Throw(NumericValueOutOfRange);
        }
        insVal := insVal.child;
      }
      var bound := accept(expected, insVal);
      if bound.Throw? {
        AllThrows(rs, i);
        return Throw(bound.error);
      }
      values := values[i := bound.value];
    }
    AllIff(rs);
    assert All(rs).value == values;
    return Ok(values);
  }
}
