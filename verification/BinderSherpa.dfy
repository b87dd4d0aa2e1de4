/** BinderSherpa of src/binder/binder_sherpa.cpp, the record of types by expression, and
    the visits of src/binder/bind_node_visitor.cpp that use it. They are proved against
    the functions of TypeConstraints.
 */
module BinderSherpa {
  import opened Basics
  import opened SqlTypes
  import opened Scope
  import opened ColumnBinding
  import opened TypeConstraints
  import opened BinderContext

  /** A comparison or a conjunction, as a key of the record. Its return type is BOOLEAN. */
  class BooleanExpression {
    constructor () {
    }
  }

  /** Nothing else on record has changed. */
  ghost predicate OthersKept(before: map<object, TypeId>, after: map<object, TypeId>, exprs: set<object>) {
    && (forall k :: k in before && k !in exprs ==> k in after && after[k] == before[k])
    && (forall k :: k in after && k !in exprs ==> k in before)
  }

  class BinderSherpa {
    var desiredExprTypes: map<object, TypeId>

    constructor ()
      ensures desiredExprTypes == map[]
    {
      desiredExprTypes := map[];
    }

    function Recorded(expr: object): (t: Option<TypeId>)
      reads this
    {
      if expr in desiredExprTypes then Some(desiredExprTypes[expr]) else None
    }

    /** An expression as an operand. */
    function Of(expr: ColumnValueExpression): (o: Operand)
      reads this, expr
    {
      Operand(expr.Value(), Recorded(expr))
    }

    function OfAll(exprs: seq<ColumnValueExpression>): (os: seq<Operand>)
      reads this, exprs
      ensures |os| == |exprs| && forall i :: 0 <= i < |exprs| ==> os[i] == Of(exprs[i])
    {
      seq(|exprs|, i requires 0 <= i < |exprs| reads this, exprs => Of(exprs[i]))
    }

    function GetDesiredType(expr: ColumnValueExpression): (t: TypeId)
      reads this, expr
    {
      if expr in desiredExprTypes then desiredExprTypes[expr] else expr.returnValueType
    }

    method SetDesiredType(expr: object, t: TypeId)
      modifies this
      ensures desiredExprTypes == old(desiredExprTypes)[expr := t]
    {
      desiredExprTypes := desiredExprTypes[expr := t];
    }

    method SetDesiredTypePair(left: ColumnValueExpression, right: ColumnValueExpression)
      requires left != right
      modifies this
      ensures (Of(left), Of(right)) == Paired(old(Of(left)), old(Of(right)))
      ensures OthersKept(old(desiredExprTypes), desiredExprTypes, {left, right})
    {
      var leftType, rightType, hasConstraints := INVALID, INVALID, false;
      if left in desiredExprTypes { leftType, hasConstraints := desiredExprTypes[left], true; }
      if right in desiredExprTypes { rightType, hasConstraints := desiredExprTypes[right], true; }
      if !hasConstraints { leftType, rightType := left.returnValueType, right.returnValueType; }
      if leftType != rightType {
        if rightType != INVALID && (leftType == INVALID || leftType == VARCHAR || leftType == INTEGER) {
          SetDesiredType(left, rightType);
        }
        if leftType != INVALID && (rightType == INVALID || rightType == VARCHAR || rightType == INTEGER) {
          SetDesiredType(right, leftType);
        }
      }
    }

    /** CheckDesiredType of an expression of that return type. */
    method CheckDesiredType(expr: object, returnType: TypeId) returns (r: Result<()>)
      ensures r == if Recorded(expr) in {None, Some(returnType)} then Ok(()) else Throw(SyntaxError)
    {
      if expr in desiredExprTypes && desiredExprTypes[expr] != returnType { return Throw(SyntaxError); }
      return Ok(());
    }
  }

  /** The scopes a visitor sees: none before a statement has opened one. */
  ghost function ScopesOf(context: BinderContext?): (chain: Chain)
    reads context, if context == null then [] else context.above
  {
    if context == null then [] else context.Scopes()
  }

  /** The part of Visit(ColumnValueExpression) that looks the column up. */
  method BindColumn(context: BinderContext?, expr: ColumnValueExpression) returns (r: Result<()>)
    requires context != null ==> context.Linked()
    modifies expr
    ensures r.Ok? ==> Bind(ScopesOf(context), old(expr.Value())) == Ok(expr.Value())
    ensures r.Throw? ==> Bind(ScopesOf(context), old(expr.Value())) == Throw(r.error)
  {
    if expr.tableOid != INVALID_OID { return Ok(()); }
    if expr.tableName == "" && expr.columnName == "" && expr.columnOid != INVALID_OID { return Throw(UndefinedColumn); }
    var tableName, colName := Lower(expr.tableName), Lower(expr.columnName);
    if tableName == "" {
      if context == null { return Throw(UndefinedColumn); }
      var found := context.SetColumnPosTuple(expr);
      if found.Throw? { return Throw(found.error); }
      if !found.value { return Throw(UndefinedColumn); }
      return Ok(());
    }
    assert expr.tableName != "";
    if context == null { return Throw(UndefinedTable); }
    r := BindColumnOf(context, tableName, colName, expr);
  }

  /** The case that a table name is present. */
  method BindColumnOf(context: BinderContext, tableName: string, colName: string, expr: ColumnValueExpression)
    returns (r: Result<()>)
    requires context.Linked()
    modifies expr
    ensures var bound := BindQualified(context.Scopes(), old(expr.Value()), tableName, colName);
            bound == if r.Throw? then Throw(r.error) else Ok(expr.Value())
  {
    ghost var e, chain := expr.Value(), context.Scopes();
    var table := context.GetRegularTableObj(tableName, expr);
    assert context.Scopes() == chain;
    if table.Some? {
      if !ColumnInSchema(table.value.schema, colName) { return Throw(UndefinedColumn); }
      expr.SetColumnPosTuple(colName, table.value);
      return Ok(());
    }
    var found := context.CheckNestedTableColumn(tableName, colName, expr);
    if found.Throw? { return Throw(found.error); }
    if !found.value { return Throw(UndefinedTable); }
    return Ok(());
  }

  method VisitColumnValue(
    sherpa: BinderSherpa, context: BinderContext?, ghost bind: Binding, expr: ColumnValueExpression)
    returns (r: Result<()>)
    requires context != null ==> context.Linked()
    requires Describes(bind, ScopesOf(context))
    modifies sherpa, expr
    ensures r.Ok? ==> Visited(bind, old(sherpa.Of(expr))) == Ok(sherpa.Of(expr))
    ensures r.Throw? ==> Visited(bind, old(sherpa.Of(expr))) == Throw(r.error)
    ensures OthersKept(old(sherpa.desiredExprTypes), sherpa.desiredExprTypes, {expr})
  {
    ghost var chain := ScopesOf(context);
    var desiredType := sherpa.GetDesiredType(expr);
    r := BindColumn(context, expr);
    if r.Throw? { return; }
    assert ScopesOf(context) == chain;
    desiredType := if desiredType == INVALID then expr.returnValueType else desiredType;
    sherpa.SetDesiredType(expr, desiredType);
    r := sherpa.CheckDesiredType(expr, expr.returnValueType);
  }

  method VisitBoth(
    sherpa: BinderSherpa, context: BinderContext?, ghost bind: Binding,
    left: ColumnValueExpression, right: ColumnValueExpression)
    returns (r: Result<()>)
    requires context != null ==> context.Linked()
    requires Describes(bind, ScopesOf(context))
    requires left != right
    modifies sherpa, left, right
    ensures VisitedBoth(bind, old(sherpa.Of(left)), old(sherpa.Of(right))) ==
            if r.Throw? then Throw(r.error) else Ok((sherpa.Of(left), sherpa.Of(right)))
    ensures OthersKept(old(sherpa.desiredExprTypes), sherpa.desiredExprTypes, {left, right})
  {
    r := VisitColumnValue(sherpa, context, bind, left);
    if r.Throw? { return; }
    assert ScopesOf(context) == old(ScopesOf(context)) && sherpa.Of(right) == old(sherpa.Of(right));
    r := VisitColumnValue(sherpa, context, bind, right);
  }

  method Constrain(sherpa: BinderSherpa, context: BinderContext?, ghost bind: Binding, expr: BooleanExpression,
                   left: ColumnValueExpression, right: ColumnValueExpression)
    returns (r: Result<()>)
    requires context != null ==> context.Linked()
    requires Describes(bind, ScopesOf(context))
    requires left != right
    modifies sherpa, left, right
    ensures Constrained(bind, old(sherpa.Recorded(expr)), old(sherpa.Of(left)), old(sherpa.Of(right))) ==
            if r.Throw? then Throw(r.error) else Ok((sherpa.Of(left), sherpa.Of(right)))
    ensures OthersKept(old(sherpa.desiredExprTypes), sherpa.desiredExprTypes, {left, right})
  {
    ghost var chain, own, l, r0 := ScopesOf(context), sherpa.Recorded(expr), sherpa.Of(left), sherpa.Of(right);
    r := VisitBoth(sherpa, context, bind, left, right);
    if r.Throw? { return; }
    ConstrainedIs(bind, own, l, r0, sherpa.Of(left), sherpa.Of(right));
    assert sherpa.Recorded(expr) == own by { assert expr !in {left as object, right}; }
    r := sherpa.CheckDesiredType(expr, BOOLEAN);
    if r.Throw? { return; }
    sherpa.SetDesiredTypePair(left, right);
    assert ScopesOf(context) == chain;
  }

  /** Visit(ComparisonExpression) of two column references. */
  method VisitComparison(sherpa: BinderSherpa, context: BinderContext?, ghost bind: Binding, expr: BooleanExpression,
                         left: ColumnValueExpression, right: ColumnValueExpression)
    returns (r: Result<()>)
    requires context != null ==> context.Linked()
    requires Describes(bind, ScopesOf(context))
    requires left != right
    modifies sherpa, left, right
    ensures Compared(bind, old(sherpa.Recorded(expr)), old(sherpa.Of(left)), old(sherpa.Of(right))) ==
            if r.Throw? then Throw(r.error) else Ok((sherpa.Of(left), sherpa.Of(right)))
    ensures OthersKept(old(sherpa.desiredExprTypes), sherpa.desiredExprTypes, {left, right})
  {
    r := Constrain(sherpa, context, bind, expr, left, right);
    if r.Throw? { return; }
    assert ScopesOf(context) == old(ScopesOf(context));
    r := VisitBoth(sherpa, context, bind, left, right);
  }

  ghost predicate Distinct(s: seq<ColumnValueExpression>) {
    forall i, j :: 0 <= i < j < |s| ==> s[i] != s[j]
  }

  /** The children of a conjunction, one after the other. */
  method VisitChildren(
    sherpa: BinderSherpa, context: BinderContext?, ghost bind: Binding, children: seq<ColumnValueExpression>,
    ghost keys: set<object>)
    returns (r: Result<()>)
    requires context != null ==> context.Linked()
    requires Describes(bind, ScopesOf(context))
    requires Distinct(children) && forall c :: c in children ==> c in keys
    modifies sherpa, children
    ensures VisitedAll(bind, old(sherpa.OfAll(children))) ==
            if r.Throw? then Throw(r.error) else Ok(sherpa.OfAll(children))
    ensures OthersKept(old(sherpa.desiredExprTypes), sherpa.desiredExprTypes, keys)
  {
    ghost var chain, os := ScopesOf(context), sherpa.OfAll(children);
    for i := 0 to |children|
      invariant ScopesOf(context) == chain
      invariant forall j :: i <= j < |children| ==> sherpa.Of(children[j]) == os[j]
      invariant forall j :: 0 <= j < i ==> Visited(bind, os[j]) == Ok(sherpa.Of(children[j]))
      invariant OthersKept(old(sherpa.desiredExprTypes), sherpa.desiredExprTypes, keys)
    {
      r := VisitColumnValue(sherpa, context, bind, children[i]);
      if r.Throw? {
        FirstThrow(bind, os, i);
        return;
      }
      assert ScopesOf(context) == chain;
    }
    NoThrow(bind, os, sherpa.OfAll(children));
    return Ok(());
  }

  method SetBooleans(sherpa: BinderSherpa, children: seq<ColumnValueExpression>)
    requires Distinct(children)
    modifies sherpa
    ensures sherpa.OfAll(children) == AsBooleans(old(sherpa.OfAll(children)))
  {
    for i := 0 to |children|
      invariant forall j :: 0 <= j < i ==> sherpa.Recorded(children[j]) == Some(BOOLEAN)
    {
      sherpa.SetDesiredType(children[i], BOOLEAN);
    }
  }

  method ConstrainAll(sherpa: BinderSherpa, context: BinderContext?, ghost bind: Binding, expr: BooleanExpression,
                      children: seq<ColumnValueExpression>, ghost keys: set<object>)
    returns (r: Result<()>)
    requires context != null ==> context.Linked()
    requires Describes(bind, ScopesOf(context))
    requires Distinct(children) && (forall c :: c in children ==> c in keys) && expr !in keys
    modifies sherpa, children
    ensures ConstrainedAll(bind, old(sherpa.Recorded(expr)), old(sherpa.OfAll(children))) ==
            if r.Throw? then Throw(r.error) else Ok(sherpa.OfAll(children))
  {
    ghost var own, os := sherpa.Recorded(expr), sherpa.OfAll(children);
    r := VisitChildren(sherpa, context, bind, children, keys);
    if r.Throw? { return; }
    assert sherpa.Recorded(expr) == own;
    r := sherpa.CheckDesiredType(expr, BOOLEAN);
    if r.Throw? { return; }
    SetBooleans(sherpa, children);
    assert ScopesOf(context) == old(ScopesOf(context));
  }

  /** Visit(ConjunctionExpression) of column references. */
  method VisitConjunction(sherpa: BinderSherpa, context: BinderContext?, ghost bind: Binding, expr: BooleanExpression,
                          children: seq<ColumnValueExpression>)
    returns (r: Result<()>)
    requires context != null ==> context.Linked()
    requires Describes(bind, ScopesOf(context))
    requires Distinct(children)
    modifies sherpa, children
    ensures Conjoined(bind, old(sherpa.Recorded(expr)), old(sherpa.OfAll(children))) ==
            if r.Throw? then Throw(r.error) else Ok(sherpa.OfAll(children))
  {
    ghost var keys: set<object> := set c | c in children;
    assert expr !in keys;
    r := ConstrainAll(sherpa, context, bind, expr, children, keys);
    if r.Throw? { return; }
    assert ScopesOf(context) == old(ScopesOf(context));
    r := VisitChildren(sherpa, context, bind, children, keys);
  }
}
