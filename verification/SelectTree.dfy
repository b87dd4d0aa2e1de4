/** The parse tree of a SELECT as the visits of src/binder/bind_node_visitor.cpp walk it,
    and which CTE names a visit of it announces.
 */
module SelectTree {
  import opened Basics
  import opened SqlTypes

  /** Comparisons and conjunctions visit their children twice. A column is what the parser
      wrote, or what earlier visits made of it. */
  datatype Expr =
    | ColumnValue(ref: ColumnRef)
    | Operator(children: seq<Expr>, twice: bool)
    | Subquery(select: Select)

  /** An element of a select list. `alias` is empty if there is none; `serial` is the number
      that the parser gives to an alias. Name and type are those of an expression that is
      not a column. */
  datatype Item =
    | Star(target: Option<string>)
    | Element(expr: Expr, alias: string, serial: nat, name: string, typ: TypeId)

  datatype TableRef =
    | Named(name: string, alias: string)
    | Derived(alias: string, select: Select)
    | Join(left: TableRef, right: TableRef, on: Expr)
    | Tables(list: seq<TableRef>)

  datatype Cte = WithEntry(alias: string, names: seq<string>, select: Select, recursive: bool)

  /** `conditions` are those of WHERE, LIMIT, GROUP BY and HAVING. */
  datatype Select = Select(id: nat, ctes: seq<Cte>, from: Option<TableRef>, conditions: seq<Expr>, items: seq<Item>,
                           union: Option<Select>, orderBy: seq<Expr>)

  // ---- Which CTE names a visit announces ----

  type Names = set<string>

  function SelectNames(s: Select): (ns: Names)
    decreases s, 4
  {
    SourceNames(s) + QueryNames(s)
  }

  function SourceNames(s: Select): (ns: Names)
    decreases s, 1
  {
    CtesNames(s.ctes) + FromNames(s)
  }

  function FromNames(s: Select): (ns: Names)
    decreases s, 0
  {
    if s.from.Some? then TableNames(s.from.value) else {}
  }

  function QueryNames(s: Select): (ns: Names)
    decreases s, 3
  {
    ListNames(s) + RestNames(s)
  }

  function ListNames(s: Select): (ns: Names)
    decreases s, 0
  {
    ExprsNames(s.conditions) + ItemsNames(s.items)
  }

  function RestNames(s: Select): (ns: Names)
    decreases s, 2
  {
    UnionNames(s) + ExprsNames(s.orderBy)
  }

  function UnionNames(s: Select): (ns: Names)
    decreases s, 0
  {
    if s.union.Some? then SelectNames(s.union.value) else {}
  }

  function CtesNames(cs: seq<Cte>): (ns: Names)
    decreases cs
  {
    if cs == [] then {} else CtesNames(Front(cs)) + CteNames(Last(cs))
  }

  function CteNames(c: Cte): (ns: Names)
    decreases c, 1
  {
    {c.alias} + SelectNames(c.select)
  }

  function TableNames(t: TableRef): (ns: Names)
    decreases t
  {
    match t
    case Named(_, _) => {}
    case Derived(_, s) => SelectNames(s)
    case Join(l, r, on) => TableNames(l) + TableNames(r) + ExprNames(on)
    case Tables(list) => TablesNames(list)
  }

  function TablesNames(ts: seq<TableRef>): (ns: Names)
    decreases ts
  {
    if ts == [] then {} else TablesNames(Front(ts)) + TableNames(Last(ts))
  }

  function ExprNames(e: Expr): (ns: Names)
    decreases e
  {
    match e
    case ColumnValue(_) => {}
    case Operator(children, _) => ExprsNames(children)
    case Subquery(s) => SelectNames(s)
  }

  function ExprsNames(es: seq<Expr>): (ns: Names)
    decreases es
  {
    if es == [] then {} else ExprsNames(Front(es)) + ExprNames(Last(es))
  }

  function ItemsNames(items: seq<Item>): (ns: Names)
    decreases items
  {
    if items == [] then {} else ItemsNames(Front(items)) + ItemNames(Last(items))
  }

  function ItemNames(item: Item): (ns: Names)
    decreases item
  {
    if item.Star? then {} else ExprNames(item.expr)
  }

  /** What is visited of a CTE before it is registered: its select, or its base case. */
  function CteSource(c: Cte): (s: Option<Select>) {
    if c.recursive then c.select.union else Some(c.select)
  }

  function CteSourceNames(c: Cte): (ns: Names) {
    if CteSource(c).Some? then SelectNames(CteSource(c).value) else {}
  }

  lemma {:induction false} SourceNamesWithin(c: Cte)
    ensures CteSourceNames(c) <= SelectNames(c.select)
  {
    var s := c.select;
    if c.recursive && s.union.Some? {
      assert UnionNames(s) == SelectNames(s.union.value);
      assert UnionNames(s) <= RestNames(s) <= QueryNames(s) <= SelectNames(s);
    }
  }
}
