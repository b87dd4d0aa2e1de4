# Verified model of five algorithms of NoisePage

The project models, in Dafny, the parts of the NoisePage database repository that carry real algorithms and state,
and proves what they promise: the SQL name binder, the bracket matchers and the nesting stack of the bundled
`cpplint.py`, the ticket loop of a benchmark driver, the message protocol of the model server, and the graph utilities.
Mutable objects are classes, loops are loops with invariants, exceptions are results. Wherever the original walks an
unordered container or sorts without a total order, the model picks any order, so every statement holds for all of them.

| file | what it is about |
|---|---|
| `Basics.dfy` | options, and the front and last of a sequence |
| `SqlTypes.dfy` | names, aliases, tables and column references of the binder |
| `Scope.dfy` | scopes as values, what registering a table does to them, what holds of every scope |
| `ColumnBinding.dfy` | what a column reference means in a chain of scopes, and whether it means the same when it is bound again |
| `BinderContext.dfy` | the mutable scope with its pointer to the scope around it, proved against the two before |
| `TypeConstraints.dfy`, `BinderSherpa.dfy` | visit, constrain, visit again: comparisons and conjunctions |
| `StarExpansion.dfy` | `SELECT *` and the order of CTE columns |
| `InsertRewrite.dfy` | INSERT rows brought into schema order |
| `SelectTree.dfy`, `SelectDepths.dfy` | the parse tree of a SELECT; how deep each select in it is, and what the visits write |
| `SelectMeaning.dfy` | what a SELECT means: the scope that WITH and FROM build, and what is bound in it |
| `SelectRefusals.dfy` | when a SELECT can be refused, and with which exception |
| `FromAndStar.dfy` | which tables the scope has, what `SELECT *` makes of them, and which names in FROM mean catalog tables |
| `DerivedTables.dfy` | how the columns of a derived table are stored and sorted |
| `SelectVisitor.dfy` | the visits of selects, CTEs, derived tables, joins, unions and subqueries, proved against meaning and refusals |
| `SelectLists.dfy` | every column mentioned is found; what the columns of a select, a derived table and a CTE are called |
| `Unions.dfy` | when the two sides of a union agree, and with what it is refused |
| `Statements.dfy` | statements with unexpected outcomes, and that every visit of them comes to that |
| `BracketText.dfy`, `ExpressionMatcher.dfy` | matching brackets over many lines, forwards and backwards |
| `AngleBrackets.dfy`, `AnglePairs.dfy` | which `<` and `>` the matchers pair up, and when the directions undo each other |
| `NestingState.dfy`, `IncludeOrder.dfy` | the stack of open blocks around `#if`/`#else`/`#endif`; the order of includes |
| `TicketDispenser.dfy` | threads that take and give back tickets on an atomic counter |
| `Framing.dfy`, `ModelServer.dfy` | message frames; resend until acknowledged |
| `Graph.dfy`, `GraphAlgorithm.dfy`, `TopologicalSort.dfy` | the adjacency map, cycle detection, and the topological sort |

`dafny verify dfyconfig.toml` verifies all of it.

## What turned out not to hold

- **Binding twice.** Comparisons and conjunctions bind their operands twice. An unqualified name that means a column of
  a derived table `t` is looked up by `t` the second time, and all scopes are searched for a regular table `t` first. So
  it can silently move to an outer table (`RebindCanMove`); `RebindIff` says exactly when it does not.
- **Comparisons.** By the same route a comparison of an integer with a string can pass (`ComparedCanMismatch`).
  `AcceptedIff` says for every pair of operands when a comparison passes, and `MismatchIff` when it passes although the
  types do not go together: both unknown at first and different at the second lookup, or a string and an integer that
  trade places. `MismatchInScopesIff` says it of a chain of scopes.
- **Qualified names** follow lexical scope exactly under the condition of `QualifiedIsLexical`, and a bare name means what
  it means with the alias of its table in front exactly under that of `BareIsQualified`.
- **A CTE name once announced** hides the catalog table of that name for the rest of the statement, even where the CTE is
  out of sight. Each visit adds exactly the WITH names of the visited tree to those announced (`VisitSelect`), and a name
  at any place of a FROM clause means the catalog table if and only if it is not among them (`FromTableIff`). So
  `SELECT 3 AS y FROM (WITH t AS (SELECT 1 AS x) SELECT 2 AS x) a, t` is accepted by every visit and registers only `a`,
  though the catalog has a table `t` (`HiddenTable`, `BindHiding`).
- **`SELECT *`** emits the tables of the scope that have columns (`StarEmits`), which are not always those of FROM. A CTE
  that is not in FROM is emitted (`UnusedCteIsEmitted`); a CTE of an enclosing select, in FROM under its own name, is not
  (`StarOfOuterCte`); nor is the derived table of `SELECT * FROM (SELECT 1) a`, whose column has no name and is not
  stored (`NamelessIsNotEmitted`). `StarIsFromIff` has the exact condition, over whatever is emitted. One consequence is
  that `WITH x(i) AS (SELECT 1), y(i) AS (SELECT * FROM x) SELECT * FROM y`, a statement of
  test/binder/cte_dependency_graph_test.cpp:143, is always refused (`StarredCteIsRefused`, `BindStarred`). That test does
  not bind what it parses.
- **The columns of a derived table** come out of `SELECT *` in the order of its select list, and all of them, if and only
  if every column has a name, no two have equal keys, and the serial numbers of the aliases increase (`DerivedListIff`,
  `StarOfDerivedIff`). For a written alias the parser takes the address of the expression as its number
  (src/parser/postgresparser.cpp:247-249), and other columns have none: `SELECT * FROM (SELECT a, b FROM t) d` is accepted
  and may emit `b, a` (`EitherOrder`).
- **INSERT with a column listed twice** drops a value (`RepeatedColumnDrops`, `Conservation`). DEFAULT differs from
  leaving the column out in two cases, one of which lets a NULL into a column that must not be NULL
  (`DefaultIsOmission`); `NullPassesIff` has all ways in which a NULL passes, for nullable columns and for others.
- **Throttled tickets.** With the give-back decrement ids can be left out (`GiveBacksLose`) and others run more than once:
  an id at most as often as there are workers, and at most once more than there are ids before it (`RepetitionBound`),
  and that often in some run (`RepetitionIsSharp`). `ExactlyOnceIff` has the exact condition under which each is run once.
  A slot of `txns` that was never filled is dereferenced afterwards.
- **Frames with negative ids** are rejected by the reader; frames with non-negative ids always come back (`FrameRoundTrip`).
- **TopologicalSort** uses the depth of the search instead of the finishing time, because the time is passed by value
  (`TimesAreDepths`). Its result is in order for every iteration order of the containers only if the graph has no edges
  (`SortedOnlyWithoutEdges`). The repository's own expectations (test/common/graph_algorithm_test.cpp) put the end of every edge first; neither that
  order nor the textbook one is promised.
- The model server compares `(last_sent - now).seconds` with the timeout and never renews `last_sent`; the model lets any
  pending message be sent again at any time.
- **Template brackets.** ` >= ` closes a `<` for `CloseExpression` and is an operator for `ReverseCloseExpression`, so the
  two do not always undo each other (`AngleNotUndone`); `AngleUndoIff` says when they do.
- `SELECT t.*` does not find a derived table `t`; this follows from `GenerateAllColumnExpressions`.

## Model

| member | source | states |
|---|---|---|
| BinderContext.BinderContext.SetColumnPosTuple | src/binder/binder_context.cpp:203-254 | for any iteration order of the maps, an unqualified name is bound as `BindUnqualified` says: in the innermost scope that has a candidate, with that scope's depth if there is one candidate; ambiguous if there are more; false if no scope has one. `BareRegular`, `BareNested` and `BareRefused` spell out every outcome |
| BinderContext.BinderContext.MatchAsScope | src/binder/binder_context.cpp:210-251 | one scope of the search decides what the name means, or has no candidate |
| BinderContext.BinderContext.MatchHere | src/binder/binder_context.cpp:211-250 | one scope: bound if it has exactly one candidate, ambiguous if several, unchanged if none |
| BinderContext.BinderContext.MatchRegular | src/binder/binder_context.cpp:211-225 | the regular tables of a scope in any order: the only candidate, or a throw if there are two; what the reference then holds, the table's alias included, is spelled out by `BareRegular` |
| BinderContext.BinderContext.MatchNested | src/binder/binder_context.cpp:226-246 | the nested tables after them, in any order |
| BinderContext.BinderContext.MatchTable | src/binder/binder_context.cpp:228-245 | one nested table: bound if it is the first match and has the name once, ambiguous otherwise |
| ColumnBinding.DecidedAt | src/binder/binder_context.cpp:203-254 | the innermost scope with a candidate decides: bound to it if it is the only one, else ambiguous |
| ColumnBinding.InnermostIsFirst | src/binder/binder_context.cpp:208-252 | no scope further in than the chosen one has a candidate |
| ColumnBinding.BareRegular | src/binder/binder_context.cpp:203-254 | if no scope further in has the column and in scope k only the regular table `a` has it, the bare name becomes exactly: alias `a`, the first column of the lower-cased name, its database, table and column oid, its type, and the depth of scope k |
| ColumnBinding.BareNested | src/binder/binder_context.cpp:226-254 | the same for a nested table, which knows the name as written: its alias, the lower-cased name, the stored type, an oid made from the serial number, no table oid |
| ColumnBinding.BareRefused | src/binder/bind_node_visitor.cpp:689-693 | a bare name is undefined if and only if no table of any scope has it, and ambiguous if and only if the innermost scope that has it has it in more than one place |
| ColumnBinding.BareIsQualified | src/binder/bind_node_visitor.cpp:689-707 | a bare name means what it means qualified with the table it was found in, if and only if no scope further in has a regular table of that alias |
| ColumnBinding.QualifiedRegular | src/binder/bind_node_visitor.cpp:696-703 | a qualified name is bound to the first column of its name in the nearest regular table of the alias, with everything spelled out, and undefined if that table lacks it |
| ColumnBinding.QualifiedNested | src/binder/binder_context.cpp:272-293 | only if no scope has a regular table of the alias: the same in the nearest nested table |
| SqlTypes.LowerLetters | src/binder/binder_context.cpp:204-206 | `tolower` on a name changes the letters A to Z and nothing else |
| BinderContext.BinderContext.GetRegularTableObj | src/binder/binder_context.cpp:256-270 | finds the innermost scope with a regular table of the alias, and sets only the depth |
| BinderContext.BinderContext.CheckNestedTableColumn | src/binder/binder_context.cpp:272-293 | finds the innermost nested table of the alias; throws if it lacks the column, else binds to it |
| BinderContext.BinderContext.RegularOwner | src/binder/binder_context.cpp:259-268 | the loop outwards ends at the innermost scope with the regular alias |
| BinderContext.BinderContext.NestedOwner | src/binder/binder_context.cpp:147-157 | the loop outwards ends at the innermost scope with the nested alias |
| BinderContext.ColumnValueExpression.SetColumnPosTuple | src/binder/binder_context.cpp:174-183 | the reference takes oids, name and type of the first column of that name |
| BinderContext.BinderContext.constructor | src/include/binder/binder_context.h:52-54 | an empty scope, one deeper than the one around it, linked to it |
| BinderContext.BinderContext.AddRegularTable | src/binder/binder_context.cpp:60-74 | registers the table and lists its alias, or throws on an alias of either kind and changes nothing |
| BinderContext.BinderContext.AddNestedTable | src/binder/binder_context.cpp:92-120 | registers the columns as an unordered map keeps them, or throws on an alias of either kind |
| BinderContext.BinderContext.AddCTETable | src/binder/binder_context.cpp:122-135 | registers a CTE; only nested aliases make it throw |
| BinderContext.BinderContext.AddCTETableAlias | src/binder/binder_context.cpp:137-163 | copies the nearest nested table under another alias, or throws; nothing if the names are equal |
| BinderContext.Store | src/binder/binder_context.cpp:101-118 | assigning columns to an unordered map one by one loses no name, invents no type, and keeps exactly the columns if their keys differ |
| BinderContext.Assign | src/include/parser/expression/abstract_expression.h:84-90 | one assignment under the equality in which an alias without serial number equals all of its name |
| Scope.AlwaysListed | src/binder/binder_context.cpp:63-163 | after every run of registrations the alias list enumerates the regular aliases without repetition |
| Scope.RegisterKeepsDisjoint | src/binder/binder_context.cpp:63-163 | a registration keeps regular and nested aliases apart if and only if it is not a CTE with the name of a regular table |
| Scope.SelectOrderIsDisjoint | src/binder/bind_node_visitor.cpp:431-516 | all WITH entries before all FROM tables: no alias is ever of both kinds |
| Scope.OtherOrderCollides | src/binder/binder_context.cpp:122-135 | in the other order a name can become both |
| ColumnBinding.QualifiedIsLexical | src/binder/bind_node_visitor.cpp:696-707 | qualified lookup picks the lexically innermost alias if and only if it is not a nested alias strictly inside its nearest regular declaration |
| ColumnBinding.ChosenIsUsed | src/binder/bind_node_visitor.cpp:696-707 | a qualified reference gets the depth of the chosen scope, and the table is undefined exactly if no scope is chosen |
| FromAndStar.FromTableIff | src/binder/bind_node_visitor.cpp:843-907 | for every FROM clause: a single table at any place of its lists and joins registers the catalog table of its name if and only if no CTE of that name was announced before it, anywhere in the statement; no other regular tables are registered |
| Statements.AnnouncedHides | src/binder/bind_node_visitor.cpp:894-907 | a CTE name announced inside an entry of FROM hides the catalog table from the entry after it: FROM l, t then builds what FROM l builds |
| Statements.HiddenTable | src/binder/bind_node_visitor.cpp:433-907 | SELECT 3 AS y FROM (WITH t AS (SELECT 1 AS x) SELECT 2 AS x) a, t: cannot be refused; however it is bound, `a` is the only alias of its scope, and no column of t is found |
| Statements.BindHiding | src/binder/bind_node_visitor.cpp:54-63 | every visitor accepts it |
| ColumnBinding.RebindIff | src/binder/bind_node_visitor.cpp:666-714 | binding a bound reference again changes nothing if and only if it is not an unqualified name for a nested column whose alias is taken elsewhere |
| ColumnBinding.RebindQualified | src/binder/bind_node_visitor.cpp:696-707 | a qualified reference is bound to the same column again |
| ColumnBinding.RebindNested | src/binder/binder_context.cpp:226-246 | a nested column found by name is found again by its alias if and only if nothing shadows the alias |
| ColumnBinding.RebindCanMove | src/binder/bind_node_visitor.cpp:696-707 | a concrete pair of scopes where the second binding moves to another table |
| BinderSherpa.BindColumn | src/binder/bind_node_visitor.cpp:676-708 | looking a column up, qualified or not, does what `Bind` says, with or without a scope |
| BinderSherpa.BindColumnOf | src/binder/bind_node_visitor.cpp:696-707 | the case of a qualified name |
| BinderSherpa.VisitColumnValue | src/binder/bind_node_visitor.cpp:666-715 | binds, records the wanted type or else the column's, throws if they differ; no other record changes |
| BinderSherpa.BinderSherpa.SetDesiredTypePair | src/binder/binder_sherpa.cpp:12-64 | records for an operand of open type the type of the other, as `Paired` says, and changes no other record |
| BinderSherpa.BinderSherpa.CheckDesiredType | src/binder/binder_sherpa.cpp:66-76 | throws exactly if a different type is on record |
| BinderSherpa.VisitComparison | src/binder/bind_node_visitor.cpp:717-722 | visits both operands, constrains them, visits both again, as `Compared` says |
| BinderSherpa.Constrain | src/binder/bind_node_visitor.cpp:719-721 | the first half of it, up to the constraints |
| BinderSherpa.VisitConjunction | src/binder/bind_node_visitor.cpp:735-744 | visits the children, asks them to be boolean, visits them again, as `Conjoined` says |
| BinderSherpa.VisitChildren | src/binder/bind_node_visitor.cpp:735-744 | the children in turn, up to the first exception |
| TypeConstraints.ComparedIff | src/binder/bind_node_visitor.cpp:717-722 | for operands that mean the same when bound again, whatever is on record: accepted if and only if both can be visited, the comparison may be boolean, and the types are equal or both outside {INVALID, VARCHAR, INTEGER}; the second visit then changes nothing |
| TypeConstraints.ComparedInScopes | src/binder/bind_node_visitor.cpp:710-722 | the same in a chain of scopes, with the exception that is thrown otherwise |
| TypeConstraints.AcceptedIff | src/binder/bind_node_visitor.cpp:717-722 | for every binding and record: accepted if and only if all four lookups succeed, the first give what is on record, and the second what the other operand makes of it; the operands then are the second lookups, with their types on record |
| TypeConstraints.MismatchIff | src/binder/binder_sherpa.cpp:12-76 | accepted although the types do not go together if and only if both were unknown at first and differ at the second lookup, or were a string and an integer that the second lookup swaps |
| TypeConstraints.MismatchInScopesIff | src/binder/bind_node_visitor.cpp:666-722 | the same for two references in a chain of scopes, told from the scopes |
| TypeConstraints.ComparedCanMismatch | src/binder/binder_sherpa.cpp:37-62 | concrete scopes in which a string and an integer pass a comparison |
| TypeConstraints.SteadyIff | src/binder/bind_node_visitor.cpp:666-714 | the operands that mean the same when bound again are those of `RebindIff` |
| TypeConstraints.ConjoinedAreBoolean | src/binder/bind_node_visitor.cpp:735-744 | whatever was on record and however the children are bound, an accepted conjunction has boolean columns only |
| TypeConstraints.ConjoinedAcceptedIff | src/binder/bind_node_visitor.cpp:735-744 | for every binding and record: accepted if and only if every child is found with a type that is on record for it and found again as a boolean; the children then are the second lookups |
| TypeConstraints.ConjoinedIff | src/binder/bind_node_visitor.cpp:735-744 | for children that mean the same when bound again: accepted if and only if all can be visited and are boolean |
| StarExpansion.GenerateAllColumnExpressions | src/binder/binder_context.cpp:295-365 | for `*`, appends an `Expansion` of the scope, which `StarRegularAt`, `StarNestedAt` and `StarRegularFirst` spell out column by column; for `t.*`, appends the columns of the regular table `t` in the order of its schema, and throws if there is none |
| StarExpansion.SortBySerial | src/binder/binder_context.cpp:339-344 | a permutation sorted by serial number |
| StarExpansion.EmitAllNested | src/binder/binder_context.cpp:330-359 | every nested table in one piece, in any order of tables |
| StarExpansion.OrderDetermined | src/binder/binder_context.cpp:336-344 | the sorted order is the same for every sort if and only if the serial numbers differ |
| StarExpansion.CatalogAccessor.GetNewTempOid | src/include/catalog/catalog_accessor.h:413-413 | a 32-bit counter with the topmost bit set |
| StarExpansion.NameCteColumns | src/binder/bind_node_visitor.cpp:463-496 | names from the alias list, then from the expressions, each with a new serial number; throws if there are more aliases than columns |
| StarExpansion.SerialsIncreaseIff | src/binder/bind_node_visitor.cpp:479-496 | the serial numbers of a CTE grow if and only if the lower 31 bits of the counter do not start over |
| StarExpansion.CteOrderIff | src/binder/binder_context.cpp:336-344 | sorting restores the order of the select list if and only if they grow |
| StarExpansion.StarKeepsCteOrder | src/binder/binder_context.cpp:330-359 | SELECT * emits the columns of a CTE in the scope in one piece, in the order, under the names and with the types of its select list; of a CTE that is not in the scope it emits nothing |
| StarExpansion.StarEmits | src/binder/binder_context.cpp:295-365 | SELECT * emits columns of a table if and only if the table is in the scope and has columns |
| StarExpansion.StarRegularAt | src/binder/binder_context.cpp:302-327 | whatever `*` emits, column c of the i-th alias of the list stands right after the columns of the tables before it, with name, oids, type and depth |
| StarExpansion.StarNestedAt | src/binder/binder_context.cpp:330-359 | every nested table is emitted in one piece, after all regular ones, its columns sorted, with names, types and temporary oids |
| StarExpansion.StarRegularFirst | src/binder/binder_context.cpp:302-359 | up to the number of columns of the regular tables, what is emitted is of regular tables, and beyond it of nested ones |
| StarExpansion.StarIsQualified | src/binder/binder_context.cpp:302-328 | what is emitted for a regular table is what its columns mean when written with the alias |
| StarExpansion.StarIsQualifiedNested | src/binder/binder_context.cpp:345-358 | for a nested table that holds if and only if no scope has a regular table of the alias |
| InsertRewrite.ValidateAndCorrectInsertValues | src/binder/bind_node_visitor.cpp:972-1086 | computes `Rewritten`, with the first exception in the order of the source |
| InsertRewrite.Arrange | src/binder/bind_node_visitor.cpp:1001-1047 | the row in schema order: the given value, else the stored one, else NULL if allowed, else a throw |
| InsertRewrite.Correct | src/binder/bind_node_visitor.cpp:1051-1085 | DEFAULT replaced, casts checked against the column type and pulled up |
| InsertRewrite.InsertStatement.Visit | src/binder/bind_node_visitor.cpp:382-412 | throws if a listed column does not exist; all rows are rewritten with the same original list; afterwards the list is the full one; otherwise it throws what the first row that fails throws |
| InsertRewrite.RewrittenIff | src/binder/bind_node_visitor.cpp:972-1086 | a row is accepted if and only if its width is right and each column can be filled; it then has schema width, and each column holds what is meant for it alone |
| InsertRewrite.InsertedValue | src/binder/bind_node_visitor.cpp:1051-1085 | what an accepted row holds in each column: what visiting makes of the value given, of the child if that is a cast, or of the stored value or its child |
| InsertRewrite.WrongCastRefused | src/binder/bind_node_visitor.cpp:1070-1075 | a cast to another type than its column's is refused, whatever it is a cast of |
| InsertRewrite.NullPassesIff | src/binder/bind_node_visitor.cpp:1001-1085 | exactly when a NULL passes for a column, nullable or not: given plain or as a cast, stored behind DEFAULT, or stored and left out |
| InsertRewrite.PlacedIffFirst | src/binder/bind_node_visitor.cpp:1001-1010 | a given value is used, exactly once and in its own column, if and only if its column is not listed before |
| InsertRewrite.Conservation | src/binder/bind_node_visitor.cpp:1001-1010 | no given value is lost or used twice if and only if no column is listed twice |
| InsertRewrite.RepeatedColumnDrops | src/binder/bind_node_visitor.cpp:1001-1010 | a concrete statement that drops a value |
| InsertRewrite.ArrangedAgain | src/binder/bind_node_visitor.cpp:402-410 | with the full list of columns reordering is the identity |
| InsertRewrite.RewrittenAgain | src/binder/bind_node_visitor.cpp:382-412 | rewriting a rewritten row changes nothing |
| InsertRewrite.DefaultIsOmission | src/binder/bind_node_visitor.cpp:1011-1075 | DEFAULT is the same as leaving the column out, except in two named cases |
| SelectVisitor.BindNodeVisitor.BindNameToNode | src/binder/bind_node_visitor.cpp:54-63 | a SELECT is accepted, and then means what `SelectMeans` says, or is refused for a reason that `SelectRefuses` has |
| SelectVisitor.BindNodeVisitor.VisitSelect | src/binder/bind_node_visitor.cpp:422-596 | a visit that does not throw leaves the scope it found and changes no scope around it; it announces exactly the WITH names of the tree and writes exactly the depths of `SelectWrites`; WITH and FROM have built the scope of the select; every column and every select in it is bound in that scope; its columns are what its select list means there; and the scopes opened were sound. A visit that throws does so because some part is refused in the scope that the parts before it built |
| SelectVisitor.BindNodeVisitor.VisitInScope | src/binder/bind_node_visitor.cpp:426-593 | the same before the new scope is left |
| SelectVisitor.BindNodeVisitor.VisitOwnScope | src/binder/bind_node_visitor.cpp:431-593 | what happens in the new scope, once it is open and empty |
| SelectVisitor.BindNodeVisitor.VisitQuery | src/binder/bind_node_visitor.cpp:519-593 | conditions, select list, union and ORDER BY are bound in the scope that WITH and FROM built, and do not change it; or the first of them that fails is the reason |
| SelectVisitor.BindNodeVisitor.VisitRest | src/binder/bind_node_visitor.cpp:574-593 | the depth is written after the union and before ORDER BY, in the scope of the select |
| SelectVisitor.BindNodeVisitor.VisitSources | src/binder/bind_node_visitor.cpp:431-516 | WITH, then FROM, build the scope from an empty one as `SourceBuilds` says; the aliases stay listed and disjoint; or one of them is refused |
| SelectVisitor.BindNodeVisitor.VisitCte | src/binder/bind_node_visitor.cpp:431-511 | the entry is registered with the columns that its select, or its base case, has where the entries before it are known and it is not, numbered in order, and its select is bound once more where the entry is known; its name and those inside it are announced; or one of these steps is refused |
| SelectVisitor.BindNodeVisitor.OpenCte | src/binder/bind_node_visitor.cpp:433-507 | the first half of it: announced, its columns found, registered |
| SelectVisitor.BindNodeVisitor.AnnounceCte | src/binder/bind_node_visitor.cpp:433-460 | the name is announced before the select of the entry is visited |
| SelectVisitor.BindNodeVisitor.VisitCtes | src/binder/bind_node_visitor.cpp:431-512 | the entries build the scope one after the other, each in the scope of those before it, up to one that is refused |
| SelectVisitor.BindNodeVisitor.RegisterCte | src/binder/bind_node_visitor.cpp:463-507 | names and registers the columns, or throws if there are more names than columns, or else if a CTE of that name is in the scope |
| SelectVisitor.BindNodeVisitor.VisitTableRef | src/binder/bind_node_visitor.cpp:864-908 | the scope gets exactly the tables of the reference, as `TableBuilds` says of a single table, a derived table, a join and a list, or the reference is refused as `TableRefuses` says |
| SelectVisitor.BindNodeVisitor.VisitDerived | src/binder/bind_node_visitor.cpp:870-885 | a derived table is registered with the columns of its select, which sees the tables before it and not itself; refused without an alias, with a used one, or with its select |
| SelectVisitor.BindNodeVisitor.VisitNamed | src/binder/bind_node_visitor.cpp:894-907 | a single table is a CTE if one of that name was announced, else a table of the catalog; all exceptions |
| SelectVisitor.BindNodeVisitor.VisitJoin | src/binder/bind_node_visitor.cpp:843-850 | the left table, then the right one, then the condition in the scope that has both |
| SelectVisitor.BindNodeVisitor.VisitTables | src/binder/bind_node_visitor.cpp:889-893 | the tables of a list one after the other, each with the CTE names announced by those before it, up to one that is refused |
| SelectVisitor.BindNodeVisitor.VisitItems | src/binder/bind_node_visitor.cpp:535-572 | the select list in order: stars expanded, columns bound in the scope; a star needs a FROM; or the first element that fails is the reason |
| SelectVisitor.BindNodeVisitor.VisitUnion | src/binder/bind_node_visitor.cpp:574-586 | accepts a union whose select means something in the scopes and has the same types, else throws what `UnionRefuses` allows; `UnionMeansIff` and `UnionRefusedFor` say what that comes to, column by column |
| Unions.UnionAgrees | src/binder/bind_node_visitor.cpp:574-586 | the sides of every accepted union have equally many columns, of the same type at every index |
| Unions.UnionMeansIff | src/binder/bind_node_visitor.cpp:574-593 | a select with a union means something if and only if both sides do, agree in that way, and ORDER BY can be bound |
| Unions.DifferingMeansNothing | src/binder/bind_node_visitor.cpp:578-585 | if the sides differ whatever they mean, the select means nothing |
| Unions.UnionRefusedFor | src/binder/bind_node_visitor.cpp:574-586 | an exception that comes from neither side nor from ORDER BY is a datatype mismatch, and there are sides that differ |
| Unions.DifferingIsRefused | src/binder/bind_node_visitor.cpp:578-585 | sides that differ are a reason to refuse with a datatype mismatch |
| Unions.UnionOfIff | src/binder/bind_node_visitor.cpp:581-585 | `SELECT 1 UNION SELECT 'a'`, for constants of any two types: accepted if the types are equal, else refused with a datatype mismatch and nothing else |
| Unions.BindUnion | src/binder/bind_node_visitor.cpp:54-63 | every visitor comes to that result |
| SelectVisitor.BindNodeVisitor.VisitExpr | src/binder/bind_node_visitor.cpp:822-826 | every column in an expression is bound as `Bind` says, in the state in which earlier visits left it, and every subquery means something, in the scope where it stands; or one of them is refused |
| SelectVisitor.BindNodeVisitor.VisitOperator | src/binder/bind_node_visitor.cpp:717-744 | the children once, or twice, the second time as the first visit left them |
| SelectLists.MentionedIsFound | src/binder/bind_node_visitor.cpp:519-593 | in every accepted select, every column in WHERE, LIMIT, GROUP BY, HAVING, the select list or ORDER BY, inside whatever operators, can be found in the scope of the select and those around it |
| SelectLists.JoinedIsFound | src/binder/bind_node_visitor.cpp:843-850 | the same for the condition of a join and the scope that both sides have built; under a comparison or conjunction the column is found again as the first lookup left it |
| SelectLists.ElementAt | src/binder/bind_node_visitor.cpp:535-572 | column i of a select list without stars: alias, name, column name, and the type of what the column means in the scopes, or of the expression |
| SelectMeaning.SettledIff | src/binder/bind_node_visitor.cpp:666-714 | whatever is looked up more than once: a bound reference is left alone by all later lookups if and only if it is stable in the sense of `RebindIff` |
| SelectMeaning.ComparisonBinds | src/binder/bind_node_visitor.cpp:717-722 | in an accepted select both operands of a comparison are found, and found again as the first lookup left them |
| SelectDepths.DepthIsLevel | src/binder/bind_node_visitor.cpp:588-588 | with distinct ids, the writes of a visit, some repeated and one level off, leave every select of the tree with its own nesting level and change no other |
| SelectDepths.SelectGives | src/binder/bind_node_visitor.cpp:422-596 | for every tree, also with shared ids, the writes give exactly the selects of the tree a depth, which is a level where they stand |
| SelectDepths.BaseIsWithin | src/binder/bind_node_visitor.cpp:449-460 | the base case visited first, one level too high, is among the selects that the last visit corrects |
| FromAndStar.TableAdds | src/binder/bind_node_visitor.cpp:843-908 | a FROM clause adds exactly the aliases of its entries, all new and different, except announced CTEs under their own name, which add nothing |
| FromAndStar.CtesAdd | src/binder/bind_node_visitor.cpp:431-512 | WITH adds exactly the names of its entries, as nested tables |
| SelectLists.CtesAreDistinct | src/binder/binder_context.cpp:122-128 | WITH names every CTE once |
| SelectLists.AliasedCteHas | src/binder/binder_context.cpp:137-163 | `FROM c AS a` for an announced CTE: `a` gets exactly the columns of the nearest `c`, and nothing else changes |
| SelectLists.StarNeedsFrom | src/binder/bind_node_visitor.cpp:548-553 | an accepted select with a star in its list has a FROM |
| FromAndStar.SourceIsSound | src/binder/bind_node_visitor.cpp:431-516 | every scope that WITH and FROM can build lists its regular aliases once and keeps the two kinds apart |
| FromAndStar.StarIsFromIff | src/binder/binder_context.cpp:295-365 | for every select and whatever SELECT * emits: the tables emitted are those named in FROM, each once, if and only if no alias occurs twice in FROM, every table named there is in the scope and has stored columns, and every CTE of this WITH that has columns is in FROM under its own name; a CTE in FROM under its own name is then one of this WITH |
| FromAndStar.TableLists | src/binder/bind_node_visitor.cpp:843-908 | whatever its joins and lists, FROM appends its tables of the catalog to the alias list in the order in which they are written |
| FromAndStar.StarFollowsFrom | src/binder/binder_context.cpp:302-327 | for every select, `*` emits the tables of the catalog in the order of FROM, each with all its columns in the order of its schema, as the catalog has them |
| FromAndStar.StarNestedAfterFrom | src/binder/binder_context.cpp:330-359 | and all that is emitted after them is of nested tables |
| Statements.NamelessIsNotEmitted | src/binder/binder_context.cpp:101-118 | SELECT * FROM (SELECT 1) a: cannot be refused, and nothing is emitted |
| Statements.StarOfOuterCte | src/binder/binder_context.cpp:137-140 | SELECT * FROM c, with c announced outside: cannot be refused, and means the empty scope and no columns, nothing else |
| Statements.StarredCteIsRefused | src/binder/bind_node_visitor.cpp:463-478 | WITH x ..., y(i, ...) AS (SELECT * FROM x) cannot be bound, whatever x is |
| Statements.StarredStatement | src/binder/bind_node_visitor.cpp:463-478 | WITH x(i) AS (SELECT 1), y(i) AS (SELECT * FROM x) SELECT * FROM y means nothing, and can be refused only for more names than columns |
| Statements.BindStarred | src/binder/bind_node_visitor.cpp:54-63 | every visitor throws that exception |
| Statements.UnusedCteIsEmitted | src/binder/binder_context.cpp:330-359 | WITH c AS (SELECT 1 AS x) SELECT * FROM t: cannot be refused, and always emits columns of c, which is not in FROM |
| Statements.BindAccepted | src/binder/bind_node_visitor.cpp:54-63 | a statement that cannot be refused is accepted by every visitor |
| Statements.CteColumnIsTableColumn | src/binder/bind_node_visitor.cpp:431-507 | WITH c AS (SELECT x FROM t) with t from the catalog: however it is bound, c has the one column x, of the type it has in t |
| SelectLists.CteHas | src/binder/bind_node_visitor.cpp:431-507 | for every CTE: it has a column for each column of its select, or of the select after UNION if it is recursive, with that column's type, under the name in its list of names, else the column's own, else `?column?` |
| DerivedTables.OrderKeptIff | src/binder/binder_context.cpp:101-118 | columns assigned to the map and sorted by serial number come back in their order, in all runs, if and only if no two have equal keys and the numbers increase |
| DerivedTables.DerivedListIff | src/binder/binder_context.cpp:92-120 | what SELECT * makes of a derived table is its select list, in order and complete, in all runs, if and only if every column has a name, no two have equal keys, and the serial numbers increase |
| DerivedTables.DerivedStarKeepsList | src/binder/binder_context.cpp:330-359 | SELECT * then emits its columns in one piece, in order, with their names and types |
| SelectLists.DerivedFindsIff | src/binder/binder_context.cpp:92-120 | a name is found in a derived table if and only if a column of its select list goes by it, by its alias, and only without one by its own name; what is found has the type of such a column |
| SelectLists.RenamedIsFound | src/binder/binder_context.cpp:101-118 | `FROM (SELECT a AS x FROM t) d`: the column is found as `x` and `d.x`, with the type that `a` has in `t`, and neither as `a` nor as `d.a` |
| SelectLists.StarOfAliases | src/binder/binder_context.cpp:330-359 | `SELECT * FROM (...) d`, for every select whose elements all have aliases with increasing numbers: exactly these aliases, in order, with the types of the elements |
| Statements.StarOfDerivedMeans | src/binder/binder_context.cpp:330-359 | for every select in the parentheses of SELECT * FROM (...) d that meets the condition, the columns are those of its select list |
| Statements.StarOfDerivedIff | src/binder/binder_context.cpp:330-359 | without repeated names, all runs emit the select list, in order and complete, if and only if every column has a name and the serial numbers increase |
| Statements.EitherOrder | src/binder/binder_context.cpp:336-344 | SELECT * FROM (SELECT a, b FROM t) d may emit its columns in either order |
| Statements.EitherOrderAccepted | src/binder/bind_node_visitor.cpp:870-885 | that statement cannot be refused |
| ExpressionMatcher.FindEndOfExpressionInLine | build-support/cpplint.py:1744-1819 | the result and the remaining stack agree with a scan of the brackets alone, whatever `<`, `>`, `<<`, `->` and `;` did to the stack; and, for every stack, with a search that counts the open `<` outside brackets |
| ExpressionMatcher.FindStartOfExpressionInLine | build-support/cpplint.py:1866-1940 | the same on the mirrored line, unless it starts between two `<` |
| ExpressionMatcher.ForwardMark | build-support/cpplint.py:1762-1816 | marks never change the bracket part of the stack, and never empty it below an open bracket; what they do to the number of open `<` outside brackets, and when they end the search |
| ExpressionMatcher.BackwardMark | build-support/cpplint.py:1888-1936 | the same in the backward scan |
| ExpressionMatcher.ForwardCloser | build-support/cpplint.py:1776-1793 | a closing bracket drops pending `<` and then closes the top of the stack, ends the search, or does not fit, as a scan of the brackets alone does |
| ExpressionMatcher.BackwardOpener | build-support/cpplint.py:1911-1928 | the same for an opening bracket in the backward scan |
| ExpressionMatcher.CloseExpression | build-support/cpplint.py:1822-1863 | from `(`, `[` or `{` it finds exactly the matching bracket of the whole text, and fails if and only if there is none; from any start it finds what `CloseOf` says |
| ExpressionMatcher.ReverseCloseExpression | build-support/cpplint.py:1943-1978 | from `)`, `]` or `}` it finds exactly the bracket that is closed, and fails if and only if there is none; from any start it finds what `OpenOf` says |
| ExpressionMatcher.CloseThenReverse | build-support/cpplint.py:1822-1978 | closing and reopening leads back to the bracket |
| ExpressionMatcher.ReverseThenClose | build-support/cpplint.py:1822-1978 | opening and closing leads back to the bracket |
| AnglePairs.PairIff | build-support/cpplint.py:1757-1819 | a search from a `<` ends exactly at the `>` up to which brackets are well nested, no `;` is outside brackets, and the marks outside brackets are balanced, for the first time |
| AnglePairs.AngleCloseIff | build-support/cpplint.py:1822-1863 | from a `<` that can start a template list, CloseOf finds exactly that `>` in the whole text, over all lines |
| AnglePairs.AngleOpenIff | build-support/cpplint.py:1943-1978 | from a `>` that can end one, OpenOf finds exactly the `<` that belongs to it, as the backward search reads the text |
| AngleBrackets.AngleStep | build-support/cpplint.py:1757-1816 | a forward search outside brackets counts: `<` opens one, the second of `<<` takes it back, `>` closes one, those of `->` and of operator functions do nothing, `;` gives up |
| AngleBrackets.BackGreaterStep | build-support/cpplint.py:1888-1936 | backwards, `>` opens one, except in `->`, ` >= ` and operator functions, and `;` gives up |
| AngleBrackets.BackLessStep | build-support/cpplint.py:1899-1910 | backwards, `<` closes one, and `<<` is passed over |
| AngleBrackets.ClosesAtMark | build-support/cpplint.py:1776-1806 | over any lines, the forward search only ends at a closing bracket or at a `>`, never that of `->` or of an operator function |
| AngleBrackets.OpensAtMark | build-support/cpplint.py:1902-1928 | the backward search only ends at an opening bracket or at a `<` that does not follow another one |
| AnglePairs.AngleUndoIff | build-support/cpplint.py:1822-1978 | reversing leads back from the end that was found if and only if the two are a pair to the backward search; this holds if both read what is in between alike, `<<` aside; an end that the backward search takes for an operator is passed over |
| AnglePairs.AngleNotUndone | build-support/cpplint.py:1900-1908 | a line on which closing and reversing does not lead back |
| ExpressionMatcher.GetTextInside | build-support/cpplint.py:4891-4921 | the text up to the matching bracket, None if and only if there is none |
| ExpressionMatcher.TextInsideAgrees | build-support/cpplint.py:4891-4921 | agrees with FindEndOfExpressionInLine on every line and opening bracket |
| BracketText.MatchIsSkeletonMatch | build-support/cpplint.py:1744-1978 | two brackets match if and only if they match in the text with all but `()[]{}` erased |
| BracketText.FindIsMatch | build-support/cpplint.py:1757-1819 | a stack scan from an opening bracket stops exactly at the match of the grammar |
| BracketText.NestedIffRun | build-support/cpplint.py:1744-1819 | the grammar of nested text and the stack describe the same texts |
| BracketText.CloserUnique | build-support/cpplint.py:1822-1863 | an opening bracket has at most one match |
| BracketText.OpenerUnique | build-support/cpplint.py:1943-1978 | a closing bracket has at most one match |
| BracketText.MatchMirror | build-support/cpplint.py:1866-1978 | brackets match if and only if they match in the mirrored text |
| NestingState.NestingState.UpdatePreprocessor | build-support/cpplint.py:2757-2811 | what `#if`, `#else`/`#elif` and `#endif` do to the stack and the saved stacks; that `#else` goes on from the stack before its `#if` is `ElseRestarts`, that `#endif` goes on from the first branch is `BranchErasure` |
| NestingState.NestingState.Update | build-support/cpplint.py:2814-2976 | the directive first, then the line's own step |
| NestingState.NestingState.ProcessFile | build-support/cpplint.py:2814-2976 | all lines in turn |
| NestingState.BranchErasure | build-support/cpplint.py:2757-2811 | a well-nested file ends with the stack of a file whose `#else` and `#elif` parts are deleted and whose directives are ignored, for every step function |
| NestingState.BranchesSave | build-support/cpplint.py:2782-2808 | whatever the branches do, `#endif` finds the stack from before the first `#else` |
| NestingState.ElseRestarts | build-support/cpplint.py:2782-2793 | from any state, after `#if`, a well-nested body and any branches, an `#else` or `#elif` line is read with the stack from before the `#if` |
| NestingState.BranchStartsOver | build-support/cpplint.py:2782-2793 | inside a branch the stack is what the `#else` line and the kept lines of the branch so far make of the stack before the `#if` |
| NestingState.PreprocessCommits | build-support/cpplint.py:2757-2811 | no directive changes the committed stack |
| NestingState.LiveLinesDecide | build-support/cpplint.py:2757-2811 | for every sequence of lines, also ill-nested ones, the committed stack is that of the live lines alone |
| NestingState.StackIsLiveLines | build-support/cpplint.py:2757-2811 | once no open `#if` has seen `#else`, the stack is that of the live lines |
| IncludeOrder.IncludeState.ResetSection | build-support/cpplint.py:893-902 | back to the initial section |
| IncludeOrder.IncludeState.CheckNextIncludeOrder | build-support/cpplint.py:950-1001 | which headers are in order and what the section becomes; when the last header is forgotten |
| IncludeOrder.IncludeState.CheckAll | build-support/cpplint.py:950-1001 | no error is reported if and only if the sequence is accepted |
| IncludeOrder.SectionNeverDecreases | build-support/cpplint.py:950-1001 | between resets the section never decreases |
| IncludeOrder.AcceptedLanguage | build-support/cpplint.py:950-1001 | accepted if and only if in MY* C* CPP* (MY or OTHER)* |
| TicketDispenser.TicketConservation | benchmark/benchmark_util/data_table_benchmark_util.cpp:101-144 | in every interleaving: counter = run + held + spent on leaving; run + held never exceed num; at the end between num - (workers - 1) and num were run |
| TicketDispenser.ConservationIff | benchmark/benchmark_util/data_table_benchmark_util.cpp:101-119 | in all runs never more than num ids are run or held if and only if there is nothing to run or num + workers is at most 2^32 |
| TicketDispenser.RepetitionBound | benchmark/benchmark_util/data_table_benchmark_util.cpp:111-119 | no id is run more often than there are workers, nor more than once more than there are ids before it |
| TicketDispenser.RepetitionIff | benchmark/benchmark_util/data_table_benchmark_util.cpp:101-119 | these bounds hold in all runs if and only if there is nothing to run or num + workers is at most 2^32 |
| TicketDispenser.RepetitionIsSharp | benchmark/benchmark_util/data_table_benchmark_util.cpp:112-119 | with throttling some run reaches that number |
| TicketDispenser.StepConserves | benchmark/benchmark_util/data_table_benchmark_util.cpp:111-119 | every atomic step keeps the count |
| TicketDispenser.ExactlyOnceIff | benchmark/benchmark_util/data_table_benchmark_util.cpp:111-133 | every id is run exactly once in all runs if and only if there is nothing to run, or one worker, or unthrottled workers too few to wrap the counter |
| TicketDispenser.OrderlyIsExact | benchmark/benchmark_util/data_table_benchmark_util.cpp:111-133 | without throttling each id is run exactly once |
| TicketDispenser.InOrderIsExact | benchmark/benchmark_util/data_table_benchmark_util.cpp:111-133 | one worker runs each id exactly once, throttled or not |
| TicketDispenser.GiveBacksLose | benchmark/benchmark_util/data_table_benchmark_util.cpp:112-119 | for any number of throttled threads below the number of workers, a run in which that many ids are never run |
| TicketDispenser.BoundIsSharp | benchmark/benchmark_util/data_table_benchmark_util.cpp:112-119 | the lower bound is reached |
| TicketDispenser.WrapRepeats | benchmark/benchmark_util/data_table_benchmark_util.cpp:101-111 | with enough workers the 32-bit counter wraps, an id is run twice, and num + 1 are run |
| Framing.FrameRoundTrip | script/self_driving/model_server.py:697-712 | reading what was written gives back ids and payload, any payload, if and only if no id is negative; otherwise the frame is rejected |
| Framing.ParsePrintInt | script/self_driving/model_server.py:673-705 | an id is read as it was written |
| ModelServer.ModelServer.constructor | script/self_driving/model_server.py:638-644 | starts by announcing itself under id 0 |
| ModelServer.ModelServer.NextMsgId | script/self_driving/model_server.py:651-654 | a new id |
| ModelServer.ModelServer.SendMsg | script/self_driving/model_server.py:664-677 | writes the message and keeps it as pending if it is not yet |
| ModelServer.ModelServer.ResendPending | script/self_driving/model_server.py:797-801 | sends any subset of the pending messages again |
| ModelServer.ModelServer.HandleFrame | script/self_driving/model_server.py:817-833 | a frame steps the server; `AckFrame`, `AnswerFrame` and `SilentFrame` say for every frame that the other side can write what it comes to |
| ModelServer.AckFrame | script/self_driving/model_server.py:819-822 | a frame with receive id 2 takes exactly its message id off the pending messages and sends nothing |
| ModelServer.AnswerFrame | script/self_driving/model_server.py:823-833 | any other frame whose command answers is answered with the next id, to the callback that the frame names as its sender, and the answer is pending |
| ModelServer.SilentFrame | script/self_driving/model_server.py:703-830 | frames with negative ids and frames without a command change nothing; commands that quit or fail and payloads that cannot be decoded end the server and change nothing else |
| ModelServer.AcknowledgesFrame | script/self_driving/model_server.py:697-822 | a written frame acknowledges exactly its own message id, and only if its receive id is 2 and its payload can be decoded |
| ModelServer.PollResends | script/self_driving/model_server.py:797-801 | a poll sends exactly the pending messages that are due, unchanged and oldest first, and all stay pending |
| ModelServer.ModelServer.RunLoop | script/self_driving/model_server.py:792-833 | the loop over any sequence of events, each frame with any answer |
| ModelServer.StepGood | script/self_driving/model_server.py:792-833 | every event keeps the invariant between log, pending messages and ids |
| ModelServer.ProtocolPromises | script/self_driving/model_server.py:651-833 | in every run ids are never reused, retransmissions carry the same ids and payload, pending is exactly what was sent and not acknowledged since, and an acknowledged id is never sent again |
| ModelServer.PendingIff | script/self_driving/model_server.py:792-833 | in every run, an id is pending if and only if it was handed out and no frame with that id and receive id 2 was read since |
| ModelServer.AnswerIsSent | script/self_driving/model_server.py:792-833 | in every run, the answer to a command that was read goes to the callback that asked, with the data the command gave, at every sending |
| Graph.Graph.AddVertex | src/common/graph.cpp:10-14 | adds the vertex if it is new; the graph stays closed |
| Graph.Graph.AddEdge | src/common/graph.cpp:16-22 | adds the edge and both ends; the graph stays closed |
| Graph.Graph.Size | src/common/graph.cpp:26-30 | the number of edges |
| Graph.Graph.VertexSet | src/common/graph.cpp:32-39 | every vertex once, as many as the order |
| Graph.Graph.EdgeSet | src/common/graph.cpp:41-49 | every edge once, as many as there are |
| Graph.Graph.SizeIsEdgeCount | src/common/graph.cpp:26-49 | the size is the length of the list of edges |
| Graph.Graph.FromEdgeSet | src/common/graph.cpp:60-66 | the closed graph of the edges |
| Graph.WithEdgesIs | src/common/graph.cpp:16-22 | which vertices and edges a graph has after any sequence of insertions |
| Graph.EdgesOfFromEdgeSet | src/common/graph.cpp:41-66 | building and reading gives the distinct edges put in |
| Graph.FromEdgeSetOfEdges | src/common/graph.cpp:41-66 | reading and building gives the graph without isolated vertices |
| GraphAlgorithm.HasCycle | src/common/graph_algorithm.cpp:97-122 | true if and only if the graph has a cycle |
| GraphAlgorithm.HasCycleFrom | src/common/graph_algorithm.cpp:67-94 | a found cycle is one; otherwise everything reached is finished and the stack is one shorter, although the root is not marked |
| GraphAlgorithm.HasCycleThrough | src/common/graph_algorithm.cpp:80-88 | the search goes on through one unvisited successor |
| GraphAlgorithm.FinishedIsAcyclic | src/common/graph_algorithm.cpp:89-93 | if all vertices are finished there is no cycle |
| TopologicalSort.FinishingTimeDFSVisit | src/common/graph_algorithm.cpp:143-154 | computes the recursive search `Visit` |
| TopologicalSort.FinishingTimeDFS | src/common/graph_algorithm.cpp:168-186 | the times of all vertices, for a given iteration order |
| TopologicalSort.FirstIsShallow | src/common/graph_algorithm.cpp:143-186 | every vertex gets a time; the first one iterated the smallest possible, its successors larger ones |
| TopologicalSort.TimesAreDepths | src/common/graph_algorithm.cpp:143-154 | the finishing time of every vertex is 2, or one more than that of a vertex with an edge to it |
| TopologicalSort.RootsAreShallow | src/common/graph_algorithm.cpp:143-186 | a vertex to which no edge leads has time 2, whenever it is visited |
| TopologicalSort.EdgeBreaksEndsFirst | src/common/graph_algorithm.cpp:189-205 | any edge: some iteration order does not put its end first |
| TopologicalSort.EdgeBreaksStartsFirst | src/common/graph_algorithm.cpp:189-205 | any edge: some iteration order does not put its start first |
| TopologicalSort.SortedOnlyWithoutEdges | src/common/graph_algorithm.cpp:189-205 | on acyclic graphs the result is in order for every iteration, in either direction, if and only if there are no edges |
| SqlTypes.GetColumn | src/include/catalog/schema.h:320-330 | a column of that name |
| SqlTypes.GetColumnIsFirst | src/include/catalog/schema.h:320-330 | it is the first of that name |
| SqlTypes.MakeTempOid | src/include/catalog/catalog_defs.h:52-55 | the lower 31 bits with the topmost bit set |

## Left out

- FindStartOfExpressionInLine: started between the two characters of `<<` it says only what it promises of brackets; `ReverseCloseExpression` never does that.
- AngleCloseIff: a `<` that is the second of `<<` or follows `operator` is searched from the next mark on, which `CloseOf` says and this lemma does not.
- AngleOpenIff: the same of a `>` that the backward search takes for an operator.
- ResetSection: the list of headers seen so far, which other checks use, is not modelled.
- Update: the brace, class and namespace step of a line is a parameter, any function of the stack and the line, so its own rules, `previous_stack_top` and the inline assembly state are not modelled.
- GetTextInside: the start pattern is a regular expression and has already matched; the returned text is modelled, the map of closing punctuation is the fixed one of the source.
- AddRegularTable: the lookup of database, namespace and table in the catalog is not modelled; the table comes as an argument.
- AddNestedTable: the columns come with their names; `SelectMeaning.NestedColumns` chooses the names.
- Assign: hashing is not modelled, only the equality of aliases; where aliases without serial number collide the type of any of the colliding columns may stay.
- VisitColumnValue: nothing is said about the reference after an exception, except which exception it is.
- VisitComparison: operands are column references; constants, casts, parameters, functions and aggregates, with the promotion of `BinderUtil`, are not modelled.
- VisitConjunction: children are column references, as in VisitComparison.
- VisitSelect: nothing is said of the visitor after an exception; UnifyOrderByExpression and ValidateWhereClause are not modelled, and neither are the exceptions of type constraints, which `TypeConstraints` has for comparisons and conjunctions of columns.
- VisitExpr: a select that is visited again is visited as it was parsed, so the changes that the first visit made inside it are not seen by the second; columns outside selects are carried over.
- VisitCte: WITH entries have a SELECT; the aliases set on the select list of a recursive CTE are not modelled.
- ValidateAndCorrectInsertValues: visiting a value is a function of the value and the wanted type; its effect on the record of types is not modelled.
- InsertStatement.Visit: INSERT with rows; INSERT from a SELECT rewrites the select list as one row in the same way.
- RewrittenAgain: holds for a visit that leaves its own results alone.
- RunLoop: sockets, JSON decoding, command execution, keyboard interrupts and clocks are parameters or events; the interval between two attempts is not modelled.
- ResendPending: the messages go out in the order of their ids, which is the order in which the dictionary got them.
- HasCycle: the node state map is a value that is handed on, not updated in place.
- FinishingTimeDFS: the iteration order of the containers is an argument.
- TicketConservation: needs num + workers <= 2^32; `ConservationIff` says that it fails in all other cases but num = 0.
- StepConserves: the same.
- RepetitionBound: needs num + workers <= 2^32; `RepetitionIff` says that it fails in all other cases but num = 0.
- GetColumn: that it is the first column of the name is `GetColumnIsFirst`.
- Graph equality (`graph::Isomorphic`): its second set difference runs over unsorted ranges; adjacency maps are compared instead.
- CREATE, UPDATE, DELETE, EXPLAIN and COPY statements of the binder: the same scopes with less in them.
- The catalog, the parser, expression copies and the SQL types beyond their names.
- All benchmark fixtures, the other checks of `cpplint.py`, model training and inference, and the build scripts.
