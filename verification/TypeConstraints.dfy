/** Type constraints: what Visit(ColumnValueExpression), Visit(ComparisonExpression) and
    Visit(ConjunctionExpression) of src/binder/bind_node_visitor.cpp do with the types
    that src/binder/binder_sherpa.cpp has on record, as functions of the operands.
 */
module TypeConstraints {
  import opened Basics
  import opened SqlTypes
  import opened Scope
  import opened ColumnBinding

  /** What binding makes of a reference. The visits are described for any such function;
      that of a chain of scopes is Bind. */
  type Binding = ColumnRef -> Result<ColumnRef>

  ghost predicate Describes(bind: Binding, chain: Chain) {
    forall e {:trigger Bind(chain, e)} :: bind(e) == Bind(chain, e)
  }

  ghost function BindIn(chain: Chain): (bind: Binding)
    ensures Describes(bind, chain)
  {
    e => Bind(chain, e)
  }

  /** A column reference and the type recorded for it, if any. */
  datatype Operand = Operand(ref: ColumnRef, desired: Option<TypeId>)

  /** What libpg_query delivers for a literal whose type is open: NULL, a string, a small
      integer. */
  predicate Flexible(t: TypeId) {
    t == INVALID || t == VARCHAR || t == INTEGER
  }

  ghost function Visited(bind: Binding, o: Operand): (r: Result<Operand>) {
    var wanted := if o.desired.Some? then o.desired.value else o.ref.typ;
    var bound := bind(o.ref);
    if bound.Throw? then Throw(bound.error)
    else
      var desired := if wanted == INVALID then bound.value.typ else wanted;
      if desired != bound.value.typ then Throw(SyntaxError) else Ok(Operand(bound.value, Some(desired)))
  }

  ghost function VisitedBoth(bind: Binding, l: Operand, r: Operand): (p: Result<(Operand, Operand)>) {
    var l' := Visited(bind, l);
    if l'.Throw? then Throw(l'.error)
    else
      var r' := Visited(bind, r);
      if r'.Throw? then Throw(r'.error) else Ok((l'.value, r'.value))
  }

  /** The types that SetDesiredTypePair goes by. */
  function PairTypes(l: Operand, r: Operand): (p: (TypeId, TypeId)) {
    if l.desired.None? && r.desired.None? then (l.ref.typ, r.ref.typ)
    else (if l.desired.Some? then l.desired.value else INVALID, if r.desired.Some? then r.desired.value else INVALID)
  }

  /** SetDesiredTypePair: an operand of flexible type is to take the type of the other. */
  function Paired(l: Operand, r: Operand): (p: (Operand, Operand)) {
    var (lt, rt) := PairTypes(l, r);
    if lt == rt then (l, r)
    else
      (if rt != INVALID && Flexible(lt) then l.(desired := Some(rt)) else l,
       if lt != INVALID && Flexible(rt) then r.(desired := Some(lt)) else r)
  }

  /** CheckDesiredType on an expression of boolean type. */
  predicate Boolean(own: Option<TypeId>) {
    own.Some? ==> own.value == BOOLEAN
  }

  /** Visit(ComparisonExpression), up to its second visit of the operands. */
  ghost function Constrained(bind: Binding, own: Option<TypeId>, l: Operand, r: Operand)
    : (p: Result<(Operand, Operand)>)
  {
    var first := VisitedBoth(bind, l, r);
    if first.Throw? then first
    else if !Boolean(own) then Throw(SyntaxError)
    else Ok(Paired(first.value.0, first.value.1))
  }

  lemma {:induction false} ConstrainedIs(
    bind: Binding, own: Option<TypeId>, l: Operand, r: Operand, l': Operand, r': Operand)
    requires VisitedBoth(bind, l, r) == Ok((l', r'))
    ensures Constrained(bind, own, l, r) == if Boolean(own) then Ok(Paired(l', r')) else Throw(SyntaxError)
  {
  }

  /** Visit(ComparisonExpression): visit, constrain, visit again. */
  ghost function Compared(bind: Binding, own: Option<TypeId>, l: Operand, r: Operand): (p: Result<(Operand, Operand)>) {
    var p := Constrained(bind, own, l, r);
    if p.Throw? then p else VisitedBoth(bind, p.value.0, p.value.1)
  }

  /** The children of a conjunction in turn, up to the first exception. */
  ghost function VisitedAll(bind: Binding, os: seq<Operand>): (r: Result<seq<Operand>>) {
    if os == [] then Ok([])
    else
      var o := Visited(bind, os[0]);
      if o.Throw? then Throw(o.error)
      else
        var rest := VisitedAll(bind, os[1..]);
        if rest.Throw? then rest else Ok([o.value] + rest.value)
  }

  function AsBooleans(os: seq<Operand>): (r: seq<Operand>)
    ensures |r| == |os|
  {
    seq(|os|, i requires 0 <= i < |os| => os[i].(desired := Some(BOOLEAN)))
  }

  /** Visit(ConjunctionExpression), up to its second visit of the children. */
  ghost function ConstrainedAll(bind: Binding, own: Option<TypeId>, os: seq<Operand>): (r: Result<seq<Operand>>) {
    var first := VisitedAll(bind, os);
    if first.Throw? then first
    else if !Boolean(own) then Throw(SyntaxError)
    else Ok(AsBooleans(first.value))
  }

  /** Visit(ConjunctionExpression) */
  ghost function Conjoined(bind: Binding, own: Option<TypeId>, os: seq<Operand>): (r: Result<seq<Operand>>) {
    var os' := ConstrainedAll(bind, own, os);
    if os'.Throw? then os' else VisitedAll(bind, os'.value)
  }

  // ---- What holds of the operands afterwards ----

  ghost predicate Settled(o: Operand) {
    o.desired == Some(o.ref.typ)
  }

  ghost predicate Compatible(a: TypeId, b: TypeId) {
    a == b || (!Flexible(a) && !Flexible(b))
  }

  /** An operand whose reference means the same when it is bound again. */
  ghost predicate Steady(bind: Binding, o: Operand) {
    bind(o.ref).Ok? ==> bind(bind(o.ref).value) == bind(o.ref)
  }

  /** In a chain of scopes these are the references of ColumnBinding.RebindIff. */
  lemma {:induction false} SteadyIff(bind: Binding, chain: Chain, o: Operand)
    requires Describes(bind, chain) && ValidChain(chain) && LowerCase(chain, o.ref) && Bind(chain, o.ref).Ok?
    ensures Steady(bind, o) <==> Stable(chain, o.ref)
  {
    RebindIff(chain, o.ref);
    assert bind(o.ref) == Bind(chain, o.ref);
    var again := Bind(chain, Bind(chain, o.ref).value);
  }

  /** A visited operand visited again under some constraint: nothing changes, or the
      constraint is not met. */
  lemma {:induction false} VisitedUnder(bind: Binding, o: Operand, t: TypeId)
    requires Settled(o) && bind(o.ref) == Ok(o.ref)
    ensures Visited(bind, o.(desired := Some(t))) ==
            if t == INVALID || t == o.ref.typ then Ok(o) else Throw(SyntaxError)
  {
  }

  /** A comparison of two column references that mean the same whenever they are bound is
      accepted exactly if both can be visited, the comparison may be boolean, and the
      types are equal or both fixed. Nothing then changes after the first visit, and the
      types on record are those of the columns. */
  lemma {:induction false} ComparedIff(bind: Binding, own: Option<TypeId>, l: Operand, r: Operand)
    requires Steady(bind, l) && Steady(bind, r)
    ensures Compared(bind, own, l, r).Ok? <==>
              && VisitedBoth(bind, l, r).Ok? && Boolean(own)
              && Compatible(VisitedBoth(bind, l, r).value.0.ref.typ, VisitedBoth(bind, l, r).value.1.ref.typ)
    ensures Compared(bind, own, l, r).Ok? ==>
              && Compared(bind, own, l, r) == VisitedBoth(bind, l, r)
              && Settled(Compared(bind, own, l, r).value.0) && Settled(Compared(bind, own, l, r).value.1)
  {
    var first := VisitedBoth(bind, l, r);
    if first.Ok? {
      var (l1, r1) := first.value;
      var (lt, rt) := (l1.ref.typ, r1.ref.typ);
      VisitedUnder(bind, l1, lt);
      VisitedUnder(bind, r1, rt);
      VisitedUnder(bind, l1, rt);
      VisitedUnder(bind, r1, lt);
    }
  }

  /** The same in a chain of scopes, for references of which it can be told beforehand. */
  lemma {:induction false} ComparedInScopes(chain: Chain, own: Option<TypeId>, l: Operand, r: Operand)
    requires ValidChain(chain) && LowerCase(chain, l.ref) && LowerCase(chain, r.ref)
    requires Stable(chain, l.ref) && Stable(chain, r.ref)
    ensures var first := VisitedBoth(BindIn(chain), l, r);
            Compared(BindIn(chain), own, l, r) ==
            if first.Throw? then first
            else if Boolean(own) && Compatible(first.value.0.ref.typ, first.value.1.ref.typ) then first
            else Throw(SyntaxError)
  {
    if Bind(chain, l.ref).Ok? { SteadyIff(BindIn(chain), chain, l); }
    if Bind(chain, r.ref).Ok? { SteadyIff(BindIn(chain), chain, r); }
    ComparedIff(BindIn(chain), own, l, r);
    if VisitedBoth(BindIn(chain), l, r).Ok? && Compared(BindIn(chain), own, l, r).Throw? {
      ComparedThrows(BindIn(chain), own, l, r);
    }
  }

  lemma {:induction false} ComparedThrows(bind: Binding, own: Option<TypeId>, l: Operand, r: Operand)
    requires Steady(bind, l) && Steady(bind, r) && VisitedBoth(bind, l, r).Ok? && Compared(bind, own, l, r).Throw?
    ensures Compared(bind, own, l, r) == Throw(SyntaxError)
  {
    var (l1, r1) := VisitedBoth(bind, l, r).value;
    var (lt, rt) := (l1.ref.typ, r1.ref.typ);
    VisitedUnder(bind, l1, lt);
    VisitedUnder(bind, r1, rt);
    VisitedUnder(bind, l1, rt);
    VisitedUnder(bind, r1, lt);
  }

  /** A type that is wanted, or INVALID if any will do, and the type that is there. */
  predicate Satisfies(wanted: TypeId, typ: TypeId) {
    wanted == INVALID || wanted == typ
  }

  /** The first lookup of an operand gives the type that is on record for it. */
  predicate Admitted(o: Operand, bound: Result<ColumnRef>) {
    bound.Ok? && Satisfies(if o.desired.Some? then o.desired.value else o.ref.typ, bound.value.typ)
  }

  /** What is wanted of an operand of type `t` beside one of type `u`. */
  function Wanted(t: TypeId, u: TypeId): (w: TypeId) {
    if t != u && u != INVALID && Flexible(t) then u else t
  }

  /** The types that the lookups of the two operands give, first and second. */
  datatype Lookups = Lookups(l1: Result<ColumnRef>, l2: Result<ColumnRef>, r1: Result<ColumnRef>, r2: Result<ColumnRef>)

  predicate AllFound(b: Lookups) {
    b.l1.Ok? && b.l2.Ok? && b.r1.Ok? && b.r2.Ok?
  }

  /** The lookups that a comparison makes: of each operand, and of what that was bound to. */
  function LookupsOf(bind: Binding, l: Operand, r: Operand): (b: Lookups) {
    var l1, r1 := bind(l.ref), bind(r.ref);
    Lookups(l1, if l1.Ok? then bind(l1.value) else l1, r1, if r1.Ok? then bind(r1.value) else r1)
  }

  /** For every binding, a comparison is accepted if and only if the four lookups succeed,
      the first ones give what is on record, and the second ones what the other operand
      makes of it. */
  lemma {:induction false} AcceptedIff(bind: Binding, own: Option<TypeId>, l: Operand, r: Operand)
    ensures var b := LookupsOf(bind, l, r);
            Compared(bind, own, l, r).Ok? <==>
              && Boolean(own) && AllFound(b) && Admitted(l, b.l1) && Admitted(r, b.r1)
              && Satisfies(Wanted(b.l1.value.typ, b.r1.value.typ), b.l2.value.typ)
              && Satisfies(Wanted(b.r1.value.typ, b.l1.value.typ), b.r2.value.typ)
    ensures var b := LookupsOf(bind, l, r);
            Compared(bind, own, l, r).Ok? ==>
              Compared(bind, own, l, r).value ==
              (Operand(b.l2.value, Some(b.l2.value.typ)), Operand(b.r2.value, Some(b.r2.value.typ)))
  {
  }

  /** The second lookups give each operand the type that the other one had at first, which
      the two first types, a string and an integer, ask for. */
  predicate TradePlaces(lt: TypeId, rt: TypeId, lt2: TypeId, rt2: TypeId) {
    && ((lt == VARCHAR && rt == INTEGER) || (lt == INTEGER && rt == VARCHAR))
    && lt2 == rt && rt2 == lt
  }

  /** Exactly when operands of types that do not go together pass: their types were unknown
      at first and are now known and incompatible, or they trade places. */
  ghost predicate Mismatches(own: Option<TypeId>, l: Operand, r: Operand, b: Lookups) {
    && Boolean(own) && AllFound(b) && Admitted(l, b.l1) && Admitted(r, b.r1)
    && var (lt, rt, lt2, rt2) := (b.l1.value.typ, b.r1.value.typ, b.l2.value.typ, b.r2.value.typ);
       (lt == INVALID && rt == INVALID && !Compatible(lt2, rt2)) || TradePlaces(lt, rt, lt2, rt2)
  }

  lemma {:induction false} MismatchIff(bind: Binding, own: Option<TypeId>, l: Operand, r: Operand)
    ensures (Compared(bind, own, l, r).Ok? &&
             !Compatible(Compared(bind, own, l, r).value.0.ref.typ, Compared(bind, own, l, r).value.1.ref.typ))
            <==> Mismatches(own, l, r, LookupsOf(bind, l, r))
  {
    AcceptedIff(bind, own, l, r);
  }

  /** The same in a chain of scopes: it can be told from the scopes before the visit. */
  lemma {:induction false} MismatchInScopesIff(chain: Chain, own: Option<TypeId>, l: Operand, r: Operand)
    ensures var l1, r1 := Bind(chain, l.ref), Bind(chain, r.ref);
            var b := Lookups(l1, if l1.Ok? then Bind(chain, l1.value) else l1,
                             r1, if r1.Ok? then Bind(chain, r1.value) else r1);
            (Compared(BindIn(chain), own, l, r).Ok? &&
             !Compatible(Compared(BindIn(chain), own, l, r).value.0.ref.typ,
                         Compared(BindIn(chain), own, l, r).value.1.ref.typ))
            <==> Mismatches(own, l, r, b)
  {
    MismatchIff(BindIn(chain), own, l, r);
  }

  /** A concrete one: columns x of a derived table `t` and y of a derived table `u` in a
      subquery, with tables `t` and `u` outside. The first visit finds an integer
      and a string, and asks each operand to be of the type of the other. The second
      visit binds both to the outer tables, where they are, and so the comparison of a
      string with an integer passes. */
  lemma {:induction false} ComparedCanMismatch()
    ensures var p := Compared(BindIn([Inside(), Outside()]), None, Unbound("x"), Unbound("y"));
            && p.Ok? && p.value.0.ref.typ == VARCHAR && p.value.1.ref.typ == INTEGER
            && !Compatible(p.value.0.ref.typ, p.value.1.ref.typ)
  {
    MovesOut("t", "u", "x");
    MovesOut("u", "t", "y");
    ComparedSwaps(BindIn([Inside(), Outside()]), Unbound("x"), Unbound("y"));
  }

  lemma {:induction false} MovesOut(a: string, b: string, name: string)
    requires (a, b, name) in {("t", "u", "x"), ("u", "t", "y")}
    ensures var bind := BindIn([Inside(), Outside()]);
            var first := bind(Unbound(name).ref);
            && first.Ok? && first.value.typ == Inside().nested[a][0].typ
            && bind(first.value).Ok? && bind(first.value).value.typ == Outside().regular[a].schema[0].typ
  {
    var s0, s1 := Inside(), Outside();
    assert Lower("t") == "t" && Lower("u") == "u" && Lower("x") == "x" && Lower("y") == "y";
    assert "x"[0] != "y"[0] && "t"[0] != "u"[0];
    assert s0.nested[a][0].alias.name == name && s0.nested[b][0].alias.name != name;
    OneOfTwo(s0, a, b, name);
    assert s1.regular[a].schema[0].name == name;
    BoundTwice(s0, s1, a, name);
  }

  /** An integer and a string that become a string and an integer. */
  lemma {:induction false} ComparedSwaps(bind: Binding, l: Operand, r: Operand)
    requires l.desired.None? && r.desired.None? && l.ref.typ == INVALID && r.ref.typ == INVALID
    requires bind(l.ref).Ok? && bind(l.ref).value.typ == INTEGER
    requires bind(r.ref).Ok? && bind(r.ref).value.typ == VARCHAR
    requires bind(bind(l.ref).value).Ok? && bind(bind(l.ref).value).value.typ == VARCHAR
    requires bind(bind(r.ref).value).Ok? && bind(bind(r.ref).value).value.typ == INTEGER
    ensures var p := Compared(bind, None, l, r);
            p.Ok? && p.value.0.ref.typ == VARCHAR && p.value.1.ref.typ == INTEGER
  {
  }

  function Unbound(name: string): (o: Operand) {
    Operand(ColumnRef("", name, INVALID_OID, INVALID_OID, INVALID_OID, INVALID, -1), None)
  }

  function Inside(): (s: Scope) {
    Scope(map[], [], map["t" := [NestedColumn(Alias("x", None), INTEGER)],
                         "u" := [NestedColumn(Alias("y", None), VARCHAR)]])
  }

  function Outside(): (s: Scope) {
    Scope(map["t" := Table(1, 7, [Column("x", VARCHAR, 3)]), "u" := Table(1, 8, [Column("y", INTEGER, 4)])],
          ["t", "u"], map[])
  }

  lemma {:induction false} OneOfTwo(s: Scope, a: string, b: string, name: string)
    requires s.regular == map[] && s.nested.Keys == {a, b} && a != b
    requires |s.nested[a]| == 1 && s.nested[a][0].alias.name == name
    requires |s.nested[b]| == 1 && s.nested[b][0].alias.name != name
    ensures Candidates(s, name) == {FromNested(a, 0)}
  {
    forall c ensures c in Candidates(s, name) <==> c == FromNested(a, 0) {
      if c in Candidates(s, name) { assert c.FromNested? && c.alias in s.nested.Keys; }
      assert a in s.nested.Keys;
    }
  }

  /** A name that means the only column of a nested table `a`, where `a` is a regular
      table outside. */
  lemma {:induction false} BoundTwice(s0: Scope, s1: Scope, a: string, name: string)
    requires Candidates(s0, name) == {FromNested(a, 0)} && a in s0.nested && |s0.nested[a]| == 1
    requires a !in s0.regular && a in s1.regular && ColumnInSchema(s1.regular[a].schema, name)
    requires a != "" && Lower(a) == a && name != "" && Lower(name) == name
    ensures var bind := BindIn([s0, s1]);
            var first := bind(Unbound(name).ref);
            && first.Ok? && first.value.typ == s0.nested[a][0].typ
            && bind(first.value).Ok? && bind(first.value).value.typ == GetColumn(s1.regular[a].schema, name).typ
  {
    var chain := [s0, s1];
    assert FromNested(a, 0) in Candidates(s0, name);
    assert Innermost(chain, name) == Some(0);
    DecidedAt(chain, Unbound(name).ref, 0, FromNested(a, 0));
    assert chain[1..][0] == s1;
    assert NearestRegular(chain, a) == Some(1);
  }

  // ---- Conjunctions ----

  lemma {:induction false} VisitedEach(bind: Binding, os: seq<Operand>)
    ensures VisitedAll(bind, os).Ok? <==> forall i :: 0 <= i < |os| ==> Visited(bind, os[i]).Ok?
    ensures VisitedAll(bind, os).Ok? ==>
              && |VisitedAll(bind, os).value| == |os|
              && forall i :: 0 <= i < |os| ==> Visited(bind, os[i]) == Ok(VisitedAll(bind, os).value[i])
    decreases |os|
  {
    if os != [] {
      VisitedEach(bind, os[1..]);
      assert forall i :: 0 < i < |os| ==> os[i] == os[1..][i - 1];
    }
  }

  lemma {:induction false} NoThrow(bind: Binding, os: seq<Operand>, after: seq<Operand>)
    requires |after| == |os| && forall i :: 0 <= i < |os| ==> Visited(bind, os[i]) == Ok(after[i])
    ensures VisitedAll(bind, os) == Ok(after)
  {
    VisitedEach(bind, os);
    assert VisitedAll(bind, os).value == after;
  }

  lemma {:induction false} FirstThrow(bind: Binding, os: seq<Operand>, i: nat)
    requires i < |os| && Visited(bind, os[i]).Throw? && forall j :: 0 <= j < i ==> Visited(bind, os[j]).Ok?
    ensures VisitedAll(bind, os) == Throw(Visited(bind, os[i]).error)
    decreases |os|
  {
    if i > 0 { FirstThrow(bind, os[1..], i - 1); }
  }

  /** Whatever was on record and however the operands are bound, a conjunction that is
      accepted has boolean columns and nothing else. */
  lemma {:induction false} ConjoinedAreBoolean(bind: Binding, own: Option<TypeId>, os: seq<Operand>)
    requires Conjoined(bind, own, os).Ok?
    ensures Boolean(own) && |Conjoined(bind, own, os).value| == |os|
    ensures forall i :: 0 <= i < |os| ==>
              var o := Conjoined(bind, own, os).value[i];
              o.ref.typ == BOOLEAN && Settled(o)
  {
    VisitedEach(bind, os);
    VisitedEach(bind, AsBooleans(VisitedAll(bind, os).value));
  }

  /** A child of a conjunction is found with a type that is on record for it, and found again
      as a boolean. */
  ghost predicate FoundBoolean(bind: Binding, o: Operand) {
    && Admitted(o, bind(o.ref))
    && bind(bind(o.ref).value).Ok? && bind(bind(o.ref).value).value.typ == BOOLEAN
  }

  /** For every binding, a conjunction is accepted if and only if that holds of all children,
      whatever the first lookups gave; the children then are what the second lookups gave. */
  lemma {:induction false} ConjoinedAcceptedIff(bind: Binding, own: Option<TypeId>, os: seq<Operand>)
    ensures Conjoined(bind, own, os).Ok? <==>
              Boolean(own) && forall i :: 0 <= i < |os| ==> FoundBoolean(bind, os[i])
    ensures Conjoined(bind, own, os).Ok? ==>
              && |Conjoined(bind, own, os).value| == |os|
              && forall i :: 0 <= i < |os| ==>
                   bind(os[i].ref).Ok? && bind(bind(os[i].ref).value).Ok? &&
                   Conjoined(bind, own, os).value[i] == Operand(bind(bind(os[i].ref).value).value, Some(BOOLEAN))
  {
    VisitedEach(bind, os);
    forall i | 0 <= i < |os| ensures Visited(bind, os[i]).Ok? <==> Admitted(os[i], bind(os[i].ref)) {}
    if VisitedAll(bind, os).Ok? {
      var first := VisitedAll(bind, os).value;
      VisitedEach(bind, AsBooleans(first));
      forall i | 0 <= i < |os|
        ensures AsBooleans(first)[i] == Operand(bind(os[i].ref).value, Some(BOOLEAN))
        ensures Visited(bind, AsBooleans(first)[i]).Ok? <==> FoundBoolean(bind, os[i])
      {
        assert Visited(bind, os[i]) == Ok(first[i]);
      }
    }
  }

  /** If the operands mean the same whenever they are bound, it is accepted exactly if
      they all can be visited and are boolean. */
  lemma {:induction false} ConjoinedIff(bind: Binding, own: Option<TypeId>, os: seq<Operand>)
    requires forall i :: 0 <= i < |os| ==> Steady(bind, os[i])
    ensures Conjoined(bind, own, os).Ok? <==>
              && Boolean(own) && VisitedAll(bind, os).Ok?
              && forall i :: 0 <= i < |os| ==> bind(os[i].ref).Ok? && bind(os[i].ref).value.typ == BOOLEAN
    ensures Conjoined(bind, own, os).Ok? ==> Conjoined(bind, own, os) == VisitedAll(bind, os)
  {
    VisitedEach(bind, os);
    if VisitedAll(bind, os).Ok? {
      var first := VisitedAll(bind, os).value;
      VisitedEach(bind, AsBooleans(first));
      forall i | 0 <= i < |os|
        ensures Visited(bind, AsBooleans(first)[i]) ==
                if first[i].ref.typ == BOOLEAN then Ok(first[i]) else Throw(SyntaxError)
      {
        VisitedUnder(bind, first[i], BOOLEAN);
      }
      if Conjoined(bind, own, os).Ok? { assert Conjoined(bind, own, os).value == first; }
    }
  }
}
