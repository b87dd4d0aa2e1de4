/** Bracketed text: what it means for `(`, `[` and `{` to be matched, stated as a
    grammar, next to the stack scan that build-support/cpplint.py performs.
    Every character that is not one of `()[]{}` is irrelevant to both.
 */
module BracketText {
  import opened Basics

  predicate IsOpener(c: char) { c == '(' || c == '[' || c == '{' }

  predicate IsCloser(c: char) { c == ')' || c == ']' || c == '}' }

  predicate IsBracket(c: char) { IsOpener(c) || IsCloser(c) }

  predicate Pairs(open: char, close: char) {
    || (open == '(' && close == ')')
    || (open == '[' && close == ']')
    || (open == '{' && close == '}')
  }

  /** How well-nested text is built: nothing; a character that is no bracket, then
      well-nested text; or a pair around well-nested text, then well-nested text. */
  datatype Parse =
    | Empty
    | Skip(c: char, rest: Parse)
    | Pair(open: char, inner: Parse, close: char, rest: Parse)
  {
    function Text(): (s: string) {
      match this
      case Empty => []
      case Skip(c, rest) => [c] + rest.Text()
      case Pair(open, inner, close, rest) => [open] + inner.Text() + [close] + rest.Text()
    }

    predicate WellFormed() {
      match this
      case Empty => true
      case Skip(c, rest) => !IsBracket(c) && rest.WellFormed()
      case Pair(open, inner, close, rest) =>
        Pairs(open, close) && inner.WellFormed() && rest.WellFormed()
    }

    function Append(that: Parse): (p: Parse) {
      match this
      case Empty => that
      case Skip(c, rest) => Skip(c, rest.Append(that))
      case Pair(open, inner, close, rest) => Pair(open, inner, close, rest.Append(that))
    }

    lemma {:induction false} AppendText(that: Parse)
      requires WellFormed() && that.WellFormed()
      ensures Append(that).WellFormed()
      ensures Append(that).Text() == Text() + that.Text()
    {
      match this
      case Empty =>
      case Skip(c, rest) =>
        rest.AppendText(that);
        Assoc([c], rest.Text(), that.Text());
      case Pair(open, inner, close, rest) =>
        rest.AppendText(that);
        Assoc([open] + inner.Text() + [close], rest.Text(), that.Text());
    }
  }

  lemma {:induction false} Assoc(a: string, b: string, c: string)
    ensures a + (b + c) == (a + b) + c
  {
  }

  ghost predicate Parses(p: Parse, s: string) {
    p.WellFormed() && p.Text() == s
  }

  /** Well-nested text, by grammar. */
  ghost predicate Nested(s: string) {
    exists p: Parse :: Parses(p, s)
  }

  /** The bracket at `i` is closed by the one at `j`: they pair up and what is
      between them is well nested. No stack and no scanning direction involved. */
  ghost predicate Match(t: string, i: int, j: int) {
    0 <= i < j < |t| && Pairs(t[i], t[j]) && Nested(t[i + 1..j])
  }

  /** The stack after scanning all of `s`, or None if some closer does not fit. */
  function Run(stack: string, s: string): (r: Option<string>)
    decreases |s|
  {
    if s == [] then Some(stack)
    else if IsOpener(s[0]) then Run(stack + [s[0]], s[1..])
    else if IsCloser(s[0]) then
      if stack != [] && Pairs(Last(stack), s[0]) then Run(Front(stack), s[1..]) else None
    else Run(stack, s[1..])
  }

  /** Found(n): the stack first becomes empty after n characters. */
  datatype Outcome = Found(length: nat) | Stuck | Open(stack: string)

  function Later(o: Outcome, n: nat): (r: Outcome) {
    if o.Found? then Found(o.length + n) else o
  }

  /** Scan until the closer that empties the stack. */
  function Find(stack: string, s: string): (r: Outcome)
    decreases |s|
  {
    if s == [] then Open(stack)
    else if IsOpener(s[0]) then Later(Find(stack + [s[0]], s[1..]), 1)
    else if IsCloser(s[0]) then
      if stack == [] || !Pairs(Last(stack), s[0]) then Stuck
      else if |stack| == 1 then Found(1)
      else Later(Find(Front(stack), s[1..]), 1)
    else Later(Find(stack, s[1..]), 1)
  }

  // ---- Grammar and stack agree ----

  lemma {:induction false} FindSplit(stack: string, u: string, v: string)
    ensures match Find(stack, u)
            case Found(n) => n <= |u| && Find(stack, u + v) == Found(n)
            case Stuck => Find(stack, u + v) == Stuck
            case Open(st) => Find(stack, u + v) == Later(Find(st, v), |u|)
    decreases |u|
  {
    if u == [] {
      assert u + v == v;
    } else {
      assert (u + v)[1..] == u[1..] + v;
      FindSplit(stack + [u[0]], u[1..], v);
      FindSplit(stack, u[1..], v);
      if stack != [] { FindSplit(Front(stack), u[1..], v); }
    }
  }

  lemma {:induction false} RunSplit(stack: string, u: string, v: string)
    ensures Run(stack, u + v) == if Run(stack, u).Some? then Run(Run(stack, u).value, v) else None
    decreases |u|
  {
    if u == [] {
      assert u + v == v;
    } else {
      assert (u + v)[1..] == u[1..] + v;
      RunSplit(stack + [u[0]], u[1..], v);
      RunSplit(stack, u[1..], v);
      if stack != [] { RunSplit(Front(stack), u[1..], v); }
    }
  }

  /** Well-nested text leaves any stack as it was, and never empties a non-empty one. */
  lemma {:induction false} ParseKeepsStack(stack: string, p: Parse)
    requires p.WellFormed()
    ensures Run(stack, p.Text()) == Some(stack)
    ensures stack != [] ==> Find(stack, p.Text()) == Open(stack)
    decreases p
  {
    var s := p.Text();
    match p
    case Empty =>
    case Skip(c, rest) =>
      assert s[1..] == rest.Text();
      ParseKeepsStack(stack, rest);
    case Pair(open, inner, close, rest) =>
      var stack' := stack + [open];
      assert Front(stack') == stack;
      var v := [close] + rest.Text();
      assert v[1..] == rest.Text();
      assert s[1..] == inner.Text() + v;
      ParseKeepsStack(stack', inner);
      ParseKeepsStack(stack, rest);
      RunSplit(stack', inner.Text(), v);
      FindSplit(stack', inner.Text(), v);
  }

  lemma {:induction false} NestedKeepsStack(stack: string, s: string)
    requires Nested(s)
    ensures Run(stack, s) == Some(stack)
    ensures stack != [] ==> Find(stack, s) == Open(stack)
  {
    var p: Parse :| Parses(p, s);
    ParseKeepsStack(stack, p);
  }

  /** `s` is well-nested text, the partner `c` of the top bracket, and a `rest`
      that the scan goes on with, unless that was the last bracket of the stack. */
  ghost predicate PopsAt(stack: string, s: string, p: Parse, c: char, rest: string) {
    && stack != [] && p.WellFormed() && Pairs(Last(stack), c)
    && s == p.Text() + [c] + rest
    && Find(stack, s) ==
       if |stack| == 1 then Found(|p.Text()| + 1)
       else Later(Find(Front(stack), rest), |p.Text()| + 1)
  }

  lemma {:induction false} PopsAfterPair(stack: string, s: string, inner: Parse, close: char, outer: Parse, c: char,
                      rest1: string, rest2: string)
    requires s != [] && IsOpener(s[0]) && stack != []
    requires PopsAt(stack + [s[0]], s[1..], inner, close, rest1)
    requires PopsAt(stack, rest1, outer, c, rest2)
    ensures PopsAt(stack, s, Pair(s[0], inner, close, outer), c, rest2)
  {
    assert Front(stack + [s[0]]) == stack;
    Cons(s);
    PairText([s[0]], inner.Text(), [close], outer.Text(), [c], rest2);
  }

  lemma {:induction false} Cons(s: string)
    requires s != []
    ensures s == [s[0]] + s[1..]
  {
  }

  lemma {:induction false} PairText(a: string, b: string, c: string, d: string, e: string, f: string)
    ensures a + (b + c + (d + e + f)) == a + b + c + d + e + f
  {
    Assoc(a, b + c, d + e + f);
    Assoc(a, b, c);
    Assoc(a + b + c, d + e, f);
    Assoc(a + b + c, d, e);
  }

  lemma {:induction false} PopsAfterSkip(stack: string, s: string, p: Parse, c: char, rest: string)
    requires s != [] && !IsBracket(s[0])
    requires PopsAt(stack, s[1..], p, c, rest)
    ensures PopsAt(stack, s, Skip(s[0], p), c, rest)
  {
    Cons(s);
    Assoc([s[0]], p.Text() + [c], rest);
    Assoc([s[0]], p.Text(), [c]);
  }

  /** A scan that gets rid of its top bracket does so at that bracket's partner. */
  lemma {:induction false} PopPoint(stack: string, s: string) returns (p: Parse, c: char, rest: string)
    requires stack != []
    requires Find(stack, s).Found?
    ensures PopsAt(stack, s, p, c, rest)
    decreases |s|
  {
    if IsOpener(s[0]) {
      var stack' := stack + [s[0]];
      assert Front(stack') == stack;
      var inner, close, rest1 := PopPoint(stack', s[1..]);
      p, c, rest := PopPoint(stack, rest1);
      PopsAfterPair(stack, s, inner, close, p, c, rest1, rest);
      p := Pair(s[0], inner, close, p);
    } else if IsCloser(s[0]) {
      p, c, rest := Empty, s[0], s[1..];
      assert s == [s[0]] + s[1..];
    } else {
      p, c, rest := PopPoint(stack, s[1..]);
      PopsAfterSkip(stack, s, p, c, rest);
      p := Skip(s[0], p);
    }
  }

  /** The scan from an opener stops exactly at the bracket that matches it. */
  lemma {:induction false} FindIsMatch(t: string, i: nat, j: nat)
    requires i < j < |t| && IsOpener(t[i])
    ensures Find([], t[i..]) == Found(j + 1 - i) <==> Match(t, i, j)
  {
    var s := t[i + 1..];
    assert t[i..][1..] == s;
    assert [] + [t[i]] == [t[i]];
    assert Find([], t[i..]) == Later(Find([t[i]], s), 1);
    if Match(t, i, j) {
      var u, v := t[i + 1..j], t[j..];
      assert s == u + v;
      NestedKeepsStack([t[i]], u);
      FindSplit([t[i]], u, v);
      assert Find([t[i]], v) == Found(1);
    }
    if Find([], t[i..]) == Found(j + 1 - i) {
      var p, c, rest := PopPoint([t[i]], s);
      assert p.Text() == t[i + 1..j];
      assert Parses(p, t[i + 1..j]);
    }
  }

  lemma {:induction false} TailOfTake(s: string, n: nat)
    requires 0 < n <= |s|
    ensures s[..n] != [] && s[..n][0] == s[0] && s[..n][1..] == s[1..][..n - 1]
  {
  }

  lemma {:induction false} FoundIsInText(stack: string, s: string)
    requires Find(stack, s).Found?
    ensures 0 < Find(stack, s).length <= |s|
    ensures Run(stack, s[..Find(stack, s).length]) == Some([])
    decreases |s|
  {
    var n := Find(stack, s).length;
    if IsOpener(s[0]) {
      FoundIsInText(stack + [s[0]], s[1..]);
    } else if !IsCloser(s[0]) {
      FoundIsInText(stack, s[1..]);
    } else if |stack| > 1 {
      FoundIsInText(Front(stack), s[1..]);
    } else {
      assert Front(stack) == [];
    }
    TailOfTake(s, n);
  }

  lemma {:induction false} RunIsParse(s: string) returns (p: Parse)
    requires Run([], s) == Some([])
    ensures Parses(p, s)
    decreases |s|
  {
    if s == [] {
      p := Empty;
    } else if !IsOpener(s[0]) {
      p := RunIsParse(s[1..]);
      p := Skip(s[0], p);
    } else {
      var inner, close, rest := FirstPair(s);
      p := RunIsParse(rest);
      p := Pair(s[0], inner, close, p);
      Assoc([s[0]] + inner.Text(), [close], rest);
    }
  }

  /** A nested text that starts with a bracket is that bracket, its partner, a nested text
      in between, and a nested text after them. */
  lemma {:induction false} FirstPair(s: string) returns (inner: Parse, close: char, rest: string)
    requires s != [] && IsOpener(s[0]) && Run([], s) == Some([])
    ensures inner.WellFormed() && Pairs(s[0], close) && |rest| < |s|
    ensures s == [s[0]] + inner.Text() + [close] + rest && Run([], rest) == Some([])
    decreases |s|, 0
  {
    var t := s[1..];
    assert [] + [s[0]] == [s[0]];
    RunReturns([s[0]], t);
    inner, close, rest := PopPoint([s[0]], t);
    var u := inner.Text() + [close];
    assert u == t[..|u|];
    FoundIsInText([s[0]], t);
    RunSplit([s[0]], u, rest);
    assert s == [s[0]] + t;
    assert [s[0]] + (u + rest) == [s[0]] + inner.Text() + [close] + rest;
  }

  /** The grammar and the stack describe the same texts. */
  lemma {:induction false} NestedIffRun(s: string)
    ensures Nested(s) <==> Run([], s) == Some([])
  {
    if Nested(s) {
      NestedKeepsStack([], s);
    }
    if Run([], s) == Some([]) {
      var p := RunIsParse(s);
    }
  }

  lemma {:induction false} RunReturns(stack: string, s: string)
    requires stack != [] && Run(stack, s) == Some([])
    ensures Find(stack, s).Found?
    decreases |s|
  {
    if IsOpener(s[0]) {
      RunReturns(stack + [s[0]], s[1..]);
    } else if IsCloser(s[0]) {
      if |stack| > 1 { RunReturns(Front(stack), s[1..]); }
    } else {
      RunReturns(stack, s[1..]);
    }
  }

  /** An opener has at most one partner. */
  lemma {:induction false} CloserUnique(t: string, i: int, j: int, j': int)
    requires Match(t, i, j) && Match(t, i, j')
    ensures j == j'
  {
    FindIsMatch(t, i, j);
    FindIsMatch(t, i, j');
  }

  // ---- Only the brackets matter ----

  function Skeleton(s: string): (r: string)
    decreases |s|
  {
    if s == [] then []
    else if IsBracket(s[0]) then [s[0]] + Skeleton(s[1..])
    else Skeleton(s[1..])
  }

  lemma {:induction false} SkeletonConcat(u: string, v: string)
    ensures Skeleton(u + v) == Skeleton(u) + Skeleton(v)
    decreases |u|
  {
    if u == [] {
      assert u + v == v;
    } else {
      assert (u + v)[1..] == u[1..] + v;
      SkeletonConcat(u[1..], v);
    }
  }

  lemma {:induction false} RunSkeleton(stack: string, s: string)
    ensures Run(stack, s) == Run(stack, Skeleton(s))
    decreases |s|
  {
    if s != [] {
      if IsBracket(s[0]) {
        assert Skeleton(s)[1..] == Skeleton(s[1..]);
        assert Skeleton(s)[0] == s[0];
      }
      RunSkeleton(stack + [s[0]], s[1..]);
      RunSkeleton(stack, s[1..]);
      if stack != [] { RunSkeleton(Front(stack), s[1..]); }
    }
  }

  /** The number of brackets before position `i`: where `t[i]` ends up in the skeleton. */
  function Rank(t: string, i: nat): (r: nat)
    requires i <= |t|
  {
    |Skeleton(t[..i])|
  }

  lemma {:induction false} SkeletonAt(t: string, i: nat)
    requires i < |t| && IsBracket(t[i])
    ensures Rank(t, i) < |Skeleton(t)| && Skeleton(t)[Rank(t, i)] == t[i]
    ensures Rank(t, i + 1) == Rank(t, i) + 1
  {
    assert t == t[..i] + t[i..] && t[i..] == [t[i]] + t[i + 1..] && t[..i + 1] == t[..i] + [t[i]];
    SkeletonConcat(t[..i], t[i..]);
    SkeletonConcat(t[..i], [t[i]]);
    assert t[i..][1..] == t[i + 1..];
    assert [t[i]][1..] == [];
    assert Skeleton([t[i]]) == [t[i]];
    assert Skeleton(t[i..])[0] == t[i];
  }

  lemma {:induction false} SkeletonSlice(t: string, i: nat, j: nat)
    requires i <= j <= |t|
    ensures Rank(t, i) <= Rank(t, j) <= |Skeleton(t)|
    ensures Skeleton(t)[Rank(t, i)..Rank(t, j)] == Skeleton(t[i..j])
  {
    assert t[..j] == t[..i] + t[i..j] && t == t[..j] + t[j..];
    SkeletonConcat(t[..i], t[i..j]);
    SkeletonConcat(t[..j], t[j..]);
  }

  /** Matching two brackets of a text is matching them in the text from which
      everything but `()[]{}` was erased. */
  lemma {:induction false} MatchIsSkeletonMatch(t: string, i: nat, j: nat)
    requires i < |t| && j < |t| && IsBracket(t[i]) && IsBracket(t[j])
    ensures Match(t, i, j) <==> Match(Skeleton(t), Rank(t, i), Rank(t, j))
  {
    SkeletonAt(t, i);
    SkeletonAt(t, j);
    if i < j {
      SkeletonSlice(t, i + 1, j);
      var u := t[i + 1..j];
      NestedIffRun(u);
      NestedIffRun(Skeleton(u));
      RunSkeleton([], u);
    } else {
      SkeletonSlice(t, j, i);
    }
  }

  // ---- Reading backwards ----

  /** Brackets, and the template marks `<` and `>`, turned around. */
  function Flip(c: char): (r: char) {
    match c
    case '<' => '>' case '>' => '<'
    case '(' => ')' case ')' => '('
    case '[' => ']' case ']' => '['
    case '{' => '}' case '}' => '{'
    case _ => c
  }

  /** The text read from its end, with every bracket turned around. */
  function Mirror(s: string): (r: string)
    ensures |r| == |s|
  {
    seq(|s|, k requires 0 <= k < |s| => Flip(s[|s| - 1 - k]))
  }

  lemma {:induction false} MirrorAt(s: string, k: nat)
    requires k < |s|
    ensures Mirror(s)[k] == Flip(s[|s| - 1 - k])
  {
  }

  lemma {:induction false} MirrorConcat(u: string, v: string)
    ensures Mirror(u + v) == Mirror(v) + Mirror(u)
  {
    forall k | 0 <= k < |u| + |v|
      ensures Mirror(u + v)[k] == (Mirror(v) + Mirror(u))[k]
    {
      MirrorAt(u + v, k);
      if k < |v| { MirrorAt(v, k); } else { MirrorAt(u, k - |v|); }
    }
  }

  lemma {:induction false} MirrorSlice(s: string, i: nat, j: nat)
    requires i <= j <= |s|
    ensures Mirror(s)[|s| - j..|s| - i] == Mirror(s[i..j])
  {
    forall k | 0 <= k < j - i
      ensures Mirror(s)[|s| - j..|s| - i][k] == Mirror(s[i..j])[k]
    {
      MirrorAt(s, |s| - j + k);
      MirrorAt(s[i..j], k);
    }
  }

  lemma {:induction false} MirrorOne(c: char)
    ensures Mirror([c]) == [Flip(c)]
  {
  }

  lemma {:induction false} MirrorTwice(s: string)
    ensures Mirror(Mirror(s)) == s
  {
    forall k | 0 <= k < |s| ensures Mirror(Mirror(s))[k] == s[k] {
      MirrorAt(Mirror(s), k);
      MirrorAt(s, |s| - 1 - k);
    }
  }

  lemma {:induction false} ParseMirror(p: Parse) returns (q: Parse)
    requires p.WellFormed()
    ensures Parses(q, Mirror(p.Text()))
    decreases p
  {
    match p
    case Empty =>
      q := Empty;
    case Skip(c, rest) =>
      q := ParseMirror(rest);
      var one := Skip(Flip(c), Empty);
      MirrorConcat([c], rest.Text());
      MirrorOne(c);
      q.AppendText(one);
      q := q.Append(one);
    case Pair(open, inner, close, rest) =>
      q := ParseMirror(rest);
      var mid := ParseMirror(inner);
      var one := Pair(Flip(close), mid, Flip(open), Empty);
      q.AppendText(one);
      q := q.Append(one);
      MirrorPair([open], inner.Text(), [close], rest.Text());
      MirrorOne(open);
      MirrorOne(close);
  }

  lemma {:induction false} MirrorPair(a: string, b: string, c: string, d: string)
    ensures Mirror(a + b + c + d) == Mirror(d) + (Mirror(c) + Mirror(b) + Mirror(a) + [])
  {
    MirrorConcat(a + b + c, d);
    MirrorConcat(a + b, c);
    MirrorConcat(a, b);
  }

  lemma {:induction false} MatchParts(t: string, i: nat, j: nat)
    requires Match(t, i, j)
    ensures t == t[..i] + ([t[i]] + t[i + 1..j] + [t[j]] + t[j + 1..])
  {
  }

  lemma {:induction false} MirrorParts(a: string, open: char, u: string, close: char, b: string)
    ensures Mirror(a + ([open] + u + [close] + b))
         == Mirror(b) + [Flip(close)] + Mirror(u) + [Flip(open)] + Mirror(a)
  {
    MirrorConcat(a, [open] + u + [close] + b);
    MirrorPair([open], u, [close], b);
    MirrorOne(open);
    MirrorOne(close);
    Regroup(Mirror(b), [Flip(close)], Mirror(u), [Flip(open)], Mirror(a));
  }

  lemma {:induction false} MatchMirrorParts(a: string, open: char, u: string, close: char, b: string)
    requires Pairs(open, close) && Nested(u)
    ensures Match(Mirror(a + ([open] + u + [close] + b)), |b|, |b| + 1 + |u|)
  {
    MirrorParts(a, open, u, close, b);
    NestedMirror(u);
    MatchInside(Mirror(b), Flip(close), Mirror(u), Flip(open), Mirror(a));
  }

  /** Mirroring the text turns every matched pair around. */
  lemma {:induction false} MatchMirrorOneWay(t: string, i: nat, j: nat)
    requires Match(t, i, j)
    ensures Match(Mirror(t), |t| - 1 - j, |t| - 1 - i)
  {
    MatchParts(t, i, j);
    MatchMirrorParts(t[..i], t[i], t[i + 1..j], t[j], t[j + 1..]);
  }

  lemma {:induction false} NestedMirror(s: string)
    requires Nested(s)
    ensures Nested(Mirror(s))
  {
    var p: Parse :| Parses(p, s);
    var q := ParseMirror(p);
  }

  lemma {:induction false} Regroup(a: string, b: string, c: string, d: string, e: string)
    ensures a + (b + c + d + []) + e == a + b + c + d + e
  {
  }

  lemma {:induction false} MatchInside(a: string, open: char, u: string, close: char, b: string)
    requires Pairs(open, close) && Nested(u)
    ensures Match(a + [open] + u + [close] + b, |a|, |a| + 1 + |u|)
  {
    var t := a + [open] + u + [close] + b;
    assert t[|a|] == open && t[|a| + 1 + |u|] == close && t[|a| + 1..|a| + 1 + |u|] == u;
  }

  lemma {:induction false} MatchMirrorBack(t: string, u: string, i: nat, j: nat)
    requires Mirror(u) == t && i < |t| && j < |t| && Match(u, |t| - 1 - j, |t| - 1 - i)
    ensures Match(t, i, j)
  {
    MatchMirrorOneWay(u, |t| - 1 - j, |t| - 1 - i);
  }

  lemma {:induction false} MatchMirror(t: string, i: nat, j: nat)
    requires i < |t| && j < |t|
    ensures Match(t, i, j) <==> Match(Mirror(t), |t| - 1 - j, |t| - 1 - i)
  {
    if Match(t, i, j) {
      MatchMirrorOneWay(t, i, j);
    }
    if Match(Mirror(t), |t| - 1 - j, |t| - 1 - i) {
      MirrorTwice(t);
      MatchMirrorBack(t, Mirror(t), i, j);
    }
  }

  /** A closer has at most one partner. */
  lemma {:induction false} OpenerUnique(t: string, i: nat, i': nat, j: nat)
    requires Match(t, i, j) && Match(t, i', j)
    ensures i == i'
  {
    MatchMirror(t, i, j);
    MatchMirror(t, i', j);
    CloserUnique(Mirror(t), |t| - 1 - j, |t| - 1 - i, |t| - 1 - i');
  }
}
